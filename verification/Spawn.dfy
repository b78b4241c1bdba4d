/** posix_spawnp: the file actions of the C library become a list of dup2 actions in
    a request to the host, and the list is freed again. */
module PosixSpawn {
  import opened Wrappers
  import opened CMemory
  import opened Argv
  import opened HostSockets
  import opened SpawnActions

  /** musl's struct fdop: set when an action is added, read-only afterwards. */
  class Fdop {
    const next: Fdop?
    const action: Action

    constructor (next: Fdop?, action: Action)
      ensures this.next == next && this.action == action
    {
      this.next, this.action := next, action;
    }
  }

  function At(ops: seq<Fdop>, i: nat): Fdop? {
    if i < |ops| then ops[i] else null
  }

  /** Following `next` from `p` gives exactly `ops`. */
  ghost predicate IsOpList(p: Fdop?, ops: seq<Fdop>) {
    p == At(ops, 0) && forall op, i :: 0 <= i < |ops| && op == ops[i] ==> op.next == At(ops, i + 1)
  }

  ghost function Actions(ops: seq<Fdop>): seq<Action> {
    if ops == [] then [] else Actions(ops[..|ops| - 1]) + [ops[|ops| - 1].action]
  }

  /** struct wamr_spawn_action_fdup2 with its base. */
  class SpawnAction {
    var nextAction: SpawnAction?
    var srcFd: int
    var destFd: int

    constructor ()
      ensures nextAction == null
    {
      nextAction := null;
    }
  }

  /** Following `nextAction` from `p` gives exactly `nodes`. */
  ghost predicate IsActionList(p: SpawnAction?, nodes: seq<SpawnAction>)
    reads nodes
  {
    && (p == if nodes == [] then null else nodes[0])
    && (forall i, j :: 0 <= i < j < |nodes| ==> nodes[i] != nodes[j])
    && (forall i, j :: 0 <= i < j < |nodes| && j == i + 1 ==> nodes[i].nextAction == nodes[j])
    && (nodes != [] ==> nodes[|nodes| - 1].nextAction == null)
  }

  /** The actions of the nodes, as the host reads them. */
  ghost predicate Carries(nodes: seq<SpawnAction>, pairs: seq<(int, int)>)
    reads nodes
  {
    |nodes| == |pairs| && forall i :: 0 <= i < |nodes| ==> (nodes[i].srcFd, nodes[i].destFd) == pairs[i]
  }

  // ---------- posix_spawnp ----------

  /** struct wamr_spawn_req: `argv` is `block + first`, NULL when `block` is. */
  class SpawnReq {
    var commandName: StringBlock
    var block: Block
    var first: nat
    var argc: nat
    var fa: SpawnAction?

    constructor (commandName: StringBlock)
      ensures this.commandName == commandName
      ensures block == null && first == 0 && argc == 0 && fa == null
    {
      this.commandName := commandName;
      block, first, argc, fa := null, 0, 0, null;
    }
  }

  /** The actions of the request after the first `i` elements of the library's list. */
  ghost function Pairs(ops: seq<Fdop>, i: nat): seq<(int, int)>
    requires i <= |ops|
  {
    Reverse(Dup2s(Actions(ops[..i])))
  }

  lemma PairsGrow(ops: seq<Fdop>, i: nat)
    requires i < |ops|
    ensures Pairs(ops, i + 1) ==
            match ops[i].action
            case Dup2(src, dest) => [(src, dest)] + Pairs(ops, i)
            case _ => Pairs(ops, i)
  {
    assert ops[..i + 1][..i] == ops[..i];
    if ops[i].action.Dup2? {
      ReverseSnoc(Dup2s(Actions(ops[..i])), (ops[i].action.src, ops[i].action.dest));
    }
  }

  lemma NextAt(p: Fdop?, ops: seq<Fdop>, i: nat)
    requires IsOpList(p, ops) && i < |ops|
    ensures ops[i].next == At(ops, i + 1)
  {
  }

  /** Allocate a dup2 node, fill it in and make it the head of the request's list. */
  method Prepend(heap: Heap, req: SpawnReq, src: int, dest: int,
                 ghost nodes: seq<SpawnAction>, ghost pairs: seq<(int, int)>)
    returns (newNode: SpawnAction)
    requires IsActionList(req.fa, nodes) && Carries(nodes, pairs)
    modifies heap, req`fa
    ensures newNode !in old(heap.live) && heap.live == old(heap.live) + {newNode} && heap.reallocs == old(heap.reallocs)
    ensures newNode.srcFd == src && newNode.destFd == dest
    ensures IsActionList(req.fa, [newNode] + nodes) && Carries([newNode] + nodes, [(src, dest)] + pairs)
  {
    newNode := new SpawnAction();
    heap.Register(newNode);
    newNode.srcFd := src;
    newNode.destFd := dest;
    newNode.nextAction := req.fa;
    req.fa := newNode;
  }

  lemma NothingYet(p: Fdop?, ops: seq<Fdop>)
    requires IsOpList(p, ops)
    ensures p == At(ops, 0) && IsActionList(null, []) && Carries([], Pairs(ops, 0)) && Blocks([]) == {}
  {
  }

  /** Walk the C library's list and prepend a node to the request for every dup2. */
  method BuildActions(heap: Heap, req: SpawnReq, op0: Fdop?, ghost ops: seq<Fdop>)
    returns (ghost nodes: seq<SpawnAction>)
    requires IsOpList(op0, ops) && req.fa == null
    modifies heap, req`fa
    ensures IsActionList(req.fa, nodes) && Carries(nodes, Pairs(ops, |ops|))
    ensures Blocks(nodes) !! old(heap.live) && heap.live == old(heap.live) + Blocks(nodes)
    ensures heap.reallocs == old(heap.reallocs)
  {
    nodes := [];
    var op := op0;
    ghost var i := 0;
    ghost var blocks: set<object> := {};
    NothingYet(op0, ops);
    hide Pairs, Carries, IsActionList, Blocks, IsOpList;
    while op != null
      invariant i <= |ops| && op == At(ops, i)
      invariant IsActionList(req.fa, nodes) && Carries(nodes, Pairs(ops, i))
      invariant blocks == Blocks(nodes) && blocks !! old(heap.live) && heap.live == old(heap.live) + blocks
      invariant heap.reallocs == old(heap.reallocs)
      decreases |ops| - i
    {
      NextAt(op0, ops, i);
      PairsGrow(ops, i);
      if op.action.Dup2? {
        var newNode := Prepend(heap, req, op.action.src, op.action.dest, nodes, Pairs(ops, i));
        BlocksAdd(nodes, newNode);
        nodes, blocks := [newNode] + nodes, blocks + {newNode};
      }
      op := op.next;
      i := i + 1;
    }
  }

  /** Free the request's list node by node. */
  method FreeActions(heap: Heap, req: SpawnReq, ghost nodes: seq<SpawnAction>)
    requires IsActionList(req.fa, nodes) && Blocks(nodes) <= heap.live
    modifies heap, req`fa
    ensures heap.live == old(heap.live) - Blocks(nodes) && heap.reallocs == old(heap.reallocs)
  {
    ghost var i := 0;
    while req.fa != null
      invariant i <= |nodes| && IsActionList(req.fa, nodes[i..])
      invariant heap.live == old(heap.live) - Blocks(nodes[..i]) && heap.reallocs == old(heap.reallocs)
      decreases |nodes| - i
    {
      var nextNode := req.fa.nextAction;
      heap.Free(req.fa);
      req.fa := nextNode;
      i := i + 1;
    }
    assert nodes[..i] == nodes;
  }

  /** posix_spawn_file_actions_t; `ops` is its list. */
  class FileActions {
    var actions: Fdop?
    ghost var ops: seq<Fdop>

    constructor ()
      ensures actions == null && ops == []
    {
      actions, ops := null, [];
    }

    ghost predicate Valid()
      reads this
    {
      IsOpList(actions, ops) && forall i, j :: 0 <= i < j < |ops| ==> ops[i] != ops[j]
    }
  }

  /** An argument vector, when there is one, spells `words`. */
  ghost predicate IsArgv(argv: Block, strings: seq<StringBlock>, words: seq<string>)
    reads argv
  {
    if argv == null then words == [] else Holds(argv, strings) && Spell(strings, words)
  }

  /** What the host finds when it follows the pointers of the request. */
  ghost predicate Denotes(req: SpawnReq, strings: seq<StringBlock>, words: seq<string>, nodes: seq<SpawnAction>,
                          request: SpawnRequest)
    reads req, req.block, nodes
  {
    && request.command == CString(req.commandName.chars)
    && request.argc == req.argc
    && IsArgv(req.block, strings, words)
    && (if req.block == null then request.args == []
        else req.first + req.argc <= |words| && request.args == words[req.first..req.first + req.argc])
    && IsActionList(req.fa, nodes) && Carries(nodes, request.actions)
  }

  /** The spawn system call on a request in memory. */
  method SyscallSpawn(host: Host, req: SpawnReq, r: SpawnReply, ghost strings: seq<StringBlock>,
                      ghost words: seq<string>, ghost nodes: seq<SpawnAction>, ghost request: SpawnRequest)
    requires Denotes(req, strings, words, nodes, request)
    modifies host`spawned
    ensures host.spawned == old(host.spawned) + [SpawnEvent(request, host.st.fds)]
  {
    host.Spawn(request, r);
  }

  /** Point the request at the arguments after the first and count them. */
  method SetArgs(req: SpawnReq, argv: Block, ghost strings: seq<StringBlock>, ghost words: seq<string>)
    requires IsArgv(argv, strings, words) && req.block == null && req.argc == 0
    modifies req`block, req`first, req`argc
    ensures words == [] ==> req.block == null && req.argc == 0
    ensures words != [] ==> req.block == argv && req.first == 1 && req.argc == |words| - 1
  {
    if argv != null && argv[0] != null {
      req.block, req.first := argv, 1;
      while req.block[req.first + req.argc] != null
        invariant req.block == argv && req.first == 1 && req.argc < |words|
        decreases |words| - req.argc
      {
        req.argc := req.argc + 1;
      }
    }
  }

  /** What posix_spawnp asks of the host for a command, a full argument vector and a
      list of file actions. */
  ghost function RequestFor(command: string, words: seq<string>, ops: seq<Fdop>): SpawnRequest {
    var args := if words == [] then [] else words[1..];
    SpawnRequest(command, args, |args|, Pairs(ops, |ops|))
  }

  /** The child that the host makes of such a request has the descriptors that ChildOf
      tells, when the list holds `calls` with the last one first. */
  lemma RequestMakesChild(command: string, words: seq<string>, ops: seq<Fdop>,
                          fds: map<int, SockId>, calls: seq<Action>)
    requires Actions(ops) == Reverse(calls)
    ensures SpawnEvent(RequestFor(command, words, ops), fds).ChildFds() == ChildOf(fds, calls)
  {
    assert ops[..|ops|] == ops;
  }

  /** posix_spawnp.  The host gets the arguments after the first with their number and
      the dup2 actions in reverse list order; whatever it answers, every node that
      was allocated for it is freed again. */
  method PosixSpawnp(host: Host, heap: Heap, file: StringBlock?, fa: FileActions?, argv: Block, r: SpawnReply,
                     ghost strings: seq<StringBlock>, ghost words: seq<string>)
    returns (err: Option<Errno>, pid: int)
    requires file != null ==> '\0' in file.chars
    requires fa != null ==> fa.Valid()
    requires IsArgv(argv, strings, words)
    modifies heap, host`spawned
    ensures heap.live == old(heap.live) && heap.reallocs == old(heap.reallocs)
    ensures if file == null || CString(file.chars) == "" then err == Some(EINVAL) && host.spawned == old(host.spawned)
            else
              var ops := if fa == null then [] else fa.ops;
              && err == (if r.Spawned? then None else Some(r.errno))
              && (r.Spawned? ==> pid == r.pid)
              && host.spawned == old(host.spawned)
                   + [SpawnEvent(RequestFor(CString(file.chars), words, ops), host.st.fds)]
  {
    pid := 0;
    if file == null || file.chars[0] == '\0' {
      return Some(EINVAL), pid;
    }
    var req := new SpawnReq(file);
    NothingYet(null, []);
    assert CString(file.chars) != "";
    hide CString, Pairs, Carries, IsActionList, Blocks, IsOpList, Holds, Spell;
    SetArgs(req, argv, strings, words);
    ghost var ops: seq<Fdop> := [];
    ghost var nodes: seq<SpawnAction> := [];
    if fa != null && fa.actions != null {
      ops := fa.ops;
      nodes := BuildActions(heap, req, fa.actions, fa.ops);
    }
    SyscallSpawn(host, req, r, strings, if req.block == null then [] else words, nodes,
                 RequestFor(CString(file.chars), words, ops));
    FreeActions(heap, req, nodes);
    err := None;
    match r {
      case Spawned(p) => pid := p;
      case NotSpawned(e) => err := Some(e);
    }
  }
}
