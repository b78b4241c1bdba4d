/** popen, pclose, system and waitpid, put together from socketpair, the splitter and
    posix_spawnp. */
module Process {
  import opened Wrappers
  import opened SockAddr
  import opened CMemory
  import opened Tokenizer
  import opened Argv
  import opened HostSockets
  import opened SocketPair
  import opened SpawnActions
  import opened PosixSpawn

  const AF_LOCAL := AF_INET

  /** A stdio stream over a descriptor. */
  class File {
    const fd: int
    var pipePid: int

    constructor (fd: int)
      ensures this.fd == fd
    {
      this.fd, pipePid := fd, 0;
    }
  }

  /** What the host, the C library and the heap answer during one popen. */
  datatype PopenReplies = PopenReplies(
    pair: Replies, fdopenOk: bool, initOk: bool, dup2Ok: bool, mallocOk: bool, spawn: SpawnReply)

  // ---------- the C library's part: streams and file actions ----------

  method Fdopen(heap: Heap, fd: int, ok: bool) returns (f: File?)
    modifies heap
    ensures f != null <==> ok
    ensures f != null ==> fresh(f) && f.fd == fd && heap.live == old(heap.live) + {f} && f !in old(heap.live)
    ensures f == null ==> heap.live == old(heap.live)
  {
    if !ok {
      return null;
    }
    f := new File(fd);
    heap.Register(f);
  }

  method Fclose(host: Host, heap: Heap, f: File)
    requires f in heap.live && f.fd in host.st.fds
    modifies heap, host`st
    ensures heap.live == old(heap.live) - {f}
    ensures host.st == old(host.st).(fds := old(host.st).fds - {f.fd})
  {
    host.Close(f.fd);
    heap.Free(f);
  }

  /** posix_spawn_file_actions_init: what it sets up must be destroyed, so it counts
      as live. */
  method FileActionsInit(heap: Heap, ok: bool) returns (fa: FileActions?)
    modifies heap
    ensures fa != null <==> ok
    ensures fa != null ==>
              fresh(fa) && fa.ops == [] && fa.Valid() && heap.live == old(heap.live) + {fa} && fa !in old(heap.live)
    ensures fa == null ==> heap.live == old(heap.live)
  {
    if !ok {
      return null;
    }
    fa := new FileActions();
    heap.Register(fa);
  }

  /** posix_spawn_file_actions_adddup2 adds at the head of the list. */
  method FileActionsAddDup2(heap: Heap, fa: FileActions, src: int, dest: int, ok: bool) returns (done: bool)
    requires fa.ops == [] && fa.Valid()
    modifies heap, fa
    ensures done == ok && fa.Valid()
    ensures !done ==> fa.ops == [] && heap.live == old(heap.live)
    ensures done ==>
              && |fa.ops| == 1 && fa.ops[0].action == Dup2(src, dest)
              && fa.ops[0] !in old(heap.live) && heap.live == old(heap.live) + {fa.ops[0]}
  {
    if !ok {
      return false;
    }
    var op := new Fdop(fa.actions, Dup2(src, dest));
    heap.Register(op);
    fa.actions, fa.ops := op, [op];
    return true;
  }

  /** posix_spawn_file_actions_destroy. */
  method FileActionsDestroy(heap: Heap, fa: FileActions)
    requires fa.Valid() && Blocks(fa.ops) + {fa} <= heap.live
    modifies heap
    ensures heap.live == old(heap.live) - Blocks(fa.ops) - {fa}
  {
    var op := fa.actions;
    ghost var i := 0;
    while op != null
      invariant i <= |fa.ops| && op == At(fa.ops, i)
      invariant heap.live == old(heap.live) - Blocks(fa.ops[..i])
      decreases |fa.ops| - i
    {
      var next := op.next;
      heap.Free(op);
      op := next;
      i := i + 1;
    }
    assert fa.ops[..i] == fa.ops;
    heap.Free(fa);
  }

  // ---------- popen ----------

  /** A child is asked for: everything before the spawn call works out. */
  predicate AsksForChild(cmd: string, r: PopenReplies) {
    r.initOk && r.dup2Ok && r.mallocOk && Split(cmd) != []
  }

  /** What the host is asked for: the command's words and one dup2. */
  function ChildRequest(words: seq<string>, actions: seq<(int, int)>): SpawnRequest
    requires words != []
  {
    SpawnRequest(words[0], words[1..], |words| - 1, actions)
  }

  lemma OneDup2(command: string, words: seq<string>, op: Fdop, src: int, dest: int)
    requires words != [] && command == words[0] && op.action == Dup2(src, dest)
    ensures RequestFor(command, words, [op]) == ChildRequest(words, [(src, dest)])
  {
    assert [op][..1] == [op];
    PairsGrow([op], 0);
  }

  /** Split, spawn, free: what popen and system share.  Nothing allocated stays. */
  method SpawnCmdline(host: Host, heap: Heap, cmd: string, fa: FileActions?, mallocOk: bool, r: SpawnReply)
    returns (err: Option<Errno>, pid: int)
    requires '\0' !in cmd && (fa != null ==> fa.Valid())
    modifies heap, host`spawned
    ensures heap.live == old(heap.live)
    ensures if !mallocOk || Split(cmd) == [] then err == Some(ENOMEM) && host.spawned == old(host.spawned)
            else
              && err == (if r.Spawned? then None else Some(r.errno))
              && (r.Spawned? ==> pid == r.pid)
              && host.spawned == old(host.spawned)
                   + [SpawnEvent(RequestFor(Split(cmd)[0], Split(cmd), if fa == null then [] else fa.ops), host.st.fds)]
  {
    err, pid := Some(ENOMEM), 0;
    var argv, strings := SplitCmdline(heap, cmd, mallocOk);
    if argv != null {
      SplitConserves(cmd);
      ghost var name := Split(cmd)[0];
      CStringEnds(name, []);
      assert argv[0].chars == name + ['\0'] + [];
      err, pid := PosixSpawnp(host, heap, argv[0], fa, argv, r, strings, Split(cmd));
    }
    FreeArgv(heap, argv, strings);
  }

  /** The part of popen between fdopen and the final clean-up: set up the file
      actions, spawn, and tear everything down again. */
  method LaunchChild(host: Host, heap: Heap, cmd: string, src: int, dest: int, r: PopenReplies)
    returns (err: Option<Errno>, pid: int)
    requires '\0' !in cmd
    modifies heap, host`spawned
    ensures heap.live == old(heap.live)
    ensures if AsksForChild(cmd, r) then
              && err == (if r.spawn.Spawned? then None else Some(r.spawn.errno))
              && (r.spawn.Spawned? ==> pid == r.spawn.pid)
              && host.spawned == old(host.spawned) + [SpawnEvent(ChildRequest(Split(cmd), [(src, dest)]), host.st.fds)]
            else err == Some(ENOMEM) && host.spawned == old(host.spawned)
  {
    err, pid := Some(ENOMEM), 0;
    var fa := FileActionsInit(heap, r.initOk);
    if fa != null {
      var added := FileActionsAddDup2(heap, fa, src, dest, r.dup2Ok);
      if added {
        ghost var op := fa.ops[0];
        assert fa.ops == [op];
        if Split(cmd) != [] {
          OneDup2(Split(cmd)[0], Split(cmd), op, src, dest);
        }
        err, pid := SpawnCmdline(host, heap, cmd, fa, r.mallocOk, r.spawn);
        assert Blocks([op]) == {op};
      }
      FileActionsDestroy(heap, fa);
    }
  }

  /** The end of the pair that popen keeps for a mode, if the mode is one. */
  function OpOf(mode: Option<string>): Option<int> {
    if mode.None? || mode.value == "" then None
    else if mode.value[0] == 'r' then Some(0)
    else if mode.value[0] == 'w' then Some(1)
    else None
  }

  const PIPE := SockType(true, false, true)

  /** popen is going to succeed. */
  ghost predicate Opens(s: HostState, cmd: Option<string>, mode: Option<string>, r: PopenReplies) {
    && cmd.Some? && cmd.value != "" && OpOf(mode).Some?
    && Succeeds(s, AF_LOCAL, PIPE, r.pair)
    && r.fdopenOk && AsksForChild(cmd.value, r) && r.spawn.Spawned?
  }

  /** The same in terms of the arguments and of what the host, the C library and the
      heap answer. */
  lemma OpensExactly(s: HostState, cmd: Option<string>, mode: Option<string>, r: PopenReplies)
    ensures Opens(s, cmd, mode, r) <==>
            && cmd.Some? && cmd.value != "" && mode.Some? && mode.value != ""
            && (mode.value[0] == 'r' || mode.value[0] == 'w')
            && r.pair.first.Granted? && r.pair.first.fd >= 0 && r.pair.first.fd !in s.fds
            && r.pair.second.Granted? && r.pair.second.fd >= 0 && r.pair.second.fd !in s.fds
            && r.pair.third.Granted? && r.pair.third.fd >= 0 && r.pair.third.fd !in s.fds
            && r.pair.first.fd != r.pair.second.fd && r.pair.second.fd != r.pair.third.fd
            && r.pair.third.fd != r.pair.first.fd
            && (exists k :: 0 <= k < 100 && r.pair.bindOk(k)) && r.pair.listenOk
            && (r.pair.connectError.None? || r.pair.connectError.value in {EAGAIN, EWOULDBLOCK, EINPROGRESS})
            && (r.pair.client in r.pair.rivals || r.pair.client == s.nextId + 1)
            && r.fdopenOk && r.initOk && r.dup2Ok && r.mallocOk && Split(cmd.value) != [] && r.spawn.Spawned?
  {
    SucceedsExactly(s, AF_LOCAL, PIPE, r.pair);
    hide Succeeds;
  }

  /** The standard descriptor of the child and the stream's descriptor are the two
      ends of one connection. */
  predicate Wired(event: SpawnEvent, s: HostState, childFd: int, streamFd: int) {
    && childFd in event.ChildFds() && streamFd in s.fds
    && var c, p := event.ChildFds()[childFd], s.fds[streamFd];
       c in s.peer && p in s.peer && s.peer[c] == p && s.peer[p] == c
  }

  /** p[i] of the stream pair: the accepted socket, then the client. */
  function EndOf(r: Replies, i: int): int
    requires r.second.Granted? && r.third.Granted?
  {
    if i == 0 then r.third.fd else r.second.fd
  }

  /** Exactly one child was asked for: the command's words, with p[target] of the pair
      as its descriptor `target`.  The stream has the other end, and the two are
      connected exactly when accept picked `own`, the client of the pair. */
  ghost predicate PipeChild(before: seq<SpawnEvent>, after: seq<SpawnEvent>, own: SockId, s: HostState,
                            cmd: string, target: int, streamFd: int, r: PopenReplies) {
    && |after| == |before| + 1 && after[..|before|] == before
    && r.pair.second.Granted? && r.pair.third.Granted?
    && var event := after[|before|];
       && Split(cmd) != []
       && event.request == ChildRequest(Split(cmd), [(EndOf(r.pair, target), target)])
       && streamFd == EndOf(r.pair, 1 - target)
       && (Wired(event, s, target, streamFd) <==> r.pair.client == own)
       && (r.pair.rivals == {} ==> r.pair.client == own)
  }

  /** Which end goes where: for the child's standard output the client, and the stream
      has the accepted socket; for its standard input the other way round. */
  lemma PipeEnds(before: seq<SpawnEvent>, after: seq<SpawnEvent>, own: SockId, s: HostState,
                 cmd: string, target: int, streamFd: int, r: PopenReplies)
    requires PipeChild(before, after, own, s, cmd, target, streamFd, r)
    ensures |after| == |before| + 1 && after[..|before|] == before && Split(cmd) != []
    ensures r.pair.third.Granted? && r.pair.second.Granted?
    ensures target == 1 ==>
              && streamFd == r.pair.third.fd
              && after[|before|].request ==
                 SpawnRequest(Split(cmd)[0], Split(cmd)[1..], |Split(cmd)| - 1, [(r.pair.second.fd, 1)])
    ensures target == 0 ==>
              && streamFd == r.pair.second.fd
              && after[|before|].request ==
                 SpawnRequest(Split(cmd)[0], Split(cmd)[1..], |Split(cmd)| - 1, [(r.pair.third.fd, 0)])
  {
  }

  /** One end of a pair closed, and both ends closed. */
  lemma ClosingPair(s: HostState, t: HostState, a: int, b: int)
    requires PairAdded(s, t, a, b)
    ensures t.fds - {b} == s.fds[a := t.fds[a]] && t.fds - {a} == s.fds[b := t.fds[b]]
    ensures t.fds - {a} - {b} == s.fds == t.fds - {b} - {a}
    ensures forall fds, id :: t.(fds := fds).FlagsOf(id) == t.FlagsOf(id)
    ensures forall fds :: AtLoopback(t.(fds := fds), s.nextId) == AtLoopback(t, s.nextId)
  {
  }

  lemma BothGranted(s: HostState, r: Replies)
    requires Succeeds(s, AF_LOCAL, PIPE, r)
    ensures r.second.Granted? && r.third.Granted?
    ensures r.rivals == {} ==> r.client == s.nextId + 1
  {
  }

  lemma EndsOfPair(s: HostState, t: HostState, a: int, b: int)
    requires PairAdded(s, t, a, b)
    ensures a != b && a !in s.fds && b !in s.fds && a in t.fds && b in t.fds
  {
  }

  lemma ChildIsWired(event: SpawnEvent, s: HostState, keep: int, give: int, target: int)
    requires keep in s.fds && give in s.fds && keep != give
    requires event.fds == s.fds && event.request.actions == [(give, target)]
    ensures Wired(event, s.(fds := s.fds - {give}), target, keep) <==> Paired(s, keep, give)
    ensures Paired(s, keep, give) <==> Paired(s, give, keep)
  {
    assert ApplyDup2(s.fds, [(give, target)][..0]) == s.fds;
  }

  /** The listener, which is the first of the new sockets, was bound to 127.0.0.1. */
  predicate AtLoopback(t: HostState, listener: SockId) {
    && listener in t.bound && t.bound[listener].family == AF_INET
    && t.bound[listener].address == [127, 0, 0, 1]
  }

  lemma LoopbackBound(s: HostState, t: HostState, r: Replies, k: nat)
    requires t.bound == s.bound[s.nextId := BoundAddr(AF_LOCAL, r, k)]
    ensures AtLoopback(t, s.nextId)
  {
    BoundAddrExactly(AF_LOCAL, r, k);
  }

  /** popen with its arguments checked: `op` is the end that is kept. */
  method OpenPipe(host: Host, heap: Heap, cmd: string, op: int, r: PopenReplies) returns (f: File?)
    requires '\0' !in cmd && (op == 0 || op == 1)
    modifies heap, host`st, host`errno, host`spawned
    ensures f != null <==>
              && Succeeds(old(host.st), AF_LOCAL, PIPE, r.pair)
              && r.fdopenOk && AsksForChild(cmd, r) && r.spawn.Spawned?
    ensures f == null ==> host.st.fds == old(host.st).fds && heap.live == old(heap.live)
    ensures f != null ==>
              && fresh(f) && f.pipePid == r.spawn.pid
              && heap.live == old(heap.live) + {f}
              && f.fd !in old(host.st).fds && f.fd in host.st.fds
              && host.st.fds == old(host.st).fds[f.fd := host.st.fds[f.fd]]
    ensures f != null ==>
              PipeChild(old(host.spawned), host.spawned, old(host.st).nextId + 1, host.st, cmd, 1 - op, f.fd, r)
    ensures f != null && r.pair.unblock == r.pair.acceptedMode == r.pair.reblock == FcntlReply(true, true) ==>
              NonBlock !in host.st.FlagsOf(host.st.fds[f.fd])
    ensures f != null ==> AtLoopback(host.st, old(host.st).nextId)
    ensures Succeeds(old(host.st), AF_LOCAL, PIPE, r.pair) && r.fdopenOk && f == null ==>
              host.errno == if AsksForChild(cmd, r) then r.spawn.errno else ENOMEM
  {
    hide Succeeds, PairAdded, Paired, Wired, PortsOk, AtLoopback, BoundAddr, HostState.FlagsOf;
    var p := new int[2];
    var pair := Socketpair(host, AF_LOCAL, PIPE, p, r.pair);
    if pair != 0 {
      return null;
    }
    ghost var t := host.st;
    BothGranted(old(host.st), r.pair);
    LoopbackBound(old(host.st), t, r.pair, |t.portsTried| - |old(host.st).portsTried| - 1);
    var keep, give := p[op], p[1 - op];
    EndsOfPair(old(host.st), t, p[0], p[1]);
    ClosingPair(old(host.st), t, p[0], p[1]);
    f := Fdopen(heap, keep, r.fdopenOk);
    if f == null {
      host.Close(p[0]);
      host.Close(p[1]);
      return null;
    }
    var e, pid := LaunchChild(host, heap, cmd, give, 1 - op, r);
    if e.None? {
      f.pipePid := pid;
      host.Close(give);
      assert AsksForChild(cmd, r) && r.spawn.Spawned?;
      ghost var event := SpawnEvent(ChildRequest(Split(cmd), [(give, 1 - op)]), t.fds);
      assert host.spawned == old(host.spawned) + [event];
      ChildIsWired(event, t, keep, give, 1 - op);
      return f;
    }
    Fclose(host, heap, f);
    host.Close(give);
    host.errno := e.value;
    return null;
  }

  /** popen.  On success exactly one descriptor stays open, the stream's, and exactly
      the stream stays allocated; the host was asked for the words of the command
      with the other end as the child's standard output (mode "r") or input (mode
      "w"), and the two ends are connected exactly when accept picked the pair's own
      client.  On failure nothing stays. */
  method Popen(host: Host, heap: Heap, cmd: Option<string>, mode: Option<string>, r: PopenReplies) returns (f: File?)
    requires cmd.Some? ==> '\0' !in cmd.value
    modifies heap, host`st, host`errno, host`spawned
    ensures f != null <==> Opens(old(host.st), cmd, mode, r)
    ensures f == null ==> host.st.fds == old(host.st).fds && heap.live == old(heap.live)
    ensures f != null ==>
              && fresh(f) && f.pipePid == r.spawn.pid
              && heap.live == old(heap.live) + {f}
              && f.fd !in old(host.st).fds && f.fd in host.st.fds
              && host.st.fds == old(host.st).fds[f.fd := host.st.fds[f.fd]]
    ensures f != null ==>
              PipeChild(old(host.spawned), host.spawned, old(host.st).nextId + 1, host.st,
                        cmd.value, 1 - OpOf(mode).value, f.fd, r)
    ensures f != null ==>
              && mode.value != "" && (mode.value[0] == 'r' || mode.value[0] == 'w')
              && |host.spawned| == |old(host.spawned)| + 1
              && Split(cmd.value) != [] && r.pair.second.Granted? && r.pair.third.Granted?
    ensures f != null && mode.value[0] == 'r' ==>
              && f.fd == r.pair.third.fd
              && host.spawned[|old(host.spawned)|].request ==
                 SpawnRequest(Split(cmd.value)[0], Split(cmd.value)[1..], |Split(cmd.value)| - 1,
                              [(r.pair.second.fd, 1)])
    ensures f != null && mode.value[0] == 'w' ==>
              && f.fd == r.pair.second.fd
              && host.spawned[|old(host.spawned)|].request ==
                 SpawnRequest(Split(cmd.value)[0], Split(cmd.value)[1..], |Split(cmd.value)| - 1,
                              [(r.pair.third.fd, 0)])
    ensures f != null && r.pair.unblock == r.pair.acceptedMode == r.pair.reblock == FcntlReply(true, true) ==>
              NonBlock !in host.st.FlagsOf(host.st.fds[f.fd])
    ensures f != null ==>
              && old(host.st).nextId in host.st.bound
              && host.st.bound[old(host.st).nextId].family == AF_INET
              && host.st.bound[old(host.st).nextId].address == [127, 0, 0, 1]
    ensures cmd.None? || cmd == Some("") || OpOf(mode).None? ==>
              host.errno == EINVAL && host.spawned == old(host.spawned)
    ensures cmd.Some? && cmd.value != "" && OpOf(mode).Some?
            && Succeeds(old(host.st), AF_LOCAL, PIPE, r.pair) && r.fdopenOk && f == null ==>
              host.errno == if AsksForChild(cmd.value, r) then r.spawn.errno else ENOMEM
  {
    hide Succeeds, AsksForChild, PipeChild, HostState.FlagsOf;
    if cmd.None? || mode.None? || cmd.value == "" {
      host.errno := EINVAL;
      return null;
    }
    var op;
    if mode.value != "" && mode.value[0] == 'r' {
      op := 0;
    } else if mode.value != "" && mode.value[0] == 'w' {
      op := 1;
    } else {
      host.errno := EINVAL;
      return null;
    }
    f := OpenPipe(host, heap, cmd.value, op, r);
    if f != null {
      PipeEnds(old(host.spawned), host.spawned, old(host.st).nextId + 1, host.st, cmd.value, 1 - op, f.fd, r);
    }
  }

  // ---------- waiting ----------

  /** The host's answer to one wait: an error, or a pid with, possibly, a status. */
  datatype WaitReply = WaitFailed(errno: Errno) | Waited(pid: int, status: Option<int>)

  /** The exit status the caller of waitpid sees when the host does not write one. */
  const UNWRITTEN := 255

  /** waitpid; `stat` is what `stat_loc` points to, when it is not NULL. */
  method Waitpid(host: Host, pid: int, hasLoc: bool, stat: int, options: int, r: WaitReply)
    returns (ret: int, newStat: int)
    modifies host`errno, host`waited
    ensures !hasLoc ==> ret == -1 && newStat == stat && host.errno == EINVAL && host.waited == old(host.waited)
    ensures hasLoc ==> host.waited == old(host.waited) + [WaitRequest(AsU32(pid), AsU32(options))]
    ensures hasLoc && r.WaitFailed? ==> ret == -1 && newStat == stat && host.errno == r.errno
    ensures hasLoc && r.Waited? ==> ret == r.pid && host.errno == old(host.errno)
    ensures hasLoc && r.Waited? && r.pid <= 0 ==> newStat == stat
    ensures hasLoc && r.Waited? && r.pid > 0 ==> newStat == if r.status.Some? then r.status.value else 255
  {
    if !hasLoc {
      host.errno := EINVAL;
      return -1, stat;
    }
    host.Wait(pid, options);
    if r.WaitFailed? {
      host.errno := r.errno;
      return -1, stat;
    }
    var exitStatus := if r.status.Some? then r.status.value else UNWRITTEN;
    return r.pid, if r.pid > 0 then exitStatus else stat;
  }

  /** What a wait leaves in the status variable. */
  function Status(r: WaitReply, stat: int): int {
    if r.Waited? && r.pid > 0 then (if r.status.Some? then r.status.value else UNWRITTEN) else stat
  }

  /** The k-th answer makes `while (waitpid(...) == -1 && errno == EINTR)` go round
      again, given that all answers before it did.  `errno` is left alone by a
      successful call, so an answer of pid -1 counts when errno was EINTR already. */
  predicate GoesOn(waits: seq<WaitReply>, k: nat, errno: Errno)
    requires k < |waits|
  {
    match waits[k]
    case WaitFailed(e) => e == EINTR
    case Waited(pid, _) => pid == -1 && (k > 0 || errno == EINTR)
  }

  /** The k-th answer is the first that ends the loop. */
  ghost predicate Ends(waits: seq<WaitReply>, k: nat, errno: Errno) {
    && k < |waits| && !GoesOn(waits, k, errno)
    && forall j :: 0 <= j < k ==> GoesOn(waits, j, errno)
  }

  /** Exactly which answers are retried: EINTR, and a pid of -1 that comes without an
      error while EINTR is still in errno. */
  lemma EndsExactly(waits: seq<WaitReply>, k: nat, errno: Errno)
    ensures Ends(waits, k, errno) <==>
            && k < |waits|
            && (forall j :: 0 <= j < k ==>
                  waits[j] == WaitFailed(EINTR)
                  || (waits[j].Waited? && waits[j].pid == -1 && (j > 0 || errno == EINTR)))
            && waits[k] != WaitFailed(EINTR)
            && !(waits[k].Waited? && waits[k].pid == -1 && (k > 0 || errno == EINTR))
  {
    if Ends(waits, k, errno) {
      assert forall j {:trigger waits[j]} :: 0 <= j < k ==> GoesOn(waits, j, errno);
    }
  }

  /** A list of interruptions and then another answer: that one ends the loop. */
  lemma FirstOtherEnds(waits: seq<WaitReply>, k: nat, errno: Errno)
    requires k < |waits| && forall j :: 0 <= j < k ==> waits[j] == WaitFailed(EINTR)
    requires waits[k] != WaitFailed(EINTR) && !(waits[k].Waited? && waits[k].pid == -1)
    ensures Ends(waits, k, errno)
    ensures forall l: nat :: Ends(waits, l, errno) ==> l == k
  {
    EndsExactly(waits, k, errno);
    forall l: nat | Ends(waits, l, errno) ensures l == k {
      EndsExactly(waits, l, errno);
    }
  }

  /** `n` times the request to wait for `pid`, without options. */
  function Requests(pid: int, n: nat): (asked: seq<WaitRequest>)
    ensures |asked| == n && forall i :: 0 <= i < n ==> asked[i] == WaitRequest(AsU32(pid), 0)
  {
    seq(n, _ => WaitRequest(AsU32(pid), 0))
  }

  /** The retry loop of pclose and system: it ends with the first answer that is not
      an interruption, and nothing before that answer leaves a trace.  The host is
      asked for `pid`, and for nothing else, as often as it answers. */
  method WaitUntilDone(host: Host, pid: int, stat: int, waits: seq<WaitReply>, ghost k: nat)
    returns (ret: int, newStat: int)
    requires Ends(waits, k, host.errno)
    modifies host`errno, host`waited
    ensures ret == if waits[k].Waited? then waits[k].pid else -1
    ensures newStat == Status(waits[k], stat)
    ensures host.waited == old(host.waited) + Requests(pid, k + 1)
  {
    var i := 0;
    ret, newStat := Waitpid(host, pid, true, stat, 0, waits[i]);
    while ret == -1 && host.errno == EINTR
      invariant i <= k && (i > 0 || !(waits[0].Waited?) || host.errno == old(host.errno))
      invariant ret == (if waits[i].Waited? then waits[i].pid else -1) && newStat == Status(waits[i], stat)
      invariant waits[i].WaitFailed? ==> host.errno == waits[i].errno
      invariant i > 0 && waits[i].Waited? ==> host.errno == EINTR
      invariant host.waited == old(host.waited) + Requests(pid, i + 1)
      decreases k - i
    {
      i := i + 1;
      ret, newStat := Waitpid(host, pid, true, newStat, 0, waits[i]);
    }
    assert i < k ==> GoesOn(waits, i, old(host.errno));
  }

  /** What pclose makes of the answer that ends the wait: the child's status, 0 when
      the host names no child, or the error. */
  function CloseResult(r: WaitReply): int {
    match r
    case WaitFailed(_) => -1
    case Waited(pid, status) =>
      if pid < 0 then pid else if pid == 0 then 0 else if status.Some? then status.value else UNWRITTEN
  }

  /** pclose: the stream is closed and freed, once, and the host is asked for the
      child of this stream. */
  method Pclose(host: Host, heap: Heap, f: File, waits: seq<WaitReply>, ghost k: nat) returns (ret: int)
    requires f in heap.live && f.fd in host.st.fds
    requires Ends(waits, k, host.errno)
    modifies heap, host`st, host`errno, host`waited
    ensures heap.live == old(heap.live) - {f}
    ensures host.st == old(host.st).(fds := old(host.st).fds - {f.fd})
    ensures ret == CloseResult(waits[k])
    ensures match waits[k]
            case WaitFailed(_) => ret == -1
            case Waited(pid, status) =>
              && (pid < 0 ==> ret == pid)
              && (pid == 0 ==> ret == 0)
              && (pid > 0 ==> ret == if status.Some? then status.value else 255)
    ensures host.waited == old(host.waited) + Requests(f.pipePid, k + 1)
  {
    var pid := f.pipePid;
    Fclose(host, heap, f);
    var r, status := WaitUntilDone(host, pid, 0, waits, k);
    if r < 0 {
      return r;
    }
    return status;
  }

  /** system: no command is a success of sorts; a command that is not found counts as
      exit status 127; otherwise the status of the child that was spawned, or -1.
      Nothing allocated stays, and no descriptor is touched. */
  method System(host: Host, heap: Heap, cmd: Option<string>, mallocOk: bool, spawn: SpawnReply,
                waits: seq<WaitReply>, ghost k: nat) returns (ret: int)
    requires cmd.Some? ==> '\0' !in cmd.value
    requires cmd.Some? && Split(cmd.value) != [] && mallocOk && spawn.Spawned? ==> Ends(waits, k, host.errno)
    modifies heap, host`spawned, host`errno, host`waited
    ensures heap.live == old(heap.live)
    ensures var waits := cmd.Some? && Split(cmd.value) != [] && mallocOk && spawn.Spawned?;
            host.waited == old(host.waited) + if waits then Requests(spawn.pid, k + 1) else []
    ensures if cmd.None? || cmd.value == "" then ret == 1 && host.spawned == old(host.spawned)
            else if !mallocOk || Split(cmd.value) == [] then
              ret == -1 && host.errno == ENOMEM && host.spawned == old(host.spawned)
            else
              && host.spawned == old(host.spawned) + [SpawnEvent(ChildRequest(Split(cmd.value), []), host.st.fds)]
              && match spawn
                 case NotSpawned(e) => if e == ENOENT then ret == 127 else ret == -1 && host.errno == e
                 case Spawned(_) => ret == Status(waits[k], -1)
  {
    if cmd.None? || cmd.value == "" {
      return 1;
    }
    var err, pid := SpawnCmdline(host, heap, cmd.value, null, mallocOk, spawn);
    var exitStatus := -1;
    if err.None? {
      var r;
      r, exitStatus := WaitUntilDone(host, pid, exitStatus, waits, k);
    } else if err.value == ENOENT {
      exitStatus, err := 127, None;
    }
    if err.Some? {
      host.errno := err.value;
      return -1;
    }
    return exitStatus;
  }

  /** A whole run: popen and then pclose leave the descriptor table and the heap as
      they were, whatever happens on the way.  The result is the status of the child
      that was asked for, and no other is waited for; `k(e)` is the answer that ends
      the wait when popen leaves `e` in errno. */
  method PopenThenPclose(host: Host, heap: Heap, cmd: Option<string>, mode: Option<string>, r: PopenReplies,
                         waits: seq<WaitReply>, ghost k: Errno -> nat)
    returns (closed: bool, ret: int, ghost e: Errno)
    requires cmd.Some? ==> '\0' !in cmd.value
    requires Opens(host.st, cmd, mode, r) ==> forall e :: Ends(waits, k(e), e)
    modifies heap, host
    ensures closed <==> Opens(old(host.st), cmd, mode, r)
    ensures host.st.fds == old(host.st).fds && heap.live == old(heap.live)
    ensures closed ==> Ends(waits, k(e), e) && ret == CloseResult(waits[k(e)])
    ensures closed ==> host.waited == old(host.waited) + Requests(r.spawn.pid, k(e) + 1)
    ensures !closed ==> ret == -1 && host.waited == old(host.waited)
  {
    hide Opens, PipeChild, CloseResult, Requests;
    ret := -1;
    var f := Popen(host, heap, cmd, mode, r);
    closed, e := f != null, host.errno;
    if closed {
      assert f !in old(heap.live);
      ret := Pclose(host, heap, f, waits, k(e));
    }
  }
}
