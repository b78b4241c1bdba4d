/** The ancillary-data layout of sys/socket.h: the CMSG_* macros as a writer and a
    reader over memory (sections 5.1 to 5.3 of RFC 3542).

    The target is 32-bit: `long`, `size_t` and pointers take 4 bytes, and every
    expression of the macros is evaluated in 32-bit unsigned arithmetic, which the
    model writes out with Wrap.  Addresses are 32-bit offsets from `msg_control`. */
module Ancillary {
  import opened Wrappers
  import opened Machine

  const HEADER: nat := 12

  /** All of memory, control buffer included; a load does not wrap around. */
  type Memory = nat -> byte

  /** One ancillary object: its level, its type and its data. */
  datatype Message = Message(level: u32, kind: u32, data: seq<byte>)

  /** The 32-bit value of a sum or difference of two 32-bit values. */
  function Wrap(x: int): u32
    requires -WORD < x < 2 * WORD
  {
    if x < 0 then x + WORD else if x < WORD then x else x - WORD
  }

  // ---------- the macros ----------

  /** CMSG_ALIGN(len), which is also __CMSG_LEN of a header whose length is `len`:
      add 3, then clear the two low bits. */
  function CmsgAlign(len: u32): u32 {
    Wrap(len + 3) / 4 * 4
  }

  function CmsgSpace(len: u32): u32 {
    Wrap(CmsgAlign(len) + CmsgAlign(HEADER))
  }

  function CmsgLen(len: u32): u32 {
    Wrap(CmsgAlign(HEADER) + len)
  }

  function FirstHdr(controllen: u32): Option<u32> {
    if controllen >= HEADER then Some(0) else None
  }

  /** CMSG_NXTHDR for a header at `at` whose length field is `len`. */
  function NxtHdr(controllen: u32, at: u32, len: u32): Option<u32> {
    if len < HEADER || Wrap(CmsgAlign(len) + HEADER) >= Wrap(controllen - at) then None
    else Some(Wrap(at + CmsgAlign(len)))
  }

  /** CMSG_DATA: the address just past the header. */
  function CmsgData(at: u32): u32 {
    Wrap(at + HEADER)
  }

  // ---------- reading memory ----------

  /** A 32-bit field, least significant byte first. */
  function Load(mem: Memory, at: nat): u32 {
    mem(at) + 0x100 * mem(at + 1) + 0x1_0000 * mem(at + 2) + 0x100_0000 * mem(at + 3)
  }

  function LenAt(mem: Memory, at: nat): u32 {
    Load(mem, at)
  }

  function Bytes(mem: Memory, at: nat, n: nat): (r: seq<byte>)
    ensures |r| == n
  {
    if n == 0 then [] else Bytes(mem, at, n - 1) + [mem(at + n - 1)]
  }

  /** The length field without the header, cmsg_len - CMSG_LEN(0). */
  function DataLen(len: u32): nat {
    if len < HEADER then 0 else len - HEADER
  }

  /** The object whose header is at `at`, as an application reads it: the data runs
      from CMSG_DATA for as long as the length field says. */
  function MessageAt(mem: Memory, at: u32): Message {
    var len := LenAt(mem, at);
    Message(Load(mem, at + 4), Load(mem, at + 8),
            Bytes(mem, CmsgData(at), DataLen(len)))
  }

  function Next(mem: Memory, controllen: u32, at: u32): Option<u32> {
    NxtHdr(controllen, at, LenAt(mem, at))
  }

  // ---------- walks ----------

  /** `path` is what the loop `for (h = CMSG_FIRSTHDR; h; h = CMSG_NXTHDR(h))` has
      visited so far. */
  ghost predicate Visits(mem: Memory, controllen: u32, path: seq<u32>) {
    && (path != [] ==> FirstHdr(controllen) == Some(path[0]))
    && forall i, j :: 0 <= i < j < |path| && j == i + 1 ==> Next(mem, controllen, path[i]) == Some(path[j])
  }

  /** `path` is the whole walk: the loop has ended. */
  ghost predicate WholeWalk(mem: Memory, controllen: u32, path: seq<u32>) {
    && Visits(mem, controllen, path)
    && (if path == [] then FirstHdr(controllen) == None
        else Next(mem, controllen, path[|path| - 1]) == None)
  }

  function ReadAll(mem: Memory, path: seq<u32>): (r: seq<Message>)
    ensures |r| == |path|
  {
    if path == [] then [] else [MessageAt(mem, path[0])] + ReadAll(mem, path[1..])
  }

  /** The header at `at` lies wholly inside the control buffer. */
  predicate Inside(controllen: u32, at: u32) {
    at + HEADER <= controllen
  }

  /** A length field for which CMSG_NXTHDR cannot wrap around. */
  predicate Tame(len: u32) {
    len <= WORD - 16
  }

  /** One step either ends the walk or moves past this header to one that is inside. */
  predicate GoodStep(controllen: u32, at: u32, len: u32) {
    match NxtHdr(controllen, at, len)
    case None => true
    case Some(next) => at + HEADER <= next && Inside(controllen, next)
  }

  /** A length field that cannot mislead CMSG_NXTHDR: it is at most 2^32 - 16, or it is
      one of the three largest values (rounded up to zero) in the last header. */
  predicate OkLen(controllen: u32, at: u32, len: u32) {
    Tame(len) || (len >= WORD - 3 && controllen - at == HEADER)
  }

  lemma StepIsGoodExactly(controllen: u32, at: u32, len: u32)
    requires Inside(controllen, at)
    ensures GoodStep(controllen, at, len) <==> OkLen(controllen, at, len)
    ensures OkLen(controllen, at, len) <==> len <= 0xFFFF_FFF0 || (len >= 0xFFFF_FFFD && controllen - at == 12)
  {
  }

  /** A step on leaves the whole object, padding included, behind. */
  lemma OkStep(controllen: u32, at: u32, len: u32)
    requires Inside(controllen, at) && OkLen(controllen, at, len) && NxtHdr(controllen, at, len).Some?
    ensures var next := NxtHdr(controllen, at, len).value;
            next == at + (len + 3) / 4 * 4 && at + HEADER <= next && at + len <= next && next + HEADER < controllen
  {
  }

  /** Walk safety: however far the walk has come, if the headers it stepped over could
      not mislead it then every visited header lies inside the buffer, the data of each
      one lies before the next, and headers are at least 12 bytes apart. */
  lemma {:induction false} WalkIsSafe(mem: Memory, controllen: u32, path: seq<u32>)
    requires Visits(mem, controllen, path)
    requires forall i :: 0 <= i < |path| - 1 ==> OkLen(controllen, path[i], LenAt(mem, path[i]))
    ensures forall i :: 0 <= i < |path| ==> HEADER * i <= path[i] && Inside(controllen, path[i])
    ensures forall i, j :: 0 <= i < j < |path| && j == i + 1 ==>
              path[i] + HEADER <= path[j] && path[i] + LenAt(mem, path[i]) <= path[j]
    ensures |path| <= controllen / HEADER
  {
    hide NxtHdr, Load, OkLen;
    if |path| > 1 {
      var n := |path| - 1;
      var before := path[..n];
      assert forall i :: 0 <= i < n ==> before[i] == path[i];
      WalkIsSafe(mem, controllen, before);
      assert Next(mem, controllen, path[n - 1]) == Some(path[n]);
      OkStep(controllen, path[n - 1], LenAt(mem, path[n - 1]));
    }
  }

  /** The loop comes to a header at `at`. */
  ghost predicate Meets(mem: Memory, controllen: u32, at: u32) {
    exists path :: Visits(mem, controllen, path) && at in path
  }

  /** The same for whole walks: every header the loop comes to lies inside the buffer
      and has a good step exactly when none of them has a length that misleads it. */
  lemma WalkIsGoodExactly(mem: Memory, controllen: u32)
    ensures (forall at: u32 :: Meets(mem, controllen, at) ==>
               Inside(controllen, at) && GoodStep(controllen, at, LenAt(mem, at)))
       <==> (forall at: u32 :: Meets(mem, controllen, at) ==> OkLen(controllen, at, LenAt(mem, at)))
  {
    hide GoodStep, OkLen, Load, Visits;
    forall at: u32 | Inside(controllen, at)
      ensures GoodStep(controllen, at, LenAt(mem, at)) <==> OkLen(controllen, at, LenAt(mem, at))
    {
      StepIsGoodExactly(controllen, at, LenAt(mem, at));
    }
    if forall at: u32 :: Meets(mem, controllen, at) ==> OkLen(controllen, at, LenAt(mem, at)) {
      forall at: u32 | Meets(mem, controllen, at) ensures Inside(controllen, at) {
        var path :| Visits(mem, controllen, path) && at in path;
        assert forall i :: 0 <= i < |path| ==> path[i] in path;
        WalkIsSafe(mem, controllen, path);
      }
    }
  }

  /** Termination: if no visit ever meets a header that misleads it, the walk ends. */
  lemma WalkEnds(mem: Memory, controllen: u32) returns (path: seq<u32>)
    requires forall at: u32 :: Meets(mem, controllen, at) ==> OkLen(controllen, at, LenAt(mem, at))
    ensures WholeWalk(mem, controllen, path) && |path| <= controllen / HEADER
  {
    hide OkLen, Load;
    path := [];
    if controllen < HEADER { return; }
    path := [0];
    while Next(mem, controllen, path[|path| - 1]).Some?
      invariant path != [] && Visits(mem, controllen, path)
      decreases controllen - |path|
    {
      path := path + [Next(mem, controllen, path[|path| - 1]).value];
      VisitedAreOk(mem, controllen, path);
      WalkIsSafe(mem, controllen, path);
    }
    VisitedAreOk(mem, controllen, path);
    WalkIsSafe(mem, controllen, path);
  }

  lemma VisitedAreOk(mem: Memory, controllen: u32, path: seq<u32>)
    requires forall at: u32 :: Meets(mem, controllen, at) ==> OkLen(controllen, at, LenAt(mem, at))
    requires Visits(mem, controllen, path)
    ensures forall i :: 0 <= i < |path| ==> OkLen(controllen, path[i], LenAt(mem, path[i]))
  {
    assert forall i :: 0 <= i < |path| ==> path[i] in path;
  }

  /** The walk is a function of memory: there is at most one whole walk. */
  lemma {:induction false} WalkIsUnique(mem: Memory, controllen: u32, p: seq<u32>, q: seq<u32>)
    requires WholeWalk(mem, controllen, p) && WholeWalk(mem, controllen, q)
    ensures p == q
  {
    VisitsAgree(mem, controllen, p, q);
    VisitsAgree(mem, controllen, q, p);
  }

  lemma {:induction false} VisitsAgree(mem: Memory, controllen: u32, p: seq<u32>, q: seq<u32>)
    requires Visits(mem, controllen, p) && WholeWalk(mem, controllen, q)
    ensures p <= q
  {
    if p != [] {
      var n := |p| - 1;
      var before := p[..n];
      VisitsAgree(mem, controllen, before, q);
      if n > 0 {
        assert before[n - 1] == q[n - 1];
        assert Next(mem, controllen, p[n - 1]) == Some(p[n]);
        assert n - 1 < |q| - 1;
      }
    }
  }

  // ---------- the writer ----------

  /** The room a message takes, in unbounded arithmetic. */
  function Room(n: nat): nat {
    HEADER + (n + 3) / 4 * 4
  }

  function TotalRoom(msgs: seq<Message>): nat {
    if msgs == [] then 0 else Room(|msgs[0].data|) + TotalRoom(msgs[1..])
  }

  /** The identity the reader rests on: rounding CMSG_LEN(n) gives CMSG_SPACE(n). */
  lemma AlignedLenIsSpace(n: u32)
    requires Room(n) < WORD
    ensures CmsgLen(n) == HEADER + n && CmsgSpace(n) == Room(n) == CmsgAlign(CmsgLen(n))
  {
  }

  /** Memory holds `m` at `at`, its length field set with CMSG_LEN. */
  ghost predicate HoldsOne(mem: Memory, at: nat, m: Message)
    requires at + Room(|m.data|) < WORD
  {
    && LenAt(mem, at) == HEADER + |m.data|
    && Load(mem, at + 4) == m.level
    && Load(mem, at + 8) == m.kind
    && Bytes(mem, at + HEADER, |m.data|) == m.data
  }

  /** Memory holds `msgs` from `at` on, each CMSG_SPACE after the one before; what
      the padding bytes hold is left open. */
  ghost predicate Holds(mem: Memory, at: nat, msgs: seq<Message>)
    requires at + TotalRoom(msgs) < WORD
    decreases |msgs|
  {
    msgs != [] ==>
      HoldsOne(mem, at, msgs[0]) && Holds(mem, at + Room(|msgs[0].data|), msgs[1..])
  }

  /** What the reader gets back: everything, except that a last object without data
      is missed when it is not also the first. */
  function Readable(msgs: seq<Message>): seq<Message> {
    if |msgs| >= 2 && msgs[|msgs| - 1].data == [] then msgs[..|msgs| - 1] else msgs
  }

  /** The header addresses the walk visits from the first message of `msgs` on. */
  function Path(at: nat, msgs: seq<Message>): seq<u32>
    requires at + TotalRoom(msgs) < WORD
    decreases |msgs|
  {
    if msgs == [] then []
    else if |msgs| == 2 && msgs[1].data == [] then [at]
    else [at] + Path(at + Room(|msgs[0].data|), msgs[1..])
  }

  /** No sum in the macros wraps around: apart from the total, which must fit into
      msg_controllen, this can only happen to a single object that takes up all but
      12 bytes of the address space. */
  predicate FitsTheMacros(msgs: seq<Message>) {
    |msgs| == 1 ==> Room(|msgs[0].data|) + HEADER < WORD
  }

  /** CMSG_NXTHDR from a header of CMSG_LEN(n) with `rest` bytes after its space. */
  lemma StepOver(controllen: u32, at: nat, n: nat, rest: nat)
    requires at + Room(n) + rest == controllen && Room(n) + HEADER < WORD
    ensures NxtHdr(controllen, at, HEADER + n) == if rest <= HEADER then None else Some(at + Room(n))
  {
  }

  lemma RoomOfRest(msgs: seq<Message>)
    ensures TotalRoom(msgs) <= HEADER <==> msgs == [] || (|msgs| == 1 && msgs[0].data == [])
  {
  }

  lemma RoomOfFirst(msgs: seq<Message>)
    requires msgs != []
    ensures if |msgs| == 1 then TotalRoom(msgs) == Room(|msgs[0].data|)
            else Room(|msgs[0].data|) + HEADER <= TotalRoom(msgs)
  {
  }

  lemma MessageReadBack(mem: Memory, at: nat, m: Message)
    requires at + Room(|m.data|) < WORD && HoldsOne(mem, at, m)
    ensures MessageAt(mem, at) == m
  {
  }

  /** CMSG_NXTHDR from the first of the messages that are left. */
  lemma StepFromFirst(mem: Memory, controllen: u32, at: nat, msgs: seq<Message>)
    requires msgs != [] && at + TotalRoom(msgs) == controllen && Room(|msgs[0].data|) + HEADER < WORD
    requires HoldsOne(mem, at, msgs[0])
    ensures Next(mem, controllen, at) ==
            if |msgs| == 1 || (|msgs| == 2 && msgs[1].data == []) then None
            else Some(at + Room(|msgs[0].data|))
  {
    hide Load, NxtHdr, Bytes;
    StepOver(controllen, at, |msgs[0].data|, TotalRoom(msgs[1..]));
    RoomOfRest(msgs[1..]);
  }

  lemma {:induction false} PathIsWalked(mem: Memory, controllen: u32, at: nat, msgs: seq<Message>)
    requires at + TotalRoom(msgs) == controllen && (at >= HEADER || FitsTheMacros(msgs))
    requires Holds(mem, at, msgs)
    ensures var p := Path(at, msgs);
            && (msgs != [] ==> p != [] && p[0] == at && Next(mem, controllen, p[|p| - 1]) == None)
            && (forall i, j :: 0 <= i < j < |p| && j == i + 1 ==> Next(mem, controllen, p[i]) == Some(p[j]))
    decreases |msgs|
  {
    hide Next, HoldsOne;
    if msgs != [] {
      RoomOfFirst(msgs);
      StepFromFirst(mem, controllen, at, msgs);
      if |msgs| > 1 && !(|msgs| == 2 && msgs[1].data == []) {
        var next := at + Room(|msgs[0].data|);
        PathIsWalked(mem, controllen, next, msgs[1..]);
        var rest := Path(next, msgs[1..]);
        assert Path(at, msgs) == [at] + rest;
      }
    }
  }

  lemma ReadableCons(msgs: seq<Message>)
    ensures Readable(msgs) ==
            if msgs == [] then []
            else if |msgs| == 2 && msgs[1].data == [] then [msgs[0]]
            else [msgs[0]] + Readable(msgs[1..])
  {
    if |msgs| > 1 {
      assert msgs[..|msgs| - 1] == [msgs[0]] + msgs[1..][..|msgs| - 2];
    }
  }

  lemma {:induction false} PathIsRead(mem: Memory, at: nat, msgs: seq<Message>)
    requires at + TotalRoom(msgs) < WORD && Holds(mem, at, msgs)
    ensures ReadAll(mem, Path(at, msgs)) == Readable(msgs)
    decreases |msgs|
  {
    hide MessageAt, HoldsOne, Readable;
    ReadableCons(msgs);
    if msgs != [] {
      MessageReadBack(mem, at, msgs[0]);
      if |msgs| == 2 && msgs[1].data == [] {
        assert ReadAll(mem, [at]) == [MessageAt(mem, at)] + ReadAll(mem, []);
      } else {
        var rest := Path(at + Room(|msgs[0].data|), msgs[1..]);
        PathIsRead(mem, at + Room(|msgs[0].data|), msgs[1..]);
        assert ([at] + rest)[1..] == rest;
      }
    }
  }

  /** Round trip: walking a buffer laid out with CMSG_LEN and CMSG_SPACE (the only
      walk, by WalkIsUnique) gives back the messages in order, but loses an empty
      last one that has a predecessor.  So all of them come back exactly when there
      is at most one or the last one carries data: CMSG_NXTHDR compares with `>=`
      where a header that just fits needs `>`. */
  lemma {:induction false} RoundTrip(mem: Memory, msgs: seq<Message>) returns (path: seq<u32>)
    requires TotalRoom(msgs) < WORD && FitsTheMacros(msgs) && Holds(mem, 0, msgs)
    ensures WholeWalk(mem, TotalRoom(msgs), path)
    ensures ReadAll(mem, path) == if |msgs| <= 1 || msgs[|msgs| - 1].data != [] then msgs else msgs[..|msgs| - 1]
    ensures ReadAll(mem, path) == msgs <==> |msgs| <= 1 || msgs[|msgs| - 1].data != []
  {
    hide Next, MessageAt, HoldsOne;
    PathIsWalked(mem, TotalRoom(msgs), 0, msgs);
    PathIsRead(mem, 0, msgs);
    path := Path(0, msgs);
    if msgs == [] {
      assert path == [];
    } else {
      assert TotalRoom(msgs) >= HEADER;
    }
  }

  /** The layouts left out by FitsTheMacros are not walked: from a single object that
      large the macro goes on to the address where the buffer ends. */
  lemma LoneGiantIsLeft(mem: Memory, m: Message)
    requires Room(|m.data|) < WORD <= Room(|m.data|) + HEADER && HoldsOne(mem, 0, m)
    ensures Next(mem, Room(|m.data|), 0) == Some(Room(|m.data|))
  {
    AlignedLenIsSpace(|m.data|);
  }

  // ---------- bytes of the layout ----------

  function Store(v: u32): (r: seq<byte>)
    ensures |r| == 4
  {
    var q1 := v / 0x100;
    var q2 := q1 / 0x100;
    [v % 0x100, q1 % 0x100, q2 % 0x100, q2 / 0x100]
  }

  /** The bytes between the data and the next header. */
  function Padding(n: nat): nat {
    Room(n) - HEADER - n
  }

  /** One message as bytes; `pad` is whatever the padding holds. */
  function Encode(m: Message, pad: seq<byte>): (r: seq<byte>)
    requires Room(|m.data|) < WORD && |pad| == Padding(|m.data|)
    ensures |r| == Room(|m.data|)
  {
    Store(HEADER + |m.data|) + Store(m.level) + Store(m.kind) + m.data + pad
  }

  /** A message of one byte: the length, the level, the type, each least significant
      byte first, and then the data with its padding. */
  lemma OneByteEncoded(p: byte, q: byte, r: byte)
    ensures Encode(Message(0x0102_0304, 5, [6]), [p, q, r])
         == [13, 0, 0, 0, 4, 3, 2, 1, 5, 0, 0, 0, 6, p, q, r]
  {
  }

  function EncodeAll(msgs: seq<Message>, pads: seq<seq<byte>>): (r: seq<byte>)
    requires TotalRoom(msgs) < WORD
    requires |pads| == |msgs| && forall i :: 0 <= i < |msgs| ==> |pads[i]| == Padding(|msgs[i].data|)
    ensures |r| == TotalRoom(msgs)
  {
    if msgs == [] then [] else Encode(msgs[0], pads[0]) + EncodeAll(msgs[1..], pads[1..])
  }

  lemma FourBytes(mem: Memory, at: nat)
    ensures Bytes(mem, at, 4) == [mem(at), mem(at + 1), mem(at + 2), mem(at + 3)]
  {
    assert Bytes(mem, at, 1) == [mem(at)];
    assert Bytes(mem, at, 2) == Bytes(mem, at, 1) + [mem(at + 1)];
    assert Bytes(mem, at, 3) == Bytes(mem, at, 2) + [mem(at + 2)];
    assert Bytes(mem, at, 4) == Bytes(mem, at, 3) + [mem(at + 3)];
  }

  lemma LoadStore(mem: Memory, at: nat, v: u32)
    requires Bytes(mem, at, 4) == Store(v)
    ensures Load(mem, at) == v
  {
    hide Bytes;
    FourBytes(mem, at);
    var b := Bytes(mem, at, 4);
    assert mem(at) == b[0] && mem(at + 1) == b[1] && mem(at + 2) == b[2] && mem(at + 3) == b[3];
    var q1: int, q2: int, b3: int := v / 0x100, v / 0x100 / 0x100, b[3];
    assert v == b[0] + 0x100 * q1 && q1 == b[1] + 0x100 * q2 && q2 == b[2] + 0x100 * b3;
  }

  lemma {:induction false} BytesSplit(mem: Memory, at: nat, k: nat, n: nat)
    requires k <= n
    ensures Bytes(mem, at, n) == Bytes(mem, at, k) + Bytes(mem, at + k, n - k)
  {
    if k < n {
      BytesSplit(mem, at, k, n - 1);
    }
  }

  lemma BytesPart(mem: Memory, at: nat, bytes: seq<byte>, skip: nat, n: nat)
    requires skip + n <= |bytes| && Bytes(mem, at, |bytes|) == bytes
    ensures Bytes(mem, at + skip, n) == bytes[skip..skip + n]
  {
    BytesSplit(mem, at, skip, |bytes|);
    BytesSplit(mem, at + skip, n, |bytes| - skip);
  }

  lemma EncodedOneIsHeld(mem: Memory, at: nat, m: Message, pad: seq<byte>)
    requires at + Room(|m.data|) < WORD && |pad| == Padding(|m.data|)
    requires Bytes(mem, at, Room(|m.data|)) == Encode(m, pad)
    ensures HoldsOne(mem, at, m)
  {
    hide Load, Bytes, Store;
    var n := |m.data|;
    var e := Encode(m, pad);
    assert e[0..4] == Store(HEADER + n) && e[4..8] == Store(m.level) && e[8..HEADER] == Store(m.kind);
    assert e[HEADER..HEADER + n] == m.data;
    BytesPart(mem, at, e, 0, 4);
    BytesPart(mem, at, e, 4, 4);
    BytesPart(mem, at, e, 8, 4);
    BytesPart(mem, at, e, HEADER, n);
    LoadStore(mem, at, HEADER + n);
    LoadStore(mem, at + 4, m.level);
    LoadStore(mem, at + 8, m.kind);
  }

  /** The bytes an application writes are a memory the reader's theorems speak of. */
  lemma {:induction false} EncodedIsHeld(mem: Memory, at: nat, msgs: seq<Message>, pads: seq<seq<byte>>)
    requires at + TotalRoom(msgs) < WORD
    requires |pads| == |msgs| && forall i :: 0 <= i < |msgs| ==> |pads[i]| == Padding(|msgs[i].data|)
    requires Bytes(mem, at, TotalRoom(msgs)) == EncodeAll(msgs, pads)
    ensures Holds(mem, at, msgs)
    decreases |msgs|
  {
    hide Encode, Bytes, HoldsOne;
    if msgs != [] {
      var n := |msgs[0].data|;
      var e, rest := Encode(msgs[0], pads[0]), EncodeAll(msgs[1..], pads[1..]);
      assert EncodeAll(msgs, pads) == e + rest && |e + rest| == TotalRoom(msgs);
      assert (e + rest)[0..Room(n)] == e && (e + rest)[Room(n)..Room(n) + |rest|] == rest;
      BytesPart(mem, at, e + rest, 0, Room(n));
      BytesPart(mem, at, e + rest, Room(n), |rest|);
      assert |rest| == TotalRoom(msgs[1..]) && Bytes(mem, at + Room(n), |rest|) == rest;
      EncodedOneIsHeld(mem, at, msgs[0], pads[0]);
      EncodedIsHeld(mem, at + Room(n), msgs[1..], pads[1..]);
    }
  }
}
