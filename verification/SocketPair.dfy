/** socketpair: two connected sockets made from a listener and a client on the loopback
    interface, with every error exit. */
module SocketPair {
  import opened Wrappers
  import opened SockAddr
  import opened HostSockets

  /** Everything the host answers during one call. */
  datatype Replies = Replies(
    first: NewFd,
    second: NewFd,
    random: nat -> nat,
    bindOk: nat -> bool,
    listenOk: bool,
    rivals: set<SockId>,
    connectError: Option<Errno>,
    third: NewFd,
    client: SockId,
    unblock: FcntlReply,
    acceptedMode: FcntlReply,
    reblock: FcntlReply)

  const ATTEMPTS := 100
  const FIRST_PORT := 49152
  const PORTS := 16284

  function Loopback(domain: int): LocalAddr {
    var family := domain % 0x1_0000;
    LocalAddr(family, 0,
      if family == AF_INET then [127, 0, 0, 1]
      else if family == AF_INET6 then [0, 0, 0, 0, 0, 0, 0, 0, 0, 0, 0, 0, 0, 0, 0, 1]
      else [])
  }

  function AddrLen(family: int): nat {
    if family == AF_INET then SOCKADDR_IN else if family == AF_INET6 then SOCKADDR_IN6 else 0
  }

  /** __socket_set_blocking: only O_NONBLOCK changes, and only if fcntl lets it. */
  method SetBlocking(host: Host, fd: int, blocking: bool, r: FcntlReply)
    requires fd in host.st.fds
    modifies host`st, host`errno
    ensures host.st == AfterSetBlocking(old(host.st), old(host.st).fds[fd], blocking, r)
    ensures var id := host.st.fds[fd];
            && host.st.FlagsOf(id) - {NonBlock} == old(host.st).FlagsOf(id) - {NonBlock}
            && (r.getOk && r.setOk ==> (NonBlock in host.st.FlagsOf(id) <==> !blocking))
  {
    var ok, flags := host.GetFlags(fd, r);
    if !ok {
      return;
    }
    if !blocking {
      host.SetFlags(fd, flags + {NonBlock}, r);
    } else {
      host.SetFlags(fd, flags - {NonBlock}, r);
    }
  }

  function AfterSetBlocking(s: HostState, id: SockId, blocking: bool, r: FcntlReply): HostState {
    if !r.getOk || !r.setOk then s
    else if blocking then s.(flags := s.flags[id := s.FlagsOf(id) - {NonBlock}])
    else s.(flags := s.flags[id := s.FlagsOf(id) + {NonBlock}])
  }

  lemma SetBlockingFacts(s: HostState, id: SockId, blocking: bool, r: FcntlReply)
    ensures var t := AfterSetBlocking(s, id, blocking, r);
            && t.(flags := s.flags) == s
            && (forall other :: other != id ==> t.FlagsOf(other) == s.FlagsOf(other))
            && t.FlagsOf(id) == (if r != FcntlReply(true, true) then s.FlagsOf(id)
                                 else if blocking then s.FlagsOf(id) - {NonBlock} else s.FlagsOf(id) + {NonBlock})
  {
  }

  /** What must hold of the host's answers for a pair to come about once there are
      a listener and a client. */
  ghost predicate AttemptSucceeds(s: HostState, clientId: SockId, domain: int, ty: SockType, r: Replies) {
    var family := domain % 0x1_0000;
    && Accepts(family, AddrLen(family))
    && (exists k :: 0 <= k < ATTEMPTS && r.bindOk(k))
    && (r.connectError.None? || Pending(r.connectError.value))
    && (ty.stream ==> r.listenOk && s.Admits(r.third) && r.client in r.rivals + {clientId})
  }

  /** The port of the k-th attempt to bind. */
  function PortOf(r: Replies, k: nat): (port: nat)
    ensures FIRST_PORT <= port < FIRST_PORT + PORTS
  {
    r.random(k) % PORTS + FIRST_PORT
  }

  /** The address of the k-th attempt. */
  function BoundAddr(domain: int, r: Replies, k: nat): LocalAddr {
    Loopback(domain).(netPort := Htons(PortOf(r, k)))
  }

  /** What the host is asked to bind to: the loopback address of the family, and a port
      made of the k-th random number, most significant byte first. */
  lemma BoundAddrExactly(domain: int, r: Replies, k: nat)
    ensures BoundAddr(domain, r, k).netPort % 256 * 256 + BoundAddr(domain, r, k).netPort / 256
         == 49152 + r.random(k) % 16284
    ensures BoundAddr(domain, r, k).family == domain % 0x1_0000
    ensures domain % 0x1_0000 == AF_INET ==> BoundAddr(domain, r, k).address == [127, 0, 0, 1]
    ensures domain % 0x1_0000 == AF_INET6 ==>
              BoundAddr(domain, r, k).address == [0, 0, 0, 0, 0, 0, 0, 0, 0, 0, 0, 0, 0, 0, 0, 1]
  {
  }

  /** The ports the host was asked for: one for each attempt, and only the last of at
      most a hundred attempts can have worked. */
  predicate PortsOk(before: seq<int>, after: seq<int>, r: Replies) {
    && before <= after && |after| <= |before| + ATTEMPTS
    && (forall k :: 0 <= k < |after| - |before| ==> after[|before| + k] == PortOf(r, k))
    && (forall k :: 0 <= k < |after| - |before| - 1 ==> !r.bindOk(k))
  }

  /** The last attempt worked, and `addr` is its address. */
  predicate LastBound(before: seq<int>, after: seq<int>, domain: int, r: Replies, addr: LocalAddr) {
    var n := |after| - |before|;
    n > 0 && r.bindOk(n - 1) && addr == BoundAddr(domain, r, n - 1)
  }

  /** The bind loop: `bound` tells whether one of the attempts succeeded. */
  method BindSomePort(host: Host, fd: int, domain: int, addrlen: nat, r: Replies)
    returns (bound: bool, laddr: LocalAddr)
    requires fd in host.st.fds
    modifies host`st, host`errno
    ensures bound <==> Accepts(domain % 0x1_0000, addrlen) && exists k :: 0 <= k < 100 && r.bindOk(k)
    ensures laddr.family == domain % 0x1_0000
    ensures bound ==> LastBound(old(host.st).portsTried, host.st.portsTried, domain, r, laddr)
    ensures !bound && Accepts(domain % 0x1_0000, addrlen) ==> |host.st.portsTried| == |old(host.st).portsTried| + 100
    ensures PortsOk(old(host.st).portsTried, host.st.portsTried, r)
    ensures var s := old(host.st).(portsTried := host.st.portsTried);
            host.st == if bound then s.(bound := s.bound[s.fds[fd] := laddr]) else s
  {
    laddr := Loopback(domain);
    ghost var accepted := Accepts(laddr.family, addrlen);
    var i := 0;
    while i < ATTEMPTS
      invariant 0 <= i <= ATTEMPTS && 0 <= laddr.netPort < 0x1_0000
      invariant laddr == Loopback(domain).(netPort := laddr.netPort)
      invariant accepted ==> forall k :: 0 <= k < i ==> !r.bindOk(k)
      invariant PortsOk(old(host.st).portsTried, host.st.portsTried, r)
      invariant |host.st.portsTried| == |old(host.st).portsTried| + if accepted then i else 0
      invariant host.st == old(host.st).(portsTried := host.st.portsTried)
    {
      var randomPort := r.random(i) % PORTS + FIRST_PORT;
      if laddr.family == AF_INET || laddr.family == AF_INET6 {
        NtohsHtons(randomPort);
        laddr := laddr.(netPort := Htons(randomPort));
      }
      var ret := host.Bind(fd, laddr, addrlen, r.bindOk(i));
      if ret == 0 {
        return true, laddr;
      }
      i := i + 1;
    }
    return false, laddr;
  }

  /** One end of the pair does not block exactly when asked for. */
  predicate ModeOk(s: HostState, fd: int, ty: SockType) {
    fd in s.fds && (NonBlock in s.FlagsOf(s.fds[fd]) <==> ty.nonblock)
  }

  /** The fcntl calls all succeed. */
  predicate FcntlWorks(r: Replies) {
    r.unblock == r.acceptedMode == r.reblock == FcntlReply(true, true)
  }

  /** The two ends are each other's peers. */
  predicate Paired(s: HostState, a: int, b: int) {
    && a in s.fds && b in s.fds && s.fds[a] in s.peer && s.fds[b] in s.peer
    && s.peer[s.fds[a]] == s.fds[b] && s.peer[s.fds[b]] == s.fds[a]
  }

  /** The descriptors of a finished pair: for streams the listener is replaced by the
      accepted socket. */
  function FdsAfter(s: HostState, lsock: int, ty: SockType, r: Replies): map<int, SockId>
    requires ty.stream ==> r.third.Granted?
  {
    if ty.stream then s.fds[r.third.fd := s.nextId] - {lsock} else s.fds
  }

  /** The bind loop has bound `lid` to `laddr`, and changed nothing else but the log. */
  predicate Bound(s: HostState, t: HostState, lid: SockId, laddr: LocalAddr) {
    t == s.(portsTried := t.portsTried, bound := s.bound[lid := laddr])
  }

  /** The client `cid` waits at `laddr` (for streams) and is non-blocking, if fcntl allows. */
  predicate Reached(s: HostState, t: HostState, cid: SockId, laddr: LocalAddr, ty: SockType, r: Replies) {
    && t.(waiting := s.waiting) == AfterSetBlocking(s, cid, false, r.unblock)
    && (ty.stream ==> t.waiting == s.waiting[laddr := r.rivals + {cid}])
  }

  /** The pair is complete. */
  predicate Finished(s: HostState, t: HostState, lsock: int, csock: int, ty: SockType, r: Replies)
    requires lsock in s.fds && csock in s.fds && (ty.stream ==> r.third.Granted?)
  {
    var lid, cid := s.fds[lsock], s.fds[csock];
    && t.fds == FdsAfter(s, lsock, ty, r)
    && t.portsTried == s.portsTried && t.bound == s.bound
    && t.FlagsOf(cid) == (if ty.nonblock || r.reblock != FcntlReply(true, true) then s.FlagsOf(cid)
                          else s.FlagsOf(cid) - {NonBlock})
    && (ty.stream ==>
          && (r.acceptedMode == FcntlReply(true, true) ==> (NonBlock in t.FlagsOf(s.nextId) <==> ty.nonblock))
          && t.peer == s.peer[s.nextId := r.client][r.client := s.nextId])
    && (!ty.stream ==> t.FlagsOf(lid) == s.FlagsOf(lid))
  }

  /** The accepted socket in place of the listener, in its blocking mode. */
  function Accepted(s: HostState, lsock: int, ty: SockType, r: Replies): HostState
    requires r.third.Granted?
  {
    var a := s.Opened(r.third).(peer := s.peer[s.nextId := r.client][r.client := s.nextId]);
    AfterSetBlocking(a.(fds := a.fds - {lsock}), s.nextId, !ty.nonblock, r.acceptedMode)
  }

  lemma AcceptedIsFinished(s: HostState, lsock: int, csock: int, ty: SockType, r: Replies)
    requires lsock in s.fds && csock in s.fds && lsock != csock && s.fds[csock] < s.nextId
    requires s.fds[lsock] != s.fds[csock] && (ty.stream ==> s.Admits(r.third))
    ensures var a := if ty.stream then Accepted(s, lsock, ty, r) else s;
            && csock in a.fds && a.fds[csock] == s.fds[csock]
            && Finished(s, if ty.nonblock then a else AfterSetBlocking(a, s.fds[csock], true, r.reblock),
                        lsock, csock, ty, r)
  {
    hide AfterSetBlocking;
    var a := s;
    if ty.stream {
      var n := s.nextId;
      var b := s.Opened(r.third).(peer := s.peer[n := r.client][r.client := n],
                                  fds := s.fds[r.third.fd := n] - {lsock});
      SetBlockingFacts(b, n, !ty.nonblock, r.acceptedMode);
      a := Accepted(s, lsock, ty, r);
      assert a == AfterSetBlocking(b, n, !ty.nonblock, r.acceptedMode);
      assert b.FlagsOf(s.fds[csock]) == s.FlagsOf(s.fds[csock]);
    }
    SetBlockingFacts(a, s.fds[csock], true, r.reblock);
  }

  /** What a caller of the whole attempt can rely on. */
  predicate Attempted(s: HostState, t: HostState, lsock: int, csock: int, laddr: LocalAddr, ty: SockType, r: Replies)
    requires lsock in s.fds && csock in s.fds && (ty.stream ==> r.third.Granted?)
  {
    && t.fds == FdsAfter(s, lsock, ty, r)
    && t.bound == s.bound[s.fds[lsock] := laddr]
    && (FcntlWorks(r) ==> ModeOk(t, csock, ty) && (ty.stream ==> ModeOk(t, r.third.fd, ty)))
    && (!ty.stream ==> t.FlagsOf(s.fds[lsock]) == s.FlagsOf(s.fds[lsock]))
    && (ty.stream ==> (Paired(t, r.third.fd, csock) <==> r.client == s.fds[csock]))
  }

  /** What is left of the start when the client waits at the listener. */
  predicate Reaches(s: HostState, u: HostState, lsock: int, csock: int, laddr: LocalAddr, ty: SockType, r: Replies)
    requires lsock in s.fds && csock in s.fds
  {
    && u.fds == s.fds && u.nextId == s.nextId && u.bound == s.bound[s.fds[lsock] := laddr]
    && (ty.stream ==> (Acceptable(u, lsock, r.third, r.client)
                       <==> s.Admits(r.third) && r.client in r.rivals + {s.fds[csock]}))
    && (FcntlWorks(r) ==> NonBlock in u.FlagsOf(s.fds[csock]))
    && u.FlagsOf(s.fds[lsock]) == s.FlagsOf(s.fds[lsock])
  }

  lemma BoundThenReached(s: HostState, t: HostState, u: HostState, lsock: int, csock: int,
                         laddr: LocalAddr, ty: SockType, r: Replies)
    requires lsock in s.fds && csock in s.fds && s.fds[lsock] != s.fds[csock]
    requires Bound(s, t, s.fds[lsock], laddr) && Reached(t, u, s.fds[csock], laddr, ty, r)
    ensures Reaches(s, u, lsock, csock, laddr, ty, r)
  {
  }

  lemma ReachedThenFinished(s: HostState, u: HostState, v: HostState, lsock: int, csock: int,
                            laddr: LocalAddr, ty: SockType, r: Replies)
    requires lsock in s.fds && csock in s.fds && lsock != csock && s.fds[csock] < s.nextId
    requires Reaches(s, u, lsock, csock, laddr, ty, r)
    requires (ty.stream ==> Acceptable(u, lsock, r.third, r.client)) && Finished(u, v, lsock, csock, ty, r)
    ensures Attempted(s, v, lsock, csock, laddr, ty, r) && v.portsTried == u.portsTried
  {
  }

  /** listen, make the client non-blocking, connect. */
  method Reach(host: Host, lsock: int, csock: int, laddr: LocalAddr, addrlen: nat, ty: SockType, r: Replies)
    returns (reached: bool)
    requires lsock in host.st.fds && csock in host.st.fds
    requires host.st.fds[lsock] in host.st.bound && host.st.bound[host.st.fds[lsock]] == laddr
    requires Accepts(laddr.family, addrlen)
    modifies host`st, host`errno
    ensures reached <==> (ty.stream ==> r.listenOk) && (r.connectError.None? || Pending(r.connectError.value))
    ensures reached ==> Reached(old(host.st), host.st, old(host.st).fds[csock], laddr, ty, r)
    ensures host.st.fds == old(host.st).fds && host.st.portsTried == old(host.st).portsTried
  {
    reached := false;
    if ty.stream {
      var ok := host.Listen(lsock, r.listenOk, r.rivals);
      if ok != 0 {
        return;
      }
    }
    SetBlocking(host, csock, false, r.unblock);
    var connret := host.Connect(csock, laddr, addrlen, r.connectError);
    if connret != 0 {
      var err := host.errno;
      if err != EAGAIN && err != EWOULDBLOCK && err != EINPROGRESS {
        return;
      }
    }
    reached := true;
  }

  /** accept, drop the listener, set the blocking modes, fill the vector. */
  method Finish(host: Host, lsock: int, csock: int, ty: SockType, socketVector: array<int>, r: Replies)
    returns (done: bool)
    requires lsock in host.st.fds && csock in host.st.fds && lsock != csock
    requires host.st.fds[lsock] < host.st.nextId && host.st.fds[csock] < host.st.nextId
    requires host.st.fds[lsock] != host.st.fds[csock] && socketVector.Length == 2
    modifies host`st, host`errno, socketVector
    ensures done <==> (ty.stream ==> Acceptable(old(host.st), lsock, r.third, r.client))
    ensures !done ==> host.st == old(host.st) && socketVector[..] == old(socketVector[..])
    ensures done ==> Finished(old(host.st), host.st, lsock, csock, ty, r)
    ensures done ==> socketVector[..] == [if ty.stream then r.third.fd else lsock, csock]
  {
    done := false;
    if ty.stream {
      var ssock := host.Accept(lsock, r.third, r.client);
      if ssock == -1 {
        return;
      }
      host.Close(lsock);
      SetBlocking(host, ssock, !ty.nonblock, r.acceptedMode);
      socketVector[0], socketVector[1] := ssock, csock;
      assert host.st == Accepted(old(host.st), lsock, ty, r);
    } else {
      socketVector[0], socketVector[1] := lsock, csock;
    }
    AcceptedIsFinished(old(host.st), lsock, csock, ty, r);
    hide Finished, Accepted;
    if !ty.nonblock {
      SetBlocking(host, csock, true, r.reblock);
    }
    done := true;
  }

  /** From the bind on, with the listener and the client open: the body of the
      `do { ... } while (false)` that every failure breaks out of. */
  method Attempt(host: Host, lsock: int, csock: int, domain: int, ty: SockType, socketVector: array<int>, r: Replies)
    returns (done: bool, laddr: LocalAddr)
    requires lsock in host.st.fds && csock in host.st.fds && lsock != csock
    requires host.st.fds[lsock] < host.st.nextId && host.st.fds[csock] < host.st.nextId
    requires host.st.fds[lsock] != host.st.fds[csock] && socketVector.Length == 2
    modifies host`st, host`errno, socketVector
    ensures done <==> AttemptSucceeds(old(host.st), old(host.st).fds[csock], domain, ty, r)
    ensures !done ==> host.st.fds == old(host.st).fds && socketVector[..] == old(socketVector[..])
    ensures done ==> Attempted(old(host.st), host.st, lsock, csock, laddr, ty, r)
    ensures done ==> LastBound(old(host.st).portsTried, host.st.portsTried, domain, r, laddr)
    ensures done ==> socketVector[..] == [if ty.stream then r.third.fd else lsock, csock]
    ensures PortsOk(old(host.st).portsTried, host.st.portsTried, r)
  {
    assert ATTEMPTS == 100 && Loopback(domain).family == domain % 0x1_0000;
    hide Attempted, Reached, Finished, PortsOk, LastBound, BoundAddr, Accepts, AddrLen;
    done := false;
    var addrlen := AddrLen(domain % 0x1_0000);
    var bound;
    bound, laddr := BindSomePort(host, lsock, domain, addrlen, r);
    if bound {
      ghost var t := host.st;
      var reached := Reach(host, lsock, csock, laddr, addrlen, ty, r);
      if reached {
        ghost var u := host.st;
        BoundThenReached(old(host.st), t, u, lsock, csock, laddr, ty, r);
        done := Finish(host, lsock, csock, ty, socketVector, r);
        if done {
          ReachedThenFinished(old(host.st), u, host.st, lsock, csock, laddr, ty, r);
        }
      }
    }
  }

  /** What must hold of the host's answers for socketpair to succeed. */
  ghost predicate Succeeds(s: HostState, domain: int, ty: SockType, r: Replies) {
    && s.Admits(r.first)
    && s.Opened(r.first).Admits(r.second)
    && AttemptSucceeds(s.Opened(r.first).Opened(r.second), s.nextId + 1, domain, ty, r)
  }

  /** The same in terms of the host's answers alone. */
  lemma SucceedsExactly(s: HostState, domain: int, ty: SockType, r: Replies)
    ensures Succeeds(s, domain, ty, r) <==>
            && r.first.Granted? && r.first.fd >= 0 && r.first.fd !in s.fds
            && r.second.Granted? && r.second.fd >= 0 && r.second.fd !in s.fds && r.second.fd != r.first.fd
            && (domain % 0x1_0000 == AF_INET || domain % 0x1_0000 == AF_INET6)
            && (exists k :: 0 <= k < 100 && r.bindOk(k))
            && (r.connectError.None? || r.connectError.value in {EAGAIN, EWOULDBLOCK, EINPROGRESS})
            && (ty.stream ==>
                  && r.listenOk && r.third.Granted? && r.third.fd >= 0 && r.third.fd !in s.fds
                  && r.third.fd != r.first.fd && r.third.fd != r.second.fd
                  && (r.client in r.rivals || r.client == s.nextId + 1))
  {
  }

  /** The descriptor table has gained exactly `a` and `b`, for two new sockets. */
  predicate PairAdded(before: HostState, after: HostState, a: int, b: int) {
    && a != b && a !in before.fds && b !in before.fds && a in after.fds && b in after.fds
    && after.fds == before.fds[a := after.fds[a]][b := after.fds[b]]
    && after.fds[a] != after.fds[b] && after.fds[a] >= before.nextId && after.fds[b] >= before.nextId
  }

  lemma AttemptedIsPair(s: HostState, t: HostState, domain: int, laddr: LocalAddr, ty: SockType, r: Replies)
    requires s.Admits(r.first) && s.Opened(r.first).Admits(r.second)
    requires var o := s.Opened(r.first).Opened(r.second);
             && AttemptSucceeds(o, s.nextId + 1, domain, ty, r)
             && Attempted(o, t, r.first.fd, r.second.fd, laddr, ty, r)
    ensures var a, b := if ty.stream then r.third.fd else r.first.fd, r.second.fd;
            && PairAdded(s, t, a, b) && t.bound == s.bound[s.nextId := laddr]
            && (FcntlWorks(r) ==>
                  && ModeOk(t, b, ty)
                  && (ty.stream || (NonBlock in r.first.flags <==> ty.nonblock) ==> ModeOk(t, a, ty)))
            && (ty.stream ==> (Paired(t, a, b) <==> r.client == s.nextId + 1))
            && (ty.stream && r.rivals == {} ==> r.client == s.nextId + 1)
  {
  }

  /** socketpair.  On success exactly two descriptors are added, those in
      `socketVector`, and they stand for new sockets; the listener is bound to the
      address of the last attempt.  On failure the table of descriptors is what it was.
      Both ends block or not as asked.  They are each other's peers exactly when accept
      picks the pair's own client, which it does when there are no others at the
      chosen port. */
  method Socketpair(host: Host, domain: int, ty: SockType, socketVector: array<int>, r: Replies) returns (ret: int)
    requires socketVector.Length == 2
    modifies host`st, host`errno, socketVector
    ensures ret == if Succeeds(old(host.st), domain, ty, r) then 0 else -1
    ensures ret == -1 ==> host.st.fds == old(host.st).fds && socketVector[..] == old(socketVector[..])
    ensures ret == 0 ==> PairAdded(old(host.st), host.st, socketVector[0], socketVector[1])
    ensures ret == 0 ==>
              var a, b := socketVector[0], socketVector[1];
              && a != b && a !in old(host.st).fds && b !in old(host.st).fds
              && host.st.fds == old(host.st).fds[a := host.st.fds[a]][b := host.st.fds[b]]
    ensures ret == 0 ==> socketVector[..] == [if ty.stream then r.third.fd else r.first.fd, r.second.fd]
    ensures ret == 0 && r.unblock == r.acceptedMode == r.reblock == FcntlReply(true, true) ==>
              && (NonBlock in host.st.FlagsOf(host.st.fds[socketVector[1]]) <==> ty.nonblock)
              && (ty.stream || (NonBlock in r.first.flags <==> ty.nonblock) ==>
                    (NonBlock in host.st.FlagsOf(host.st.fds[socketVector[0]]) <==> ty.nonblock))
    ensures ret == 0 && ty.stream ==>
              (Paired(host.st, socketVector[0], socketVector[1]) <==> r.client == old(host.st).nextId + 1)
    ensures ret == 0 && ty.stream && r.rivals == {} ==> Paired(host.st, socketVector[0], socketVector[1])
    ensures PortsOk(old(host.st).portsTried, host.st.portsTried, r)
    ensures ret == 0 ==>
              var n := |host.st.portsTried| - |old(host.st).portsTried|;
              && 0 < n <= 100 && r.bindOk(n - 1)
              && host.st.bound == old(host.st).bound[old(host.st).nextId := BoundAddr(domain, r, n - 1)]
  {
    hide AttemptSucceeds, Attempted, Paired, HostState.FlagsOf;
    var lsock := host.Socket(r.first);
    var csock := host.Socket(r.second);
    if lsock != -1 && csock != -1 {
      var done, laddr := Attempt(host, lsock, csock, domain, ty, socketVector, r);
      if done {
        AttemptedIsPair(old(host.st), host.st, domain, laddr, ty, r);
        return 0;
      }
    }
    if lsock != -1 {
      host.Close(lsock);
    }
    if csock != -1 {
      host.Close(csock);
    }
    return -1;
  }
}
