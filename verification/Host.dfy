/** The WebAssembly host as the library sees it: a table of descriptors and the
    sockets behind them.  What the host answers is an argument of each call, so a
    statement about all arguments is a statement about every behaviour of the host. */
module HostSockets {
  import opened Wrappers
  import opened Machine
  import opened SockAddr

  datatype Errno =
    | EINVAL | ENOMEM | EAGAIN | EWOULDBLOCK | EINPROGRESS | ENOENT | EINTR | ENODEV | ENXIO
    | EOther(code: nat)

  /** An open socket; descriptors are names for it. */
  type SockId = nat

  /** O_NONBLOCK and the other file status flags. */
  datatype Flag = NonBlock | OtherFlag(bit: nat)

  /** The `type` argument of socket, as the flags it is made of. */
  datatype SockType = SockType(stream: bool, nonblock: bool, cloexec: bool)

  /** The local address of socketpair: the family, the port in network byte order
      and the address. */
  datatype LocalAddr = LocalAddr(family: int, netPort: int, address: seq<byte>)

  /** A request for a new descriptor is refused, or granted with its initial flags. */
  datatype NewFd = Refused(errno: Errno) | Granted(fd: int, flags: set<Flag>)

  /** The replies to fcntl(F_GETFL) and fcntl(F_SETFL). */
  datatype FcntlReply = FcntlReply(getOk: bool, setOk: bool)

  /** What the host is told about a new process: dup2 actions as (source, target). */
  datatype SpawnRequest = SpawnRequest(command: string, args: seq<string>, argc: nat, actions: seq<(int, int)>)

  datatype SpawnReply = Spawned(pid: int) | NotSpawned(errno: Errno)

  /** What the host is asked to wait for; both arguments are passed as 32-bit values. */
  datatype WaitRequest = WaitRequest(pid: u32, options: u32)

  /** The 32-bit unsigned value of an int. */
  function AsU32(x: int): (r: u32)
    ensures -0x8000_0000 <= x < 0x8000_0000 ==> r == if x < 0 then x + 0x1_0000_0000 else x
  {
    x % WORD
  }

  /** A request and the descriptor table it is applied to. */
  datatype SpawnEvent = SpawnEvent(request: SpawnRequest, fds: map<int, SockId>) {
    /** The descriptors of the new process. */
    function ChildFds(): map<int, SockId> {
      ApplyDup2(fds, request.actions)
    }
  }

  /** dup2 actions carried out in order; a source that is not open changes nothing. */
  function ApplyDup2(fds: map<int, SockId>, actions: seq<(int, int)>): map<int, SockId> {
    if actions == [] then fds
    else
      var n := |actions| - 1;
      var t := ApplyDup2(fds, actions[..n]);
      if actions[n].0 in t then t[actions[n].1 := t[actions[n].0]] else t
  }

  datatype HostState = HostState(
    fds: map<int, SockId>,
    flags: map<SockId, set<Flag>>,
    bound: map<SockId, LocalAddr>,
    waiting: map<LocalAddr, set<SockId>>,  // clients waiting at a listening address
    peer: map<SockId, SockId>,
    portsTried: seq<int>,                  // every port the host was asked to bind
    nextId: SockId)
  {
    /** The file status flags of a socket. */
    function FlagsOf(id: SockId): set<Flag> {
      if id in flags then flags[id] else {}
    }

    /** The host hands out only descriptors that are not in use. */
    predicate Admits(r: NewFd) {
      r.Granted? && r.fd >= 0 && r.fd !in fds
    }

    /** A new socket under a new descriptor. */
    function Opened(r: NewFd): HostState
      requires r.Granted?
    {
      this.(fds := fds[r.fd := nextId], flags := flags[nextId := r.flags], nextId := nextId + 1)
    }
  }

  function Htons(port: int): (r: int)
    requires 0 <= port < 0x1_0000
    ensures r / 0x100 == port % 0x100 && r % 0x100 == port / 0x100
  {
    port % 0x100 * 0x100 + port / 0x100
  }

  function Ntohs(netPort: int): (r: int)
    requires 0 <= netPort < 0x1_0000
    ensures r / 0x100 == netPort % 0x100 && r % 0x100 == netPort / 0x100
  {
    netPort % 0x100 * 0x100 + netPort / 0x100
  }

  lemma NtohsHtons(port: int)
    requires 0 <= port < 0x1_0000
    ensures 0 <= Htons(port) < 0x1_0000 && Ntohs(Htons(port)) == port
  {
  }

  class Host {
    var st: HostState
    var errno: Errno
    ghost var spawned: seq<SpawnEvent>  // every spawn request, in order
    ghost var waited: seq<WaitRequest>  // every wait request, in order

    constructor (st: HostState, errno: Errno)
      ensures this.st == st && this.errno == errno && spawned == [] && waited == []
    {
      this.st, this.errno, spawned, waited := st, errno, [], [];
    }

    /** The spawn system call: the host sees the request, together with the descriptors
        open at that moment, and grants or refuses it. */
    method Spawn(ghost request: SpawnRequest, r: SpawnReply)
      modifies `spawned
      ensures spawned == old(spawned) + [SpawnEvent(request, st.fds)]
    {
      spawned := spawned + [SpawnEvent(request, st.fds)];
    }

    /** The wait system call. */
    method Wait(pid: int, options: int)
      modifies `waited
      ensures waited == old(waited) + [WaitRequest(AsU32(pid), AsU32(options))]
    {
      waited := waited + [WaitRequest(AsU32(pid), AsU32(options))];
    }

    /** socket. */
    method Socket(r: NewFd) returns (fd: int)
      modifies `st, `errno
      ensures if old(st).Admits(r) then fd == r.fd && st == old(st).Opened(r) && errno == old(errno)
              else fd == -1 && st == old(st)
    {
      if st.Admits(r) {
        st := st.Opened(r);
        return r.fd;
      }
      errno := if r.Refused? then r.errno else EOther(0);
      return -1;
    }

    /** close: the descriptor must be open. */
    method Close(fd: int)
      requires fd in st.fds
      modifies `st
      ensures st == old(st).(fds := old(st).fds - {fd})
    {
      st := st.(fds := st.fds - {fd});
    }

    /** bind: an address that cannot be converted for the host is refused before the
        host is asked. */
    method Bind(fd: int, addr: LocalAddr, addrlen: nat, ok: bool) returns (ret: int)
      requires fd in st.fds && 0 <= addr.netPort < 0x1_0000
      modifies `st, `errno
      ensures ret == if Accepts(addr.family, addrlen) && ok then 0 else -1
      ensures if !Accepts(addr.family, addrlen) then st == old(st)
              else
                var s := old(st).(portsTried := old(st).portsTried + [Ntohs(addr.netPort)]);
                st == if ok then s.(bound := s.bound[s.fds[fd] := addr]) else s
    {
      if !Accepts(addr.family, addrlen) {
        errno := EINVAL;
        return -1;
      }
      st := st.(portsTried := st.portsTried + [Ntohs(addr.netPort)]);
      if !ok {
        errno := EOther(0);
        return -1;
      }
      st := st.(bound := st.bound[st.fds[fd] := addr]);
      return 0;
    }

    /** listen: `rivals` are the clients other than ours that are going to connect. */
    method Listen(fd: int, ok: bool, rivals: set<SockId>) returns (ret: int)
      requires fd in st.fds && st.fds[fd] in st.bound
      modifies `st, `errno
      ensures ret == if ok then 0 else -1
      ensures var s := old(st);
              st == if ok then s.(waiting := s.waiting[s.bound[s.fds[fd]] := rivals]) else s
    {
      if !ok {
        errno := EOther(0);
        return -1;
      }
      st := st.(waiting := st.waiting[st.bound[st.fds[fd]] := rivals]);
      return 0;
    }

    /** connect: also when it goes on in the background the client is then waiting
        at the address, if somebody listens there. */
    method Connect(fd: int, addr: LocalAddr, addrlen: nat, error: Option<Errno>) returns (ret: int)
      requires fd in st.fds
      modifies `st, `errno
      ensures var refused := !Accepts(addr.family, addrlen) || error.Some?;
              && ret == (if refused then -1 else 0)
              && (refused ==> errno == if Accepts(addr.family, addrlen) then error.value else EINVAL)
      ensures st == if addr in old(st).waiting && Accepts(addr.family, addrlen) && (error.None? || Pending(error.value))
                    then old(st).(waiting := old(st).waiting[addr := old(st).waiting[addr] + {old(st).fds[fd]}])
                    else old(st)
    {
      if !Accepts(addr.family, addrlen) {
        errno := EINVAL;
        return -1;
      }
      if addr in st.waiting && (error.None? || Pending(error.value)) {
        st := st.(waiting := st.waiting[addr := st.waiting[addr] + {st.fds[fd]}]);
      }
      if error.Some? {
        errno := error.value;
        return -1;
      }
      return 0;
    }

    /** accept: one of the clients waiting at the listener's address is picked. */
    method Accept(fd: int, r: NewFd, client: SockId) returns (newFd: int)
      requires fd in st.fds
      modifies `st, `errno
      ensures if Acceptable(old(st), fd, r, client)
              then newFd == r.fd &&
                st == old(st).Opened(r).(peer := old(st).peer[old(st).nextId := client][client := old(st).nextId])
              else newFd == -1 && st == old(st)
    {
      if !Acceptable(st, fd, r, client) {
        errno := if r.Refused? then r.errno else EOther(0);
        return -1;
      }
      st := st.Opened(r).(peer := st.peer[st.nextId := client][client := st.nextId]);
      return r.fd;
    }

    /** fcntl(fd, F_GETFL, 0). */
    method GetFlags(fd: int, r: FcntlReply) returns (ok: bool, flags: set<Flag>)
      requires fd in st.fds
      ensures ok == r.getOk && flags == st.FlagsOf(st.fds[fd])
    {
      return r.getOk, st.FlagsOf(st.fds[fd]);
    }

    /** fcntl(fd, F_SETFL, flags). */
    method SetFlags(fd: int, flags: set<Flag>, r: FcntlReply)
      requires fd in st.fds
      modifies `st, `errno
      ensures st == if r.setOk then old(st).(flags := old(st).flags[old(st).fds[fd] := flags]) else old(st)
    {
      if r.setOk {
        st := st.(flags := st.flags[st.fds[fd] := flags]);
      } else {
        errno := EOther(0);
      }
    }
  }

  /** The errors after which socketpair takes the connection to be under way. */
  predicate Pending(e: Errno) {
    e == EAGAIN || e == EWOULDBLOCK || e == EINPROGRESS
  }

  /** accept succeeds with a new descriptor for a client that is waiting. */
  predicate Acceptable(s: HostState, fd: int, r: NewFd, client: SockId)
    requires fd in s.fds
  {
    && s.Admits(r)
    && s.fds[fd] in s.bound && s.bound[s.fds[fd]] in s.waiting
    && client in s.waiting[s.bound[s.fds[fd]]]
  }
}
