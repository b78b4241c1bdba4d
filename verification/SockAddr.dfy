/** The two socket-address converters of socket_api.c, byte by byte.

    `sockaddr_in`, `sockaddr_in6` and `sockaddr_storage` are laid out as in wasi-libc,
    whose headers are not part of the repository; the host's
    `wamr_wasi_sockaddr_storage` is laid out by the C rules from its declaration. */
module SockAddr {
  import opened Machine

  const AF_UNSPEC := 0
  const AF_INET := 1
  const AF_INET6 := 2

  const SOCKADDR_IN := 16
  const SOCKADDR_IN6 := 32
  const SOCKADDR_STORAGE := 48
  const HOST_STORAGE := 64

  /** A 16-bit field in the target's byte order, which is little-endian. */
  function Load16(b: seq<byte>, at: nat): int
    requires at + 2 <= |b|
  {
    var high: int := b[at + 1];
    b[at] + 0x100 * high
  }

  function Family(b: seq<byte>): int
    requires |b| >= 2
  {
    Load16(b, 0)
  }

  /** What __sockaddr_to_wamr_wasi_sockaddr_storage accepts. */
  predicate Accepts(family: int, addrlen: nat) {
    (family == AF_INET && addrlen >= SOCKADDR_IN) || (family == AF_INET6 && addrlen >= SOCKADDR_IN6)
  }

  lemma FamilyBytes(b: seq<byte>)
    requires |b| >= 2
    ensures Family(b) == AF_INET <==> b[0] == 1 && b[1] == 0
    ensures Family(b) == AF_INET6 <==> b[0] == 2 && b[1] == 0
  {
  }

  // ---------- the fields, in both layouts ----------

  /** The contents of an address, whichever layout it is stored in; ports, flow
      information and scope are kept as the bytes in memory. */
  datatype Endpoint =
    | Inet(addr: seq<byte>, port: seq<byte>)
    | Inet6(addr: seq<byte>, port: seq<byte>, flowinfo: seq<byte>, scopeId: seq<byte>)
    | Other

  /** sockaddr_in: port at 2, address at 4.  sockaddr_in6: port at 2, flow information
      at 4, address at 8, scope at 24. */
  function OfSockaddr(b: seq<byte>): Endpoint
    requires |b| >= 2
    requires Family(b) == AF_INET ==> |b| >= SOCKADDR_IN
    requires Family(b) == AF_INET6 ==> |b| >= SOCKADDR_IN6
  {
    if Family(b) == AF_INET then Inet(b[4..8], b[2..4])
    else if Family(b) == AF_INET6 then Inet6(b[8..24], b[2..4], b[4..8], b[24..28])
    else Other
  }

  /** wamr_wasi_sockaddr_storage: the union starts at 4. */
  function OfHost(w: seq<byte>): Endpoint
    requires |w| == HOST_STORAGE
  {
    if Family(w) == AF_INET then Inet(w[4..8], w[8..10])
    else if Family(w) == AF_INET6 then Inet6(w[4..20], w[20..22], w[24..28], w[28..32])
    else Other
  }

  /** memcpy(dst + at, src + from, n). */
  method Copy(dst: array<byte>, at: nat, src: array<byte>, from: nat, n: nat)
    requires dst != src && at + n <= dst.Length && from + n <= src.Length
    modifies dst
    ensures forall i :: 0 <= i < dst.Length ==>
              dst[i] == if at <= i < at + n then src[from + i - at] else old(dst[i])
  {
    forall i | 0 <= i < n {
      dst[at + i] := src[from + i];
    }
  }

  /** __sockaddr_to_wamr_wasi_sockaddr_storage: the family is stored even when the
      address is then refused. */
  method ToHost(addr: array?<byte>, addrlen: nat, w: array<byte>) returns (ok: bool)
    requires w.Length == HOST_STORAGE && addr != w
    requires addr != null ==> 2 <= addr.Length && addrlen <= addr.Length
    modifies w
    ensures ok <==> addr != null && Accepts(Family(addr[..]), addrlen)
    ensures addr == null ==> w[..] == old(w[..])
    ensures addr != null ==> Family(w[..]) == Family(addr[..])
    ensures ok ==> OfHost(w[..]) == OfSockaddr(addr[..])
    ensures ok && Family(addr[..]) == AF_INET ==> w[4..8] == addr[4..8] && w[8..10] == addr[2..4]
    ensures ok && Family(addr[..]) == AF_INET6 ==>
              && w[4..20] == addr[8..24] && w[20..22] == addr[2..4]
              && w[24..28] == addr[4..8] && w[28..32] == addr[24..28]
    ensures addr != null && !ok ==> w[..] == addr[..2] + old(w[2..])
  {
    if addr == null {
      return false;
    }
    Copy(w, 0, addr, 0, 2);
    assert w[..] == addr[..2] + old(w[2..]);
    var family := Family(w[..]);
    if family == AF_INET {
      if addrlen < SOCKADDR_IN {
        return false;
      }
      Copy(w, 4, addr, 4, 4);
      Copy(w, 8, addr, 2, 2);
      return true;
    } else if family == AF_INET6 {
      if addrlen < SOCKADDR_IN6 {
        return false;
      }
      Copy(w, 4, addr, 8, 16);
      Copy(w, 20, addr, 2, 2);
      Copy(w, 24, addr, 4, 4);
      Copy(w, 28, addr, 24, 4);
    } else {
      return false;
    }
    return true;
  }

  /** The size of the structure a known family is stored in. */
  function Size(family: int): nat {
    if family == AF_INET then SOCKADDR_IN else SOCKADDR_IN6
  }

  /** The length handed back with a converted address is the least that is accepted
      with it again: 16 bytes for IPv4, 32 for IPv6. */
  lemma SizeIsLeastAccepted(family: int, n: nat)
    ensures Accepts(family, n) <==> (family == AF_INET && n >= 16) || (family == AF_INET6 && n >= 32)
    ensures family == AF_INET || family == AF_INET6 ==> (Accepts(family, n) <==> n >= Size(family))
  {
  }

  /** The structure __wamr_wasi_sockaddr_storage_to_sockaddr builds on its stack. */
  method Fill(temp: array<byte>, w: array<byte>)
    requires w.Length == HOST_STORAGE && temp.Length == SOCKADDR_STORAGE && temp != w
    requires Family(w[..]) == AF_INET || Family(w[..]) == AF_INET6
    modifies temp
    ensures Family(temp[..]) == Family(w[..]) && OfSockaddr(temp[..]) == OfHost(w[..])
    ensures Family(w[..]) == AF_INET ==> temp[4..8] == w[4..8] && temp[2..4] == w[8..10]
    ensures Family(w[..]) == AF_INET6 ==>
              && temp[8..24] == w[4..20] && temp[2..4] == w[20..22]
              && temp[4..8] == w[24..28] && temp[24..28] == w[28..32]
  {
    if Family(w[..]) == AF_INET {
      Copy(temp, 4, w, 4, 4);
      Copy(temp, 2, w, 8, 2);
    } else {
      Copy(temp, 8, w, 4, 16);
      Copy(temp, 2, w, 20, 2);
      Copy(temp, 4, w, 24, 4);
      Copy(temp, 24, w, 28, 4);
    }
    Copy(temp, 0, w, 0, 2);
    assert Family(temp[..]) == Family(w[..]);
  }

  /** __wamr_wasi_sockaddr_storage_to_sockaddr: `addrlen` goes in and `newlen` comes
      out.  `full` is the structure built on the stack; what its padding holds is
      left open. */
  method FromHost(w: array<byte>, addr: array<byte>, addrlen: nat) returns (newlen: nat, ghost full: seq<byte>)
    requires w.Length == HOST_STORAGE && addrlen <= addr.Length && addr != w
    modifies addr
    ensures var known := Family(w[..]) == AF_INET || Family(w[..]) == AF_INET6;
            if known && addrlen > 0 then
              && newlen == (if addrlen < Size(Family(w[..])) then addrlen else Size(Family(w[..])))
              && |full| == SOCKADDR_STORAGE && Family(full) == Family(w[..]) && OfSockaddr(full) == OfHost(w[..])
              && addr[..] == full[..newlen] + old(addr[newlen..])
            else newlen == addrlen && addr[..] == old(addr[..])
    ensures addrlen > 0 && Family(w[..]) == AF_INET ==>
              |full| == SOCKADDR_STORAGE && full[4..8] == w[4..8] && full[2..4] == w[8..10]
    ensures addrlen > 0 && Family(w[..]) == AF_INET6 ==>
              && |full| == SOCKADDR_STORAGE && full[8..24] == w[4..20] && full[2..4] == w[20..22]
              && full[4..8] == w[24..28] && full[24..28] == w[28..32]
  {
    newlen, full := addrlen, [];
    if addrlen == 0 {
      return;
    }
    var temp := new byte[SOCKADDR_STORAGE];
    var family := Family(w[..]);
    if family == AF_INET {
      if newlen > SOCKADDR_IN {
        newlen := SOCKADDR_IN;
      }
    } else if family == AF_INET6 {
      if newlen > SOCKADDR_IN6 {
        newlen := SOCKADDR_IN6;
      }
    } else {
      return;
    }
    Fill(temp, w);
    full := temp[..];
    hide OfSockaddr, OfHost;
    Copy(addr, 0, temp, 0, newlen);
  }

  /** Round trip: an accepted address, converted to the host's form and back with
      room enough, has the same family, address, port, flow information and scope;
      with less room the caller gets exactly the bytes of such an address that fit.
      The rest of the buffer is left alone, and all of it when the address is refused
      or there is no room at all. */
  method SockaddrRoundTrip(addr: array<byte>, addrlen: nat, w: array<byte>, out: array<byte>, outlen: nat)
    returns (ok: bool, newlen: nat, ghost full: seq<byte>)
    requires w.Length == HOST_STORAGE && addr != w && out != w && out != addr
    requires 2 <= addr.Length && addrlen <= addr.Length && outlen <= out.Length
    modifies w, out
    ensures ok <==> Accepts(Family(addr[..]), addrlen)
    ensures ok && outlen > 0 ==>
              && |full| == SOCKADDR_STORAGE && Family(full) == Family(addr[..])
              && OfSockaddr(full) == OfSockaddr(addr[..])
              && newlen == (if outlen < Size(Family(full)) then outlen else Size(Family(full)))
              && out[..] == full[..newlen] + old(out[newlen..])
    ensures !ok || outlen == 0 ==> newlen == outlen && out[..] == old(out[..])
  {
    newlen, full := outlen, [];
    ok := ToHost(addr, addrlen, w);
    if ok {
      newlen, full := FromHost(w, out, outlen);
    }
  }

  /** The other round trip: an address the host supplies, converted with enough room,
      is accepted again and says the same to the host. */
  method HostRoundTrip(w: array<byte>, addr: array<byte>, back: array<byte>) returns (ok: bool)
    requires w.Length == back.Length == HOST_STORAGE && addr.Length == SOCKADDR_STORAGE
    requires addr != w && addr != back && back != w
    requires Family(w[..]) == AF_INET || Family(w[..]) == AF_INET6
    modifies addr, back
    ensures ok && Family(back[..]) == Family(w[..]) && OfHost(back[..]) == OfHost(w[..])
  {
    var newlen, full := FromHost(w, addr, SOCKADDR_STORAGE);
    assert Size(Family(full)) <= |full| == SOCKADDR_STORAGE;
    PrefixHasFields(full, addr[..]);
    ok := ToHost(addr, newlen, back);
  }

  /** All the fields lie within the size of the structure. */
  lemma PrefixHasFields(full: seq<byte>, b: seq<byte>)
    requires |full| == |b| == SOCKADDR_STORAGE
    requires Family(full) == AF_INET || Family(full) == AF_INET6
    requires b[..Size(Family(full))] == full[..Size(Family(full))]
    ensures Family(b) == Family(full) && OfSockaddr(b) == OfSockaddr(full)
  {
  }
}
