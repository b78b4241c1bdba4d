/** The host's table of network interfaces and the views the library gives of it:
    if_nametoindex, if_indextoname, if_nameindex and getifaddrs, with their release
    functions. */
module Interfaces {
  import opened Wrappers
  import opened Machine
  import opened SockAddr
  import opened CMemory
  import opened HostSockets

  const NAME_BUF := 32      // WAMR_IF_NAME_MAX_LEN
  const IF_NAMESIZE := 16

  datatype RawRow = RawRow(
    name: seq<char>, flags: int, index: nat,
    addr: seq<byte>, netmask: seq<byte>, broadaddr: seq<byte>, hwaddr: seq<byte>)
  {
    predicate Ok() {
      && |name| == NAME_BUF && '\0' in name
      && |addr| == |netmask| == |broadaddr| == HOST_STORAGE
    }

    function Name(): string {
      CString(name)
    }
  }

  /** struct wamr_wasi_ifaddr; the host terminates the name. */
  type Row = r: RawRow | r.Ok()
    witness RawRow(['\0'] + seq(NAME_BUF - 1, _ => '\0'), 0, 0, seq(HOST_STORAGE, _ => 0), seq(HOST_STORAGE, _ => 0),
                   seq(HOST_STORAGE, _ => 0), [])

  /** The host's answer to a request for the table; whether it allocates a block for
      an empty table is up to it. */
  datatype TableReply = TableError(errno: Errno) | Table(rows: seq<Row>, blockWhenEmpty: bool)

  /** An entry of the list if_nameindex makes. */
  datatype Entry = Entry(index: nat, name: string)

  // ---------- what the four views are ----------

  /** No earlier row has the same index. */
  predicate IsFirst(rows: seq<Row>, i: nat)
    requires i < |rows|
  {
    forall j :: 0 <= j < i ==> rows[j].index != rows[i].index
  }

  predicate HasIndex(list: seq<Entry>, index: nat) {
    exists k :: 0 <= k < |list| && list[k].index == index
  }

  /** The loop of if_nameindex: a row is added unless its index is there already. */
  function Listed(rows: seq<Row>): seq<Entry> {
    if rows == [] then []
    else
      var front, last := Listed(rows[..|rows| - 1]), rows[|rows| - 1];
      if HasIndex(front, last.index) then front else front + [Entry(last.index, last.Name())]
  }

  function Truncated(name: string): (cut: string)
    ensures cut <= name && |cut| == if |name| < 16 then |name| else 15
  {
    if |name| < IF_NAMESIZE then name else name[..IF_NAMESIZE - 1]
  }

  /** The first row at `from` or later with this index, |rows| when there is none. */
  function FindIndex(rows: seq<Row>, index: nat, from: nat): (i: nat)
    requires from <= |rows|
    ensures from <= i <= |rows|
    ensures i < |rows| ==> rows[i].index == index
    ensures forall j :: from <= j < i ==> rows[j].index != index
    decreases |rows| - from
  {
    if from == |rows| || rows[from].index == index then from else FindIndex(rows, index, from + 1)
  }

  function FindName(rows: seq<Row>, name: string, from: nat): (i: nat)
    requires from <= |rows|
    ensures from <= i <= |rows|
    ensures i < |rows| ==> rows[i].Name() == name
    ensures forall j :: from <= j < i ==> rows[j].Name() != name
    decreases |rows| - from
  {
    if from == |rows| || rows[from].Name() == name then from else FindName(rows, name, from + 1)
  }

  function IndexToName(rows: seq<Row>, index: nat): Option<string> {
    var i := FindIndex(rows, index, 0);
    if i < |rows| then Some(Truncated(rows[i].Name())) else None
  }

  function NameToIndex(rows: seq<Row>, name: string): nat {
    var i := FindName(rows, name, 0);
    if i < |rows| then rows[i].index else 0
  }

  // ---------- the views agree ----------

  /** The rows that are the first with their index, in table order. */
  function FirstRows(rows: seq<Row>): seq<nat> {
    if rows == [] then []
    else
      var n := |rows| - 1;
      if IsFirst(rows, n) then FirstRows(rows[..n]) + [n] else FirstRows(rows[..n])
  }

  lemma {:induction false} FirstRowsExactly(rows: seq<Row>)
    ensures forall k :: 0 <= k < |FirstRows(rows)| ==> FirstRows(rows)[k] < |rows|
    ensures forall k, l :: 0 <= k < l < |FirstRows(rows)| ==> FirstRows(rows)[k] < FirstRows(rows)[l]
    ensures forall i :: 0 <= i < |rows| ==> (i in FirstRows(rows) <==> IsFirst(rows, i))
  {
    if rows != [] {
      var n := |rows| - 1;
      var front := rows[..n];
      FirstRowsExactly(front);
      forall i | 0 <= i < n ensures IsFirst(rows, i) <==> IsFirst(front, i) {
        assert forall j :: 0 <= j <= i ==> rows[j] == front[j];
      }
      hide IsFirst;
      assert forall k :: 0 <= k < |FirstRows(front)| ==> FirstRows(front)[k] != n;
    }
  }

  /** if_nameindex lists exactly the rows that are the first with their index, in
      table order and under those rows' names. */
  lemma {:induction false} ListedIsFirstRows(rows: seq<Row>)
    ensures |Listed(rows)| == |FirstRows(rows)|
    ensures forall k :: 0 <= k < |FirstRows(rows)| ==>
              && FirstRows(rows)[k] < |rows|
              && Listed(rows)[k] == Entry(rows[FirstRows(rows)[k]].index, rows[FirstRows(rows)[k]].Name())
  {
    if rows != [] {
      ListedIsFirstRows(rows[..|rows| - 1]);
      LastIsFirst(rows);
      hide IsFirst, HasIndex, RawRow.Name;
    }
  }

  /** The last row is the first with its index exactly when the list does not have it. */
  lemma LastIsFirst(rows: seq<Row>)
    requires rows != []
    requires var front := rows[..|rows| - 1];
             && |Listed(front)| == |FirstRows(front)|
             && forall k :: 0 <= k < |FirstRows(front)| ==>
                  FirstRows(front)[k] < |front| && Listed(front)[k].index == front[FirstRows(front)[k]].index
    ensures IsFirst(rows, |rows| - 1) <==> !HasIndex(Listed(rows[..|rows| - 1]), rows[|rows| - 1].index)
  {
    var n := |rows| - 1;
    var front, list, pos := rows[..n], Listed(rows[..n]), FirstRows(rows[..n]);
    if HasIndex(list, rows[n].index) {
      var k :| 0 <= k < |list| && list[k].index == rows[n].index;
      assert rows[pos[k]].index == rows[n].index;
    } else {
      FirstRowsExactly(front);
      forall j | 0 <= j < n ensures rows[j].index != rows[n].index {
        FirstRowExists(front, j);
        var f := FindIndex(front, front[j].index, 0);
        assert f in pos;
        var k :| 0 <= k < |pos| && pos[k] == f;
        assert list[k].index == rows[j].index;
      }
    }
  }

  lemma FirstRowExists(rows: seq<Row>, j: nat)
    requires j < |rows|
    ensures var f := FindIndex(rows, rows[j].index, 0);
            f <= j && IsFirst(rows, f) && rows[f].index == rows[j].index
  {
  }

  /** if_indextoname answers exactly the listed indices, with the listed names cut to
      IF_NAMESIZE - 1 characters. */
  lemma IndexToNameIsListed(rows: seq<Row>, index: nat)
    ensures IndexToName(rows, index).Some? <==> HasIndex(Listed(rows), index)
    ensures forall k :: 0 <= k < |Listed(rows)| && Listed(rows)[k].index == index ==>
              IndexToName(rows, index) == Some(Truncated(Listed(rows)[k].name))
  {
    ListedIsFirstRows(rows);
    FirstRowsExactly(rows);
    var pos, i := FirstRows(rows), FindIndex(rows, index, 0);
    if i < |rows| {
      assert IsFirst(rows, i) && i in pos;
      var k :| 0 <= k < |pos| && pos[k] == i;
      assert Listed(rows)[k].index == index;
    }
    forall k | 0 <= k < |Listed(rows)| && Listed(rows)[k].index == index
      ensures pos[k] == i
    {
      assert rows[pos[k]].index == index && pos[k] in pos && IsFirst(rows, pos[k]);
    }
  }

  /** The list in terms of the table alone: `pos` are the rows whose index no earlier
      row has. */
  lemma ListedExactly(rows: seq<Row>) returns (pos: seq<nat>)
    ensures forall k, l :: 0 <= k < l < |pos| ==> pos[k] < pos[l]
    ensures forall k :: 0 <= k < |pos| ==> pos[k] < |rows|
    ensures forall i :: 0 <= i < |rows| ==>
              (i in pos <==> forall j :: 0 <= j < i ==> rows[j].index != rows[i].index)
    ensures |Listed(rows)| == |pos|
    ensures forall k :: 0 <= k < |pos| ==>
              Listed(rows)[k] == Entry(rows[pos[k]].index, CString(rows[pos[k]].name))
  {
    pos := FirstRows(rows);
    FirstRowsExactly(rows);
    ListedIsFirstRows(rows);
    assert forall i :: 0 <= i < |rows| ==>
             (IsFirst(rows, i) <==> forall j :: 0 <= j < i ==> rows[j].index != rows[i].index);
    hide IsFirst, Listed, FirstRows;
  }

  /** if_nametoindex in terms of the table alone: the first row with the name, 0 for a
      name no row has. */
  lemma NameToIndexExactly(rows: seq<Row>, name: string)
    ensures (forall i :: 0 <= i < |rows| ==> CString(rows[i].name) != name) ==> NameToIndex(rows, name) == 0
    ensures forall i ::
              (0 <= i < |rows| && CString(rows[i].name) == name
               && forall j :: 0 <= j < i ==> CString(rows[j].name) != name)
                ==> NameToIndex(rows, name) == rows[i].index
  {
    assert forall i :: 0 <= i < |rows| ==> rows[i].Name() == CString(rows[i].name);
  }

  /** if_indextoname in terms of the table alone. */
  lemma IndexToNameExactly(rows: seq<Row>, index: nat)
    ensures (forall i :: 0 <= i < |rows| ==> rows[i].index != index) ==> IndexToName(rows, index) == None
    ensures forall i ::
              (0 <= i < |rows| && rows[i].index == index && forall j :: 0 <= j < i ==> rows[j].index != index)
                ==> IndexToName(rows, index) == Some(Truncated(CString(rows[i].name)))
  {
  }

  /** Names and indices determine each other. */
  ghost predicate OneToOne(rows: seq<Row>) {
    forall i, j :: 0 <= i < |rows| && 0 <= j < |rows| ==>
      (rows[i].index == rows[j].index <==> rows[i].Name() == rows[j].Name())
  }

  /** Section 4 of RFC 3493: mapping an index to its name and back.  On a one-to-one
      table this gives the index again exactly when the name was not cut. */
  lemma IndexRoundTripExactly(rows: seq<Row>, index: nat)
    requires OneToOne(rows) && index != 0 && HasIndex(Listed(rows), index)
    ensures var i := FindIndex(rows, index, 0);
            && i < |rows|
            && (NameToIndex(rows, IndexToName(rows, index).value) == index <==> |rows[i].Name()| < IF_NAMESIZE)
  {
    IndexToNameIsListed(rows, index);
    var i := FindIndex(rows, index, 0);
    var f := FindName(rows, Truncated(rows[i].Name()), 0);
    if |rows[i].Name()| < IF_NAMESIZE {
      assert f <= i;
    } else if f < |rows| {
      assert rows[f].Name() != rows[i].Name();
    }
  }

  /** And the other way: a name that is in the table with a nonzero index comes back,
      cut to size. */
  lemma NameRoundTrip(rows: seq<Row>, i: nat)
    requires OneToOne(rows) && i < |rows| && rows[i].index != 0
    ensures IndexToName(rows, NameToIndex(rows, rows[i].Name())) == Some(Truncated(rows[i].Name()))
  {
  }

  // ---------- the operations ----------

  /** The system call: the host allocates the table on the guest's heap. */
  method GetTable(heap: Heap, reply: TableReply) returns (err: Option<Errno>, block: array?<Row>)
    modifies heap
    ensures err == (if reply.TableError? then Some(reply.errno) else None)
    ensures block != null <==> reply.Table? && (reply.rows != [] || reply.blockWhenEmpty)
    ensures block != null ==>
              && fresh(block) && block[..] == reply.rows
              && block !in old(heap.live) && heap.live == old(heap.live) + {block}
    ensures block == null ==> heap.live == old(heap.live)
  {
    match reply {
      case TableError(e) => return Some(e), null;
      case Table(rows, blockWhenEmpty) =>
        if rows == [] && !blockWhenEmpty {
          return None, null;
        }
        block := new Row[|rows|](i requires 0 <= i < |rows| => rows[i]);
        heap.Register(block);
        return None, block;
    }
  }

  /** if_nametoindex.  The early exits for an empty table forget the block, if the host
      made one: here and below, the heap is as before exactly when it did not. */
  method IfNametoindex(host: Host, heap: Heap, ifname: string, reply: TableReply) returns (idx: nat)
    modifies heap, host`errno
    ensures idx == if reply.Table? then NameToIndex(reply.rows, ifname) else 0
    ensures idx == 0 ==> host.errno == if reply.TableError? then reply.errno else ENODEV
    ensures heap.live == old(heap.live) <==> reply != Table([], true)
  {
    var err, block := GetTable(heap, reply);
    if err.Some? {
      host.errno := err.value;
      return 0;
    }
    if block == null || block.Length == 0 {
      host.errno := ENODEV;
      return 0;
    }
    idx := 0;
    var i := 0;
    while i < block.Length
      invariant i <= block.Length && idx == 0
      invariant FindName(block[..], ifname, 0) == FindName(block[..], ifname, i)
    {
      if CString(block[i].name) == ifname {
        idx := block[i].index;
        break;
      }
      i := i + 1;
    }
    heap.Free(block);
    if idx == 0 {
      host.errno := ENODEV;
    }
  }

  /** snprintf(buf, IF_NAMESIZE, "%s", name). */
  method CopyName(buf: array<char>, name: seq<char>)
    requires buf.Length >= IF_NAMESIZE && '\0' in name
    modifies buf
    ensures CString(buf[..]) == Truncated(CString(name))
  {
    CStringIsPrefix(name);
    ghost var full, text := CString(name), Truncated(CString(name));
    assert forall k :: 0 <= k < |full| ==> name[k] == full[k] && full[k] != '\0';
    hide CString;
    var n := 0;
    while n < IF_NAMESIZE - 1 && name[n] != '\0'
      invariant n <= |text| && buf[..n] == text[..n]
    {
      buf[n] := name[n];
      n := n + 1;
    }
    buf[n] := '\0';
    CStringEnds(text, buf[n + 1..]);
    assert buf[..] == text + ['\0'] + buf[n + 1..];
  }

  /** if_indextoname: the result tells whether `buf` was filled in. */
  method IfIndextoname(host: Host, heap: Heap, index: nat, buf: array<char>, reply: TableReply) returns (found: bool)
    requires buf.Length >= IF_NAMESIZE
    modifies heap, host`errno, buf
    ensures found <==> reply.Table? && IndexToName(reply.rows, index).Some?
    ensures found ==> CString(buf[..]) == IndexToName(reply.rows, index).value
    ensures !found ==> buf[..] == old(buf[..]) && host.errno == if reply.TableError? then reply.errno else ENXIO
    ensures heap.live == old(heap.live) <==> reply != Table([], true)
  {
    var err, block := GetTable(heap, reply);
    if err.Some? {
      host.errno := err.value;
      return false;
    }
    if block == null || block.Length == 0 {
      host.errno := ENXIO;
      return false;
    }
    found := false;
    var i := 0;
    while i < block.Length
      invariant i <= block.Length && !found && buf[..] == old(buf[..]) && block[..] == reply.rows
      invariant FindIndex(reply.rows, index, 0) == FindIndex(reply.rows, index, i)
    {
      if index == block[i].index {
        CopyName(buf, block[i].name);
        found := true;
        break;
      }
      i := i + 1;
    }
    heap.Free(block);
    if !found {
      host.errno := ENXIO;
    }
  }

  /** struct if_nameindex. */
  datatype NameIndex = NameIndex(index: nat, name: StringBlock?)

  /** The array holds `list`, each name in its own string, and then the sentinel. */
  ghost predicate HoldsEntries(ni: array<NameIndex>, names: seq<StringBlock>, list: seq<Entry>)
    reads ni
  {
    && |names| == |list| < ni.Length
    && (forall k :: 0 <= k < |list| ==>
          ni[k] == NameIndex(list[k].index, names[k]) && names[k].chars == list[k].name + ['\0'])
    && (forall k, l :: 0 <= k < l < |names| ==> names[k] != names[l])
  }

  lemma EntriesInMemory(ni: array<NameIndex>, names: seq<StringBlock>, list: seq<Entry>)
    requires HoldsEntries(ni, names, list)
    ensures |names| == |list| < ni.Length
    ensures forall k :: 0 <= k < |list| ==>
              && ni[k].index == list[k].index
              && ni[k].name != null && ni[k].name.chars == list[k].name + ['\0']
  {
  }

  /** if_nameindex. */
  method IfNameindex(host: Host, heap: Heap, reply: TableReply)
    returns (ni: array?<NameIndex>, ghost names: seq<StringBlock>)
    modifies heap, host`errno
    ensures ni == null <==> reply.TableError?
    ensures ni == null ==> host.errno == reply.errno && heap.live == old(heap.live)
    ensures ni != null ==>
              && fresh(ni) && HoldsEntries(ni, names, Listed(reply.rows)) && ni[|names|] == NameIndex(0, null)
              && heap.live == old(heap.live) + {ni} + Blocks(names) && (Blocks(names) + {ni}) !! old(heap.live)
    ensures ni != null ==>
              var n := |Listed(reply.rows)|;
              && n < ni.Length && ni[n] == NameIndex(0, null)
              && forall k :: 0 <= k < n ==>
                   && ni[k].index == Listed(reply.rows)[k].index
                   && ni[k].name != null && ni[k].name.chars == Listed(reply.rows)[k].name + ['\0']
  {
    names := [];
    var err, block := GetTable(heap, reply);
    if err.Some? {
      host.errno := err.value;
      return null, names;
    }
    var cnt := if block == null then 0 else block.Length;
    ni := new NameIndex[cnt + 1];
    heap.Register(ni);
    NoEntries(ni, reply.rows);
    hide HoldsEntries, Listed, HasIndex, Blocks;
    var retCnt := 0;
    if block != null {
      retCnt, names := CollectEntries(heap, block, ni);
    }
    heap.Free(block);
    PutSentinel(ni, retCnt, names, Listed(reply.rows));
    EntriesInMemory(ni, names, Listed(reply.rows));
  }

  /** The loops of if_nameindex. */
  method CollectEntries(heap: Heap, block: array<Row>, ni: array<NameIndex>)
    returns (retCnt: nat, ghost names: seq<StringBlock>)
    requires ni.Length == block.Length + 1
    modifies heap, ni
    ensures retCnt == |names| && HoldsEntries(ni, names, Listed(block[..]))
    ensures Blocks(names) !! old(heap.live) && heap.live == old(heap.live) + Blocks(names)
  {
    ghost var rows: seq<Row> := block[..];
    NoEntries(ni, rows);
    hide HoldsEntries, Listed, HasIndex, Blocks;
    var i := 0;
    retCnt, names := 0, [];
    ghost var blocks: set<object> := {};
    while i < block.Length
      invariant |names| <= i <= block.Length && retCnt == |names|
      invariant HoldsEntries(ni, names, Listed(rows[..i]))
      invariant blocks == Blocks(names) && blocks !! old(heap.live)
      invariant heap.live == old(heap.live) + blocks
    {
      ListedGrows(rows, i);
      var idxExist := HasEntry(ni, retCnt, block[i].index, names, Listed(rows[..i]));
      if !idxExist {
        var name := AddEntry(heap, ni, retCnt, block[i], names, Listed(rows[..i]));
        BlocksAdd(names, name);
        names, blocks := names + [name], blocks + {name};
        retCnt := retCnt + 1;
      }
      i := i + 1;
    }
    assert rows[..i] == rows;
  }

  lemma ListedGrows(rows: seq<Row>, i: nat)
    requires i < |rows|
    ensures Listed(rows[..i + 1]) ==
            Listed(rows[..i])
              + (if HasIndex(Listed(rows[..i]), rows[i].index) then [] else [Entry(rows[i].index, rows[i].Name())])
    ensures |Listed(rows[..i])| <= i
    decreases i
  {
    assert rows[..i + 1][..i] == rows[..i];
    if i > 0 {
      ListedGrows(rows, i - 1);
    }
  }

  lemma NoEntries(ni: array<NameIndex>, rows: seq<Row>)
    requires ni.Length > 0
    ensures HoldsEntries(ni, [], Listed(rows[..0])) && Listed([]) == [] && Blocks([]) == {}
  {
  }

  /** Store the row's index and a copy of its name in the next slot. */
  method AddEntry(heap: Heap, ni: array<NameIndex>, retCnt: nat, row: Row,
                  ghost names: seq<StringBlock>, ghost list: seq<Entry>) returns (name: StringBlock)
    requires HoldsEntries(ni, names, list) && retCnt == |names| && retCnt + 1 < ni.Length
    requires Blocks(names) <= heap.live
    modifies heap, ni
    ensures HoldsEntries(ni, names + [name], list + [Entry(row.index, row.Name())])
    ensures name !in old(heap.live) && heap.live == old(heap.live) + {name}
  {
    name := heap.Strdup(row.name);
    ni[retCnt] := NameIndex(row.index, name);
    assert forall k :: 0 <= k < |names| ==> names[k] in Blocks(names);
  }

  /** Terminate the array. */
  method PutSentinel(ni: array<NameIndex>, retCnt: nat, ghost names: seq<StringBlock>, ghost list: seq<Entry>)
    requires HoldsEntries(ni, names, list) && retCnt == |names|
    modifies ni
    ensures HoldsEntries(ni, names, list) && ni[|names|] == NameIndex(0, null)
  {
    ni[retCnt] := NameIndex(0, null);
  }

  /** The inner loop of if_nameindex: is the index among the entries so far? */
  method HasEntry(ni: array<NameIndex>, retCnt: nat, index: nat, ghost names: seq<StringBlock>, ghost list: seq<Entry>)
    returns (exist: bool)
    requires HoldsEntries(ni, names, list) && retCnt == |names|
    ensures exist <==> HasIndex(list, index)
  {
    var j := 0;
    while j < retCnt
      invariant j <= retCnt && forall k :: 0 <= k < j ==> list[k].index != index
    {
      if index == ni[j].index {
        assert list[j].index == index;
        return true;
      }
      j := j + 1;
    }
    return false;
  }

  /** if_freenameindex: the walk stops at the sentinel, and only there: an entry with
      index 0 has a name. */
  method IfFreenameindex(heap: Heap, ni: array?<NameIndex>, ghost names: seq<StringBlock>, ghost list: seq<Entry>)
    requires ni != null ==>
               && HoldsEntries(ni, names, list) && ni[|names|] == NameIndex(0, null)
               && Blocks(names) + {ni} <= heap.live
    modifies heap
    ensures heap.live == old(heap.live) - (if ni == null then {} else Blocks(names) + {ni})
  {
    if ni == null {
      return;
    }
    var p := 0;
    while !(ni[p].index == 0 && ni[p].name == null)
      invariant p <= |names| && heap.live == old(heap.live) - Blocks(names[..p])
      decreases |names| - p
    {
      heap.Free(ni[p].name);
      p := p + 1;
    }
    assert names[..p] == names;
    heap.Free(ni);
  }

  /** if_nameindex and if_freenameindex together leave the heap as it was. */
  method NameindexThenFree(host: Host, heap: Heap, reply: TableReply)
    modifies heap, host`errno
    ensures heap.live == old(heap.live)
  {
    var ni, names := IfNameindex(host, heap, reply);
    hide HoldsEntries, Listed, Blocks;
    IfFreenameindex(heap, ni, names, if reply.Table? then Listed(reply.rows) else []);
  }

  // ---------- getifaddrs ----------

  datatype Part = Hdr | Name | Addr | Netmask | Broadaddr | Extdata

  /** A pointer into the block getifaddrs allocates: NULL, or a part of one of its
      elements. */
  datatype Ptr = Null | To(slot: nat, part: Part)

  /** struct _wamr_ifaddr_buf: the ifaddrs structure and the storage behind it. */
  datatype IfaddrBuf = IfaddrBuf(
    ifaNext: Ptr, ifaName: Ptr, ifaFlags: int, ifaAddr: Ptr, ifaNetmask: Ptr, ifaBroadaddr: Ptr, ifaData: Ptr,
    name: seq<char>, addr: seq<byte>, netmask: seq<byte>, broadaddr: seq<byte>, hwaddr: seq<byte>, ifindex: nat)

  /** Following `ifa_next` from `p` visits exactly the slots of `path`, and ends. */
  predicate IsChain(block: seq<IfaddrBuf>, p: Ptr, path: seq<nat>)
    decreases |path|
  {
    if path == [] then p == Null
    else p == To(path[0], Hdr) && path[0] < |block| && IsChain(block, block[path[0]].ifaNext, path[1..])
  }

  function UpTo(from: nat, n: nat): seq<nat>
    requires from <= n
    decreases n - from
  {
    if from == n then [] else [from] + UpTo(from + 1, n)
  }

  predicate Known(family: int) {
    family == AF_INET || family == AF_INET6
  }

  /** A converted address: the storage says what the host's address says, or that
      there is none. */
  predicate Shows(storage: seq<byte>, host: seq<byte>)
    requires |host| == HOST_STORAGE
  {
    && |storage| == SOCKADDR_STORAGE
    && (Known(Family(host)) ==> Family(storage) == Family(host) && OfSockaddr(storage) == OfHost(host))
    && (!Known(Family(host)) ==> Family(storage) == AF_UNSPEC)
  }

  /** Element `i` shows `row`: every pointer is to its own storage, and an address
      pointer is NULL exactly when the host's family is neither AF_INET nor AF_INET6. */
  predicate ShowsRow(b: IfaddrBuf, i: nat, row: Row) {
    && b.ifaName == To(i, Name) && CString(b.name) == row.Name() && '\0' in b.name
    && b.ifaFlags == row.flags
    && b.ifaData == To(i, Extdata) && b.hwaddr == row.hwaddr && b.ifindex == row.index
    && b.ifaAddr == (if Known(Family(row.addr)) then To(i, Addr) else Null) && Shows(b.addr, row.addr)
    && b.ifaNetmask == (if Known(Family(row.netmask)) then To(i, Netmask) else Null) && Shows(b.netmask, row.netmask)
    && b.ifaBroadaddr == (if Known(Family(row.broadaddr)) then To(i, Broadaddr) else Null)
    && Shows(b.broadaddr, row.broadaddr)
  }

  /** What a caller of getifaddrs finds in an element: the row's name, flags, hardware
      address and index; an address exactly for AF_INET and AF_INET6, with the host's
      fields. */
  lemma RowIsShown(b: IfaddrBuf, i: nat, row: Row)
    requires ShowsRow(b, i, row)
    ensures b.ifaName == To(i, Name) && CString(b.name) == CString(row.name)
    ensures b.ifaFlags == row.flags && b.ifaData == To(i, Extdata) && b.hwaddr == row.hwaddr && b.ifindex == row.index
    ensures if Family(row.addr) == AF_INET || Family(row.addr) == AF_INET6
            then
              && b.ifaAddr == To(i, Addr) && |b.addr| == SOCKADDR_STORAGE
              && Family(b.addr) == Family(row.addr) && OfSockaddr(b.addr) == OfHost(row.addr)
            else b.ifaAddr == Null
    ensures if Family(row.netmask) == AF_INET || Family(row.netmask) == AF_INET6
            then
              && b.ifaNetmask == To(i, Netmask) && |b.netmask| == SOCKADDR_STORAGE
              && Family(b.netmask) == Family(row.netmask) && OfSockaddr(b.netmask) == OfHost(row.netmask)
            else b.ifaNetmask == Null
    ensures if Family(row.broadaddr) == AF_INET || Family(row.broadaddr) == AF_INET6
            then
              && b.ifaBroadaddr == To(i, Broadaddr) && |b.broadaddr| == SOCKADDR_STORAGE
              && Family(b.broadaddr) == Family(row.broadaddr) && OfSockaddr(b.broadaddr) == OfHost(row.broadaddr)
            else b.ifaBroadaddr == Null
  {
  }

  /** One address: AF_UNSPEC is stored first, and stays for an unknown family. */
  method ConvertAddr(host: seq<byte>) returns (storage: seq<byte>)
    requires |host| == HOST_STORAGE
    ensures Shows(storage, host)
  {
    var w := new byte[HOST_STORAGE](i requires 0 <= i < HOST_STORAGE => host[i]);
    assert w[..] == host;
    var s := new byte[SOCKADDR_STORAGE];
    s[0], s[1] := 0, 0;
    var templen, full := FromHost(w, s, SOCKADDR_STORAGE);
    if Known(Family(host)) {
      PrefixHasFields(full, s[..]);
    }
    return s[..];
  }

  /** The body of getifaddrs' loop: element `i` of `n` for a row. */
  method ShowRow(i: nat, n: nat, row: Row) returns (b: IfaddrBuf)
    ensures ShowsRow(b, i, row)
    ensures b.ifaNext == if i + 1 == n then Null else To(i + 1, Hdr)
  {
    var addr := ConvertAddr(row.addr);
    var netmask := ConvertAddr(row.netmask);
    var broadaddr := ConvertAddr(row.broadaddr);
    b := IfaddrBuf(
      if i + 1 == n then Null else To(i + 1, Hdr),
      To(i, Name), row.flags,
      if Family(addr) == AF_UNSPEC then Null else To(i, Addr),
      if Family(netmask) == AF_UNSPEC then Null else To(i, Netmask),
      if Family(broadaddr) == AF_UNSPEC then Null else To(i, Broadaddr),
      To(i, Extdata),
      row.name, addr, netmask, broadaddr, row.hwaddr, row.index);
  }

  /** The chain that leaves slot `i` for slot `i + 1`, up to the last. */
  lemma {:induction false} LinkedIsChain(block: seq<IfaddrBuf>, from: nat)
    requires from < |block|
    requires forall i :: 0 <= i < |block| ==>
               block[i].ifaNext == if i + 1 == |block| then Null else To(i + 1, Hdr)
    ensures IsChain(block, To(from, Hdr), UpTo(from, |block|))
    decreases |block| - from
  {
    if from + 1 < |block| {
      LinkedIsChain(block, from + 1);
    }
  }

  /** getifaddrs: `head` is the pointer handed out.  The chain visits every row once,
      in the host's order, and ends. */
  method Getifaddrs(host: Host, heap: Heap, reply: TableReply)
    returns (ret: int, head: Ptr, block: array?<IfaddrBuf>)
    modifies heap, host`errno
    ensures ret == if reply.Table? then 0 else -1
    ensures ret == -1 ==> host.errno == reply.errno
    ensures block != null <==> reply.Table? && reply.rows != []
    ensures block == null ==> head == Null && (heap.live == old(heap.live) <==> reply != Table([], true))
    ensures block != null ==>
              && fresh(block) && block.Length == |reply.rows|
              && IsChain(block[..], head, UpTo(0, |reply.rows|))
              && (forall i :: 0 <= i < |reply.rows| ==>
                    && ShowsRow(block[i], i, reply.rows[i])
                    && block[i].ifaNext == if i + 1 == |reply.rows| then Null else To(i + 1, Hdr))
              && head == To(0, Hdr) && block !in old(heap.live) && heap.live == old(heap.live) + {block}
  {
    var err, rows := GetTable(heap, reply);
    if err.Some? {
      host.errno := err.value;
      return -1, Null, null;
    }
    if rows == null || rows.Length == 0 {
      return 0, Null, null;
    }
    hide ShowsRow;
    block := new IfaddrBuf[rows.Length];
    heap.Register(block);
    var i := 0;
    while i < rows.Length
      invariant i <= rows.Length && rows[..] == reply.rows
      invariant heap.live == old(heap.live) + {rows} + {block}
      invariant forall k :: 0 <= k < i ==>
                  && ShowsRow(block[k], k, reply.rows[k])
                  && block[k].ifaNext == if k + 1 == rows.Length then Null else To(k + 1, Hdr)
    {
      block[i] := ShowRow(i, rows.Length, rows[i]);
      i := i + 1;
    }
    LinkedIsChain(block[..], 0);
    heap.Free(rows);
    return 0, To(0, Hdr), block;
  }

  /** freeifaddrs: the first element is the start of the block. */
  method Freeifaddrs(heap: Heap, block: array?<IfaddrBuf>, head: Ptr)
    requires if block == null then head == Null else head == To(0, Hdr) && block in heap.live
    modifies heap
    ensures heap.live == old(heap.live) - (if head == Null then {} else {block})
  {
    if head == Null {
      return;
    }
    heap.Free(block);
  }

  /** getifaddrs and freeifaddrs together leave the heap as it was, except when the
      host makes a block for an empty table. */
  method GetifaddrsThenFree(host: Host, heap: Heap, reply: TableReply)
    modifies heap, host`errno
    ensures heap.live == old(heap.live) <==> reply != Table([], true)
  {
    hide IsChain, ShowsRow;
    var ret, head, block := Getifaddrs(host, heap, reply);
    Freeifaddrs(heap, block, head);
  }
}
