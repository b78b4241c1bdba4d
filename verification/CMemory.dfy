/** The C heap and C strings.  A block is a Dafny array; the heap tracks which blocks
    are live, so that giving back everything taken is an equality of sets.  As in C,
    only a live block or NULL may be freed. */
module CMemory {

  /** The C string at the start of a buffer: everything before the first NUL. */
  function CString(buf: seq<char>): string {
    if buf == [] || buf[0] == '\0' then "" else [buf[0]] + CString(buf[1..])
  }

  lemma {:induction false} CStringEnds(text: string, rest: seq<char>)
    requires '\0' !in text
    ensures CString(text + ['\0'] + rest) == text
  {
    if text != "" {
      assert (text + ['\0'] + rest)[1..] == text[1..] + ['\0'] + rest;
      CStringEnds(text[1..], rest);
    }
  }

  lemma {:induction false} CStringIsPrefix(buf: seq<char>)
    requires '\0' in buf
    ensures var n := |CString(buf)|;
            n < |buf| && CString(buf) == buf[..n] && buf[n] == '\0' && '\0' !in CString(buf)
  {
    if buf[0] != '\0' {
      CStringIsPrefix(buf[1..]);
    }
  }

  /** The blocks of a list, as a set. */
  ghost function Blocks(list: seq<object>): set<object> {
    set b | b in list
  }

  lemma BlocksAdd(list: seq<object>, b: object)
    ensures Blocks([b] + list) == Blocks(list) + {b} == Blocks(list + [b])
  {
  }

  /** A block made by strdup: a string with its terminator, never written again. */
  class StringBlock {
    const chars: seq<char>

    constructor (chars: seq<char>)
      ensures this.chars == chars
    {
      this.chars := chars;
    }
  }

  class Heap {
    ghost var live: set<object>
    ghost var reallocs: nat

    constructor ()
      ensures live == {} && reallocs == 0
    {
      live, reallocs := {}, 0;
    }

    /** malloc(n) for characters, where it succeeds; the content is arbitrary. */
    method MallocChars(n: nat) returns (p: array<char>)
      modifies this
      ensures fresh(p) && p.Length == n
      ensures live == old(live) + {p} && reallocs == old(reallocs)
    {
      p := new char[n];
      live := live + {p};
    }

    /** malloc of a structure, where it succeeds; `p` is the new structure. */
    method Register(p: object)
      requires p !in live
      modifies this
      ensures live == old(live) + {p} && reallocs == old(reallocs)
    {
      live := live + {p};
    }

    method Free(p: object?)
      requires p == null || p in live
      modifies this
      ensures live == old(live) - {p} && reallocs == old(reallocs)
    {
      if p != null {
        live := live - {p};
      }
    }

    /** realloc for an array of string pointers: the old slots are copied, the new
        ones are arbitrary, the old block is dead. */
    method Realloc(p: array?<StringBlock?>, n: nat) returns (q: array<StringBlock?>)
      requires p != null ==> p in live && p.Length <= n
      modifies this
      ensures fresh(q) && q.Length == n
      ensures p != null ==> q[..p.Length] == p[..]
      ensures live == old(live) - {p} + {q} && reallocs == old(reallocs) + 1
    {
      q := new StringBlock?[n];
      if p != null {
        forall i | 0 <= i < p.Length {
          q[i] := p[i];
        }
      }
      live := live - {p} + {q};
      reallocs := reallocs + 1;
    }

    /** strdup of the C string at the start of a buffer: a block of exactly that string
        and its terminator. */
    method Strdup(s: seq<char>) returns (p: StringBlock)
      requires '\0' in s
      modifies this
      ensures fresh(p) && p.chars == CString(s) + ['\0'] && p !in old(live)
      ensures live == old(live) + {p} && reallocs == old(reallocs)
    {
      CStringIsPrefix(s);
      var n := 0;
      while s[n] != '\0'
        invariant n <= |CString(s)|
        decreases |CString(s)| - n
      {
        n := n + 1;
      }
      p := new StringBlock(s[..n + 1]);
      live := live + {p};
    }
  }
}
