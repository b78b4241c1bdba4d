/** __process_add_arg, __process_free_argv and __process_split_cmdline over the heap. */
module Argv {
  import opened CMemory
  import opened Tokenizer

  /** An argument vector as C sees it: a block of string pointers, possibly NULL. */
  type Block = array?<StringBlock?>

  /** Slots reserved for `argc` arguments and the NULL: the block grows by five. */
  function Capacity(argc: nat): nat {
    if argc == 0 then 0 else (argc + 4) / 5 * 5 + 1
  }

  /** How often __process_add_arg has reallocated to get to `argc` arguments. */
  function Growths(argc: nat): nat {
    (argc + 4) / 5
  }

  lemma GrowthIsByFive(argc: nat)
    ensures Capacity(argc + 1) == if argc % 5 == 0 then argc + 5 + 1 else Capacity(argc)
    ensures Growths(argc + 1) == Growths(argc) + if argc % 5 == 0 then 1 else 0
    ensures argc > 0 ==> argc < Capacity(argc)
  {
  }

  /** As C strings, the blocks are exactly `words`. */
  ghost predicate Spell(strings: seq<StringBlock>, words: seq<string>) {
    && |strings| == |words|
    && forall i :: 0 <= i < |words| ==> strings[i].chars == words[i] + ['\0'] && '\0' !in words[i]
  }

  /** `argv` is what C calls an argument vector for `strings`: a pointer to each of
      them, all different, and then NULL. */
  ghost predicate Holds(argv: array<StringBlock?>, strings: seq<StringBlock>)
    reads argv
  {
    && |strings| < argv.Length && argv[|strings|] == null
    && (forall i :: 0 <= i < |strings| ==> argv[i] == strings[i])
    && (forall i, j :: 0 <= i < j < |strings| ==> strings[i] != strings[j])
  }

  /** The heap blocks behind an argument vector. */
  ghost function Owned(argv: Block, strings: seq<StringBlock>): set<object> {
    if argv == null then Blocks(strings) else Blocks(strings) + {argv}
  }

  /** The caller's variables that `out_argv` and `out_argc` point to. */
  class ArgvVar {
    var argv: Block
    var argc: nat
    ghost var strings: seq<StringBlock>
    ghost var owned: set<object>

    constructor ()
      ensures argv == null && argc == 0 && strings == [] && owned == {}
    {
      argv, argc, strings, owned := null, 0, [], {};
    }

    ghost predicate Valid(heap: Heap)
      reads this, heap, argv
    {
      && argc == |strings|
      && (argc == 0 <==> argv == null)
      && (argv != null ==> argv.Length == Capacity(argc) && Holds(argv, strings))
      && owned == Owned(argv, strings) <= heap.live
    }

    /** The first half of __process_add_arg: make room for one more argument. */
    method Grow(heap: Heap)
      requires Valid(heap)
      modifies `argv, `owned, heap
      ensures argv != null && (argv == old(argv) || fresh(argv)) && argv.Length == Capacity(argc + 1)
      ensures forall i :: 0 <= i < argc ==> argv[i] == strings[i]
      ensures owned == Owned(argv, strings) && fresh(owned - old(owned))
      ensures heap.live == old(heap.live - owned) + owned
      ensures heap.reallocs - Growths(argc + 1) == old(heap.reallocs - Growths(argc))
    {
      GrowthIsByFive(argc);
      if argc % 5 == 0 {
        owned := owned - {argv};
        argv := heap.Realloc(argv, argc + 5 + 1);
        owned := owned + {argv};
        assert forall i :: 0 <= i < argc ==> argv[i] == argv[..argc][i];
      }
    }

    /** __process_add_arg: an empty argument is ignored; otherwise a copy is appended. */
    method Add(heap: Heap, newArg: array?<char>)
      requires Valid(heap)
      requires newArg != null ==> '\0' in newArg[..]
      modifies this, heap, argv
      ensures Valid(heap)
      ensures newArg == null || CString(newArg[..]) == "" ==>
                && argv == old(argv) && argc == old(argc) && strings == old(strings) && owned == old(owned)
                && heap.live == old(heap.live)
      ensures newArg != null && CString(newArg[..]) != "" ==>
                && |strings| == old(|strings|) + 1 && strings[..old(|strings|)] == old(strings)
                && fresh(strings[old(|strings|)]) && strings[old(|strings|)].chars == CString(newArg[..]) + ['\0']
      ensures argv == old(argv) || fresh(argv)
      ensures heap.live == old(heap.live - owned) + owned && fresh(owned - old(owned))
      ensures heap.reallocs - Growths(argc) == old(heap.reallocs - Growths(argc))
    {
      if newArg == null || newArg[0] == '\0' {
        return;
      }
      assert CString(newArg[..]) != "";
      hide CString, Capacity, Growths, Blocks;
      Grow(heap);
      var copy := heap.Strdup(newArg[..]);
      Append(heap, copy);
    }

    /** The second half of __process_add_arg: store the copy and the NULL after it. */
    method Append(heap: Heap, copy: StringBlock)
      requires argv != null && argv.Length == Capacity(argc + 1) && argc == |strings|
      requires forall i :: 0 <= i < argc ==> argv[i] == strings[i]
      requires forall i, j :: 0 <= i < j < argc ==> strings[i] != strings[j]
      requires owned == Owned(argv, strings) && owned + {copy} <= heap.live && copy !in owned
      modifies this, argv
      ensures Valid(heap) && argv == old(argv) && argc == old(argc) + 1
      ensures strings == old(strings) + [copy] && owned == old(owned) + {copy}
    {
      GrowthIsByFive(argc);
      GrowthIsByFive(argc + 1);
      BlocksAdd(strings, copy);
      argv[argc] := copy;
      strings, owned := strings + [copy], owned + {copy};
      argc := argc + 1;
      argv[argc] := null;
    }
  }

  /** __process_free_argv. */
  method FreeArgv(heap: Heap, argv: Block, ghost strings: seq<StringBlock>)
    requires if argv == null then strings == [] else Holds(argv, strings)
    requires Owned(argv, strings) <= heap.live
    modifies heap
    ensures heap.reallocs == old(heap.reallocs)
    ensures heap.live == old(heap.live) - Owned(argv, strings)
  {
    if argv == null {
      return;
    }
    var i := 0;
    while argv[i] != null
      invariant i <= |strings| && heap.reallocs == old(heap.reallocs)
      invariant heap.live == old(heap.live) - Blocks(strings[..i])
      decreases |strings| - i
    {
      heap.Free(argv[i]);
      i := i + 1;
    }
    heap.Free(argv);
  }

  lemma {:induction false} NoNulInWord(cmd: string)
    requires '\0' !in cmd
    ensures '\0' !in Run(START, cmd).word
  {
    if cmd != "" {
      NoNulInWord(cmd[..|cmd| - 1]);
    }
  }

  lemma Terminated(buf: seq<char>, n: nat, word: string)
    requires n < |buf| && buf[n] == '\0' && buf[..n] == word && '\0' !in word
    ensures '\0' in buf && CString(buf) == word
  {
    assert buf == word + ['\0'] + buf[n + 1..];
    CStringEnds(word, buf[n + 1..]);
  }

  /** The locals of __process_split_cmdline. */
  class Scanner {
    const out: ArgvVar
    const temp: array<char>
    var tempLen: nat
    var endChar: char
    var escaped: bool

    constructor (out: ArgvVar, temp: array<char>)
      ensures this.out == out && this.temp == temp
      ensures tempLen == 0 && endChar == ' ' && !escaped
    {
      this.out, this.temp := out, temp;
      tempLen, endChar, escaped := 0, ' ', false;
    }

    /** The scanner is where the specification is after reading `seen`: the word in
        the making is in the scratch buffer, which has never been longer than `seen`. */
    ghost predicate Valid(heap: Heap, seen: string)
      reads this, temp, out, heap, out.argv
    {
      var s := Run(START, seen);
      && tempLen <= |seen| < temp.Length
      && s.endChar == endChar && s.escaped == escaped && s.word == temp[..tempLen]
      && out.Valid(heap) && Spell(out.strings, s.words)
    }

    /** Terminate the scratch buffer and hand it to __process_add_arg. */
    method Flush(heap: Heap, ghost seen: string)
      requires Valid(heap, seen) && '\0' !in seen
      modifies out, heap, out.argv, temp
      ensures out.Valid(heap) && Spell(out.strings, Run(START, seen).Flushed())
      ensures heap.live == old(heap.live - out.owned) + out.owned && fresh(out.owned - old(out.owned))
      ensures out.argv == old(out.argv) || fresh(out.argv)
      ensures heap.reallocs - Growths(out.argc) == old(heap.reallocs - Growths(out.argc))
    {
      hide CString, Run, Capacity, Growths, Holds, Owned;
      ghost var word := Run(START, seen).word;
      NoNulInWord(seen);
      temp[tempLen] := '\0';
      Terminated(temp[..], tempLen, word);
      out.Add(heap, temp);
    }

    /** The body of the scan loop. */
    method Feed(heap: Heap, c: char, ghost seen: string)
      requires Valid(heap, seen) && '\0' !in seen && |seen| + 1 < temp.Length
      modifies this, out, heap, out.argv, temp
      ensures Valid(heap, seen + [c])
      ensures heap.live == old(heap.live - out.owned) + out.owned && fresh(out.owned - old(out.owned))
      ensures out.argv == old(out.argv) || fresh(out.argv)
      ensures heap.reallocs - Growths(out.argc) == old(heap.reallocs - Growths(out.argc))
    {
      RunAppend(START, seen, [c]);
      RunOne(Run(START, seen), c);
      hide Run, Capacity, Growths;
      if escaped {
        temp[tempLen] := c;
        tempLen := tempLen + 1;
        escaped := false;
      } else if c == '\\' && endChar != '\'' {
        escaped := true;
      } else if (c == '"' || c == '\'') && endChar == ' ' {
        endChar := c;
      } else if c == endChar {
        if endChar == ' ' {
          Flush(heap, seen);
          tempLen := 0;
        }
        endChar := ' ';
      } else {
        temp[tempLen] := c;
        tempLen := tempLen + 1;
      }
    }

    /** The scan loop and the flush after it. */
    method Scan(heap: Heap, cmd: string)
      requires Valid(heap, "") && '\0' !in cmd && |cmd| < temp.Length
      modifies this, out, heap, out.argv, temp
      ensures out.Valid(heap) && Spell(out.strings, Split(cmd))
      ensures heap.live == old(heap.live - out.owned) + out.owned && fresh(out.owned - old(out.owned))
      ensures out.argv == old(out.argv) || fresh(out.argv)
      ensures heap.reallocs - Growths(out.argc) == old(heap.reallocs - Growths(out.argc))
    {
      hide Run, CString, Capacity, Growths, Holds, Spell;
      var cmdlen, curPos := |cmd|, 0;
      while curPos < cmdlen
        invariant curPos <= cmdlen && Valid(heap, cmd[..curPos])
        invariant out.argv == old(out.argv) || fresh(out.argv)
        invariant heap.live == old(heap.live - out.owned) + out.owned && fresh(out.owned - old(out.owned))
        invariant heap.reallocs - Growths(out.argc) == old(heap.reallocs - Growths(out.argc))
      {
        assert cmd[..curPos + 1] == cmd[..curPos] + [cmd[curPos]];
        Feed(heap, cmd[curPos], cmd[..curPos]);
        curPos := curPos + 1;
      }
      assert cmd[..cmdlen] == cmd;
      Flush(heap, cmd);
    }
  }

  lemma VectorInMemory(argv: array<StringBlock?>, strings: seq<StringBlock>, words: seq<string>)
    requires Holds(argv, strings) && Spell(strings, words)
    ensures |words| < argv.Length && argv[|words|] == null
    ensures forall i :: 0 <= i < |words| ==> argv[i] != null && argv[i].chars == words[i] + ['\0']
  {
  }

  /** __process_split_cmdline; `mallocOk` is whether the scratch buffer can be had. */
  method SplitCmdline(heap: Heap, cmd: string, mallocOk: bool)
    returns (argv: Block, ghost strings: seq<StringBlock>)
    requires '\0' !in cmd
    modifies heap
    ensures argv == null <==> !mallocOk || Split(cmd) == []
    ensures argv == null ==> strings == []
    ensures argv != null ==>
              argv.Length == Capacity(|Split(cmd)|) && Holds(argv, strings) && Spell(strings, Split(cmd))
    ensures argv != null ==>
              && |Split(cmd)| < argv.Length && argv[|Split(cmd)|] == null
              && forall i :: 0 <= i < |Split(cmd)| ==> argv[i] != null && argv[i].chars == Split(cmd)[i] + ['\0']
    ensures fresh(Owned(argv, strings))
    ensures heap.live == old(heap.live) + Owned(argv, strings)
    ensures heap.reallocs == old(heap.reallocs) + (if mallocOk then Growths(|Split(cmd)|) else 0)
  {
    assert Run(START, "") == START && Growths(0) == 0 && Owned(null, []) == {};
    hide Run, CString, Capacity, Growths, Holds, Scan.Flushed, Owned;
    var out := new ArgvVar();
    if !mallocOk {
      return null, [];
    }
    var temp := heap.MallocChars(|cmd| + 1);
    var scan := new Scanner(out, temp);
    scan.Scan(heap, cmd);
    heap.Free(temp);
    if out.argv != null {
      VectorInMemory(out.argv, out.strings, Split(cmd));
    }
    return out.argv, out.strings;
  }
}
