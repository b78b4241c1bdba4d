/** What __process_split_cmdline computes: the scanner's state and step, and the laws
    of the resulting split that need no grammar. */
module Tokenizer {

  /** The scanner's locals: `end_char`, `escaped`, the scratch buffer's content and
      the words flushed so far. */
  datatype Scan = Scan(endChar: char, escaped: bool, word: string, words: seq<string>) {
    /** Outside quotes with no backslash pending. */
    predicate Safe() {
      endChar == ' ' && !escaped
    }

    /** The flush: an empty word is dropped. */
    function Flushed(): seq<string> {
      if word == "" then words else words + [word]
    }
  }

  const START := Scan(' ', false, "", [])

  function Step(s: Scan, c: char): Scan {
    if s.escaped then s.(word := s.word + [c], escaped := false)
    else if c == '\\' && s.endChar != '\'' then s.(escaped := true)
    else if (c == '"' || c == '\'') && s.endChar == ' ' then s.(endChar := c)
    else if c == s.endChar then
      if s.endChar == ' ' then s.(word := "", words := s.Flushed()) else s.(endChar := ' ')
    else s.(word := s.word + [c])
  }

  function Run(s: Scan, cmd: string): Scan {
    if cmd == "" then s else Step(Run(s, cmd[..|cmd| - 1]), cmd[|cmd| - 1])
  }

  function Split(cmd: string): seq<string> {
    Run(START, cmd).Flushed()
  }

  lemma {:induction false} RunAppend(s: Scan, a: string, b: string)
    ensures Run(s, a + b) == Run(Run(s, a), b)
  {
    if b == "" {
      assert a + b == a;
    } else {
      var n := |b| - 1;
      assert (a + b)[..|a + b| - 1] == a + b[..n];
      RunAppend(s, a, b[..n]);
    }
  }

  lemma RunOne(s: Scan, c: char)
    ensures Run(s, [c]) == Step(s, c)
  {
  }

  // ---------- splitting at safe points ----------

  /** The words already flushed do not influence the scan. */
  lemma {:induction false} WordsAreCarried(s: Scan, before: seq<string>, cmd: string)
    ensures var r := Run(s, cmd);
            Run(s.(words := before + s.words), cmd) == r.(words := before + r.words)
  {
    if cmd != "" {
      var n := |cmd| - 1;
      WordsAreCarried(s, before, cmd[..n]);
      var r := Run(s, cmd[..n]);
      assert before + (r.words + [r.word]) == (before + r.words) + [r.word];
    }
  }

  lemma SplitAfterSafe(a: string, b: string)
    requires Run(START, a).Safe()
    ensures Split(a + " " + b) == Split(a) + Split(b)
  {
    var e := Run(START, a);
    RunOne(e, ' ');
    assert Run(e, " ") == START.(words := e.Flushed());
    hide Run, Step;
    RunAppend(START, a, " ");
    assert e.Flushed() == e.Flushed() + START.words;
    RunAppend(START, a + " ", b);
    assert Run(START, a + " ") == START.(words := e.Flushed() + START.words);
    WordsAreCarried(START, e.Flushed(), b);
    var r := Run(START, b);
    assert e.Flushed() + (r.words + [r.word]) == (e.Flushed() + r.words) + [r.word];
  }

  /** Splitting at a space is a homomorphism for every right-hand side exactly when
      the left-hand side ends outside quotes with no backslash pending. */
  lemma SplitIsHomomorphicExactly(a: string)
    ensures (forall b :: Split(a + " " + b) == Split(a) + Split(b)) <==> Run(START, a).Safe()
  {
    if Run(START, a).Safe() {
      forall b ensures Split(a + " " + b) == Split(a) + Split(b) {
        SplitAfterSafe(a, b);
      }
    } else {
      // the space joins the unfinished word instead of ending it
      var e := Run(START, a);
      EndCharIsAQuoteOrSpace(a);
      RunAppend(START, a, " ");
      RunOne(e, ' ');
      assert a + " " + "" == a + " ";
      assert Split(a + " ") == e.words + [e.word + " "];
      assert Split(a) + Split("") == Split(a);
      if e.word == "" {
        assert |Split(a + " ")| == |Split(a)| + 1;
      } else {
        assert Split(a + " ")[|e.words|] != Split(a)[|e.words|];
      }
      assert Split(a + " " + "") != Split(a) + Split("");
    }
  }

  lemma {:induction false} EndCharIsAQuoteOrSpace(cmd: string)
    ensures Run(START, cmd).endChar in {' ', '"', '\''}
    ensures Run(START, cmd).escaped ==> Run(START, cmd).endChar != '\''
  {
    if cmd != "" {
      EndCharIsAQuoteOrSpace(cmd[..|cmd| - 1]);
    }
  }

  // ---------- conservation ----------

  function Concat(words: seq<string>): string {
    if words == [] then "" else Concat(words[..|words| - 1]) + words[|words| - 1]
  }

  /** `a` is obtained from `b` by leaving characters out, the order kept. */
  predicate IsSubsequence(a: string, b: string) {
    a == "" || (b != "" &&
      var front := b[..|b| - 1];
      IsSubsequence(a, front) || (a[|a| - 1] == b[|b| - 1] && IsSubsequence(a[..|a| - 1], front)))
  }

  lemma SubsequenceSnoc(a: string, b: string, c: char)
    requires IsSubsequence(a, b)
    ensures IsSubsequence(a, b + [c]) && IsSubsequence(a + [c], b + [c])
  {
  }

  /** The characters kept so far: the flushed words and the scratch buffer. */
  function Kept(s: Scan): string {
    Concat(s.words) + s.word
  }

  lemma ConcatSnoc(words: seq<string>, w: string)
    ensures Concat(words + [w]) == Concat(words) + w
  {
  }

  predicate NoneEmpty(words: seq<string>) {
    forall i :: 0 <= i < |words| ==> words[i] != ""
  }

  /** A step keeps its character, or drops it and may flush one word. */
  lemma StepConserves(s: Scan, c: char)
    ensures var t := Step(s, c);
            || (t.words == s.words && Kept(t) == Kept(s) + [c])
            || (t.words == s.words && Kept(t) == Kept(s))
            || (t.words == s.words + [s.word] && s.word != "" && Kept(t) == Kept(s))
  {
  }

  /** Whatever the scan has kept so far is a subsequence of what it has read, and
      each flush has paid for itself with a space. */
  lemma {:induction false} ScanConserves(cmd: string)
    ensures var s := Run(START, cmd);
            NoneEmpty(s.words) && IsSubsequence(Kept(s), cmd) && |s.words| + |Kept(s)| <= |cmd|
  {
    assert Kept(START) == "";
    hide Kept, Concat, Step;
    if cmd != "" {
      var n := |cmd| - 1;
      var s := Run(START, cmd[..n]);
      ScanConserves(cmd[..n]);
      StepConserves(s, cmd[n]);
      SubsequenceSnoc(Kept(s), cmd[..n], cmd[n]);
      assert cmd[..n] + [cmd[n]] == cmd;
    }
  }

  /** Conservation: no argument is empty, together they are a subsequence of the
      command, and argc plus their lengths is at most strlen(cmd) + 1. */
  lemma SplitConserves(cmd: string)
    ensures NoneEmpty(Split(cmd))
    ensures IsSubsequence(Concat(Split(cmd)), cmd)
    ensures |Split(cmd)| + |Concat(Split(cmd))| <= |cmd| + 1
  {
    ScanConserves(cmd);
    var s := Run(START, cmd);
    ConcatSnoc(s.words, s.word);
    assert s.word == "" ==> Kept(s) == Concat(s.words);
  }

  /** No quotes, no backslashes, and every space follows a character that is not one. */
  predicate Unquoted(cmd: string) {
    cmd == "" || (
      var front, c := cmd[..|cmd| - 1], cmd[|cmd| - 1];
      && Unquoted(front)
      && c !in {'\\', '"', '\''}
      && (c == ' ' ==> front != "" && front[|front| - 1] != ' '))
  }

  lemma {:induction false} ScanLosesNothingExactly(cmd: string)
    ensures var s := Run(START, cmd);
            && (|s.words| + |Kept(s)| == |cmd| <==> Unquoted(cmd))
            && (Unquoted(cmd) ==> s.Safe() && (s.word == "" <==> cmd == "" || cmd[|cmd| - 1] == ' '))
  {
    if cmd != "" {
      var n := |cmd| - 1;
      var s := Run(START, cmd[..n]);
      ScanLosesNothingExactly(cmd[..n]);
      ScanConserves(cmd[..n]);
      StepConserves(s, cmd[n]);
    }
  }

  /** The bound is tight, and reached exactly by unquoted words between single spaces. */
  lemma BoundIsReachedExactly(cmd: string)
    ensures |Split(cmd)| + |Concat(Split(cmd))| == |cmd| + 1
       <==> cmd != "" && Unquoted(cmd) && cmd[|cmd| - 1] != ' '
  {
    ScanConserves(cmd);
    ScanLosesNothingExactly(cmd);
    var s := Run(START, cmd);
    ConcatSnoc(s.words, s.word);
    assert s.word == "" ==> Kept(s) == Concat(s.words);
  }
}
