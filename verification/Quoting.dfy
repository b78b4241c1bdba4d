/** The quoting language __process_split_cmdline understands, given as a grammar that
    knows nothing of the scanner, and the proof that the two agree: every command line
    has a reading, and splitting yields the meaning of each of its readings. */
module Quoting {
  import opened Tokenizer

  /** A character between double quotes. */
  datatype Inner = Literal(c: char) | Escape(c: char)

  /** A piece of a word. */
  datatype Piece =
    | Plain(c: char)
    | Backslash(c: char)
    | Single(run: string)
    | Double(inner: seq<Inner>)

  /** How the command line ends: cleanly, after a lone backslash, or inside a quote. */
  datatype Ending =
    | Closed
    | Dangling
    | OpenSingle(run: string)
    | OpenDouble(inner: seq<Inner>, dangling: bool)

  // ---------- well-formedness, rendering and meaning ----------

  predicate InnerOk(inner: seq<Inner>) {
    forall i :: 0 <= i < |inner| ==> inner[i].Literal? ==> inner[i].c !in {'"', '\\'}
  }

  predicate PieceOk(p: Piece) {
    match p
    case Plain(c) => c !in {' ', '\\', '"', '\''}
    case Backslash(_) => true
    case Single(run) => '\'' !in run
    case Double(inner) => InnerOk(inner)
  }

  predicate WordOk(ps: seq<Piece>) {
    forall i :: 0 <= i < |ps| ==> PieceOk(ps[i])
  }

  predicate EndingOk(e: Ending) {
    match e
    case OpenSingle(run) => '\'' !in run
    case OpenDouble(inner, _) => InnerOk(inner)
    case _ => true
  }

  function RenderInner(inner: seq<Inner>): string {
    if inner == [] then ""
    else
      var n := |inner| - 1;
      RenderInner(inner[..n]) + (match inner[n] case Literal(c) => [c] case Escape(c) => ['\\', c])
  }

  function InnerText(inner: seq<Inner>): string {
    if inner == [] then "" else InnerText(inner[..|inner| - 1]) + [inner[|inner| - 1].c]
  }

  function RenderPiece(p: Piece): string {
    match p
    case Plain(c) => [c]
    case Backslash(c) => ['\\', c]
    case Single(run) => "'" + run + "'"
    case Double(inner) => "\"" + RenderInner(inner) + "\""
  }

  function PieceText(p: Piece): string {
    match p
    case Plain(c) => [c]
    case Backslash(c) => [c]
    case Single(run) => run
    case Double(inner) => InnerText(inner)
  }

  function RenderWord(ps: seq<Piece>): string {
    if ps == [] then "" else RenderWord(ps[..|ps| - 1]) + RenderPiece(ps[|ps| - 1])
  }

  function Text(ps: seq<Piece>): string {
    if ps == [] then "" else Text(ps[..|ps| - 1]) + PieceText(ps[|ps| - 1])
  }

  function RenderEnding(e: Ending): string {
    match e
    case Closed => ""
    case Dangling => "\\"
    case OpenSingle(run) => "'" + run
    case OpenDouble(inner, dangling) => "\"" + RenderInner(inner) + (if dangling then "\\" else "")
  }

  function EndingText(e: Ending): string {
    match e
    case Closed => ""
    case Dangling => ""
    case OpenSingle(run) => run
    case OpenDouble(inner, _) => InnerText(inner)
  }

  /** Words separated by single spaces; two spaces in a row have an empty word between. */
  function Join(words: seq<seq<Piece>>): string {
    if words == [] then ""
    else if |words| == 1 then RenderWord(words[0])
    else Join(words[..|words| - 1]) + " " + RenderWord(words[|words| - 1])
  }

  function NonEmpty(words: seq<string>): seq<string> {
    if words == [] then []
    else
      var front, last := NonEmpty(words[..|words| - 1]), words[|words| - 1];
      if last == "" then front else front + [last]
  }

  function Texts(words: seq<seq<Piece>>): (r: seq<string>)
    ensures |r| == |words|
  {
    if words == [] then [] else Texts(words[..|words| - 1]) + [Text(words[|words| - 1])]
  }

  /** A reading of a whole command line. */
  datatype Reading = Reading(words: seq<seq<Piece>>, ending: Ending) {
    predicate Ok() {
      words != [] && (forall i :: 0 <= i < |words| ==> WordOk(words[i])) && EndingOk(ending)
    }

    function Render(): string {
      Join(words) + RenderEnding(ending)
    }

    /** The non-empty words; an open quote or lone backslash belongs to the last one. */
    function Meaning(): seq<string>
      requires words != []
    {
      var n := |words| - 1;
      NonEmpty(Texts(words[..n]) + [Text(words[n]) + EndingText(ending)])
    }
  }

  // ---------- the scanner on rendered text ----------

  lemma {:induction false} ScanSingle(s: Scan, run: string)
    requires s.endChar == '\'' && !s.escaped && '\'' !in run
    ensures Run(s, run) == s.(word := s.word + run)
  {
    if run != "" {
      var n := |run| - 1;
      ScanSingle(s, run[..n]);
      assert run[..n] + [run[n]] == run;
    }
  }

  lemma {:induction false} ScanInner(s: Scan, inner: seq<Inner>)
    requires s.endChar == '"' && !s.escaped && InnerOk(inner)
    ensures Run(s, RenderInner(inner)) == s.(word := s.word + InnerText(inner))
  {
    if inner != [] {
      var n := |inner| - 1;
      ScanInner(s, inner[..n]);
      var t := Run(s, RenderInner(inner[..n]));
      match inner[n] {
        case Literal(c) =>
          RunAppend(s, RenderInner(inner[..n]), [c]);
          RunOne(t, c);
        case Escape(c) =>
          RunAppend(s, RenderInner(inner[..n]), ['\\', c]);
          ScanEscape(t, c);
      }
    }
  }

  lemma ScanEscape(s: Scan, c: char)
    requires !s.escaped && s.endChar != '\''
    ensures Run(s, ['\\', c]) == s.(word := s.word + [c])
  {
    assert ['\\', c][..1] == ['\\'];
    RunOne(s, '\\');
  }

  lemma ScanPiece(s: Scan, p: Piece)
    requires s.Safe() && PieceOk(p)
    ensures Run(s, RenderPiece(p)) == s.(word := s.word + PieceText(p))
  {
    match p {
      case Plain(c) => RunOne(s, c);
      case Backslash(c) => ScanEscape(s, c);
      case Single(run) =>
        var open := s.(endChar := '\'');
        RunOne(s, '\'');
        RunAppend(s, "'", run);
        ScanSingle(open, run);
        RunAppend(s, "'" + run, "'");
        RunOne(open.(word := s.word + run), '\'');
      case Double(inner) =>
        var open := s.(endChar := '"');
        RunOne(s, '"');
        RunAppend(s, "\"", RenderInner(inner));
        ScanInner(open, inner);
        RunAppend(s, "\"" + RenderInner(inner), "\"");
        RunOne(open.(word := s.word + InnerText(inner)), '"');
    }
  }

  lemma {:induction false} ScanWord(s: Scan, ps: seq<Piece>)
    requires s.Safe() && WordOk(ps)
    ensures Run(s, RenderWord(ps)) == s.(word := s.word + Text(ps))
  {
    hide Step, PieceOk, RenderPiece, PieceText;
    if ps != [] {
      var n := |ps| - 1;
      ScanWord(s, ps[..n]);
      RunAppend(s, RenderWord(ps[..n]), RenderPiece(ps[n]));
      ScanPiece(s.(word := s.word + Text(ps[..n])), ps[n]);
      assert s.word + Text(ps[..n]) + PieceText(ps[n]) == s.word + Text(ps);
    } else {
      assert s.word + "" == s.word;
    }
  }

  lemma ScanEnding(s: Scan, e: Ending)
    requires s.Safe() && EndingOk(e)
    ensures var t := Run(s, RenderEnding(e));
            t.words == s.words && t.word == s.word + EndingText(e)
  {
    match e {
      case Closed =>
      case Dangling => RunOne(s, '\\');
      case OpenSingle(run) =>
        RunOne(s, '\'');
        RunAppend(s, "'", run);
        ScanSingle(s.(endChar := '\''), run);
      case OpenDouble(inner, dangling) =>
        var open := s.(endChar := '"');
        RunOne(s, '"');
        RunAppend(s, "\"", RenderInner(inner));
        ScanInner(open, inner);
        RunAppend(s, "\"" + RenderInner(inner), "\\");
        RunOne(open.(word := s.word + InnerText(inner)), '\\');
        assert "\"" + RenderInner(inner) + "" == "\"" + RenderInner(inner);
    }
  }

  lemma NonEmptySnoc(words: seq<string>, w: string)
    ensures NonEmpty(words + [w]) == if w == "" then NonEmpty(words) else NonEmpty(words) + [w]
  {
  }

  /** Flushing the last word is what adds it to the non-empty ones. */
  lemma FlushedIsNonEmpty(s: Scan, words: seq<seq<Piece>>)
    requires words != []
    requires s.word == Text(words[|words| - 1]) && s.words == NonEmpty(Texts(words[..|words| - 1]))
    ensures s.Flushed() == NonEmpty(Texts(words))
  {
  }

  lemma {:induction false} ScanWords(words: seq<seq<Piece>>)
    requires words != [] && forall i :: 0 <= i < |words| ==> WordOk(words[i])
    ensures var n := |words| - 1;
            Run(START, Join(words)) == START.(word := Text(words[n]), words := NonEmpty(Texts(words[..n])))
  {
    var n := |words| - 1;
    if n == 0 {
      ScanWord(START, words[0]);
      assert "" + Text(words[0]) == Text(words[0]);
    } else {
      hide WordOk, RenderWord, Text, Texts, NonEmpty, Run;
      var before := words[..n];
      ScanWords(before);
      assert before[..n - 1] == words[..n - 1];
      var s := Run(START, Join(before));
      FlushedIsNonEmpty(s, before);
      RunOne(s, ' ');
      var next := START.(words := NonEmpty(Texts(before)));
      assert Run(s, " ") == next;
      ScanWord(next, words[n]);
      RunAppend(START, Join(before), " ");
      RunAppend(START, Join(before) + " ", RenderWord(words[n]));
      assert "" + Text(words[n]) == Text(words[n]);
    }
  }

  /** Soundness: whatever reading a command line has, splitting yields its meaning. */
  lemma SplitIsMeaning(r: Reading)
    requires r.Ok()
    ensures Split(r.Render()) == r.Meaning()
  {
    var n := |r.words| - 1;
    ScanWords(r.words);
    RunAppend(START, Join(r.words), RenderEnding(r.ending));
    ScanEnding(Run(START, Join(r.words)), r.ending);
    NonEmptySnoc(Texts(r.words[..n]), Text(r.words[n]) + EndingText(r.ending));
  }

  // ---------- every command line has a reading ----------

  function ExtendLast(words: seq<seq<Piece>>, p: Piece): seq<seq<Piece>>
    requires words != []
  {
    words[..|words| - 1] + [words[|words| - 1] + [p]]
  }

  lemma RenderInnerSnoc(inner: seq<Inner>, i: Inner)
    ensures RenderInner(inner + [i])
         == RenderInner(inner) + (match i case Literal(c) => [c] case Escape(c) => ['\\', c])
  {
  }

  /** Reading one more character. */
  function Extend(r: Reading, c: char): Reading
    requires r.words != []
  {
    match r.ending
    case Closed =>
      if c == ' ' then r.(words := r.words + [[]])
      else if c == '\\' then r.(ending := Dangling)
      else if c == '\'' then r.(ending := OpenSingle(""))
      else if c == '"' then r.(ending := OpenDouble([], false))
      else r.(words := ExtendLast(r.words, Plain(c)))
    case Dangling => Reading(ExtendLast(r.words, Backslash(c)), Closed)
    case OpenSingle(run) =>
      if c == '\'' then Reading(ExtendLast(r.words, Single(run)), Closed)
      else r.(ending := OpenSingle(run + [c]))
    case OpenDouble(inner, dangling) =>
      if dangling then r.(ending := OpenDouble(inner + [Escape(c)], false))
      else if c == '\\' then r.(ending := OpenDouble(inner, true))
      else if c == '"' then Reading(ExtendLast(r.words, Double(inner)), Closed)
      else r.(ending := OpenDouble(inner + [Literal(c)], false))
  }

  /** Reading on from `r`. */
  function ReadOn(r: Reading, s: string): (t: Reading)
    requires r.words != []
    ensures t.words != []
  {
    if s == "" then r else Extend(ReadOn(r, s[..|s| - 1]), s[|s| - 1])
  }

  function Read(cmd: string): Reading {
    ReadOn(Reading([[]], Closed), cmd)
  }

  /** The character goes into the ending ... */
  lemma EndingGrows(r: Reading, e: Ending, c: char)
    requires r.Ok() && EndingOk(e) && RenderEnding(e) == RenderEnding(r.ending) + [c]
    ensures r.(ending := e).Ok() && r.(ending := e).Render() == r.Render() + [c]
  {
  }

  /** ... or completes a piece of the last word. */
  lemma EndingCloses(r: Reading, p: Piece, c: char)
    requires r.Ok() && PieceOk(p) && RenderPiece(p) == RenderEnding(r.ending) + [c]
    ensures var t := Reading(ExtendLast(r.words, p), Closed);
            t.Ok() && t.Render() == r.Render() + [c]
  {
  }

  lemma SpaceStartsWord(r: Reading)
    requires r.Ok() && r.ending == Closed
    ensures var t := r.(words := r.words + [[]]);
            t.Ok() && t.Render() == r.Render() + " "
  {
  }

  lemma ExtendRenders(r: Reading, c: char)
    requires r.Ok()
    ensures Extend(r, c).Ok() && Extend(r, c).Render() == r.Render() + [c]
  {
    assert EndingOk(r.ending);
    hide Join, Reading.Render, Reading.Ok, ExtendLast, RenderInner;
    match r.ending {
      case Closed =>
        if c == ' ' { SpaceStartsWord(r); }
        else if c == '\\' { EndingGrows(r, Dangling, c); }
        else if c == '\'' { EndingGrows(r, OpenSingle(""), c); }
        else if c == '"' { EndingGrows(r, OpenDouble([], false), c); }
        else { EndingCloses(r, Plain(c), c); }
      case Dangling => EndingCloses(r, Backslash(c), c);
      case OpenSingle(run) =>
        if c == '\'' { EndingCloses(r, Single(run), c); }
        else {
          assert "'" + (run + [c]) == "'" + run + [c];
          EndingGrows(r, OpenSingle(run + [c]), c);
        }
      case OpenDouble(inner, dangling) =>
        var body := RenderInner(inner);
        if dangling {
          RenderInnerSnoc(inner, Escape(c));
          assert "\"" + (body + ['\\', c]) + "" == "\"" + body + "\\" + [c];
          EndingGrows(r, OpenDouble(inner + [Escape(c)], false), c);
        } else if c == '\\' {
          assert "\"" + body + "\\" == "\"" + body + "" + [c];
          EndingGrows(r, OpenDouble(inner, true), c);
        } else if c == '"' {
          assert "\"" + body + "\"" == "\"" + body + "" + [c];
          EndingCloses(r, Double(inner), c);
        } else {
          RenderInnerSnoc(inner, Literal(c));
          assert "\"" + (body + [c]) + "" == "\"" + body + "" + [c];
          EndingGrows(r, OpenDouble(inner + [Literal(c)], false), c);
        }
    }
  }

  lemma {:induction false} ReadRenders(cmd: string)
    ensures Read(cmd).Ok() && Read(cmd).Render() == cmd
  {
    hide Reading.Ok, Reading.Render, Extend;
    if cmd != "" {
      var n := |cmd| - 1;
      ReadRenders(cmd[..n]);
      ExtendRenders(Read(cmd[..n]), cmd[n]);
      assert cmd[..n] + [cmd[n]] == cmd;
    } else {
      EmptyReading();
    }
  }

  lemma EmptyReading()
    ensures Reading([[]], Closed).Ok() && Reading([[]], Closed).Render() == ""
  {
  }

  /** Completeness: every command line has a reading, whose meaning is its split. */
  lemma EveryCommandIsRead(cmd: string)
    ensures Read(cmd).Ok() && Read(cmd).Render() == cmd
    ensures Split(cmd) == Read(cmd).Meaning()
  {
    hide Reading.Ok, Reading.Render, Reading.Meaning, Read, Split;
    ReadRenders(cmd);
    SplitIsMeaning(Read(cmd));
  }

  // ---------- and only one ----------

  lemma {:induction false} ReadOnAppend(r: Reading, a: string, b: string)
    requires r.words != []
    ensures ReadOn(r, a + b) == ReadOn(ReadOn(r, a), b)
  {
    if b == "" {
      assert a + b == a;
    } else {
      var n := |b| - 1;
      assert (a + b)[..|a + b| - 1] == a + b[..n];
      ReadOnAppend(r, a, b[..n]);
    }
  }

  lemma ReadOnOne(r: Reading, c: char)
    requires r.words != []
    ensures ReadOn(r, [c]) == Extend(r, c)
  {
  }

  lemma {:induction false} ReadOnSingle(r: Reading, run: string)
    requires r.words != [] && r.ending == OpenSingle("") && '\'' !in run
    ensures ReadOn(r, run) == r.(ending := OpenSingle(run))
  {
    if run != "" {
      var n := |run| - 1;
      ReadOnSingle(r, run[..n]);
      assert run[..n] + [run[n]] == run;
    }
  }

  lemma {:induction false} ReadOnInner(r: Reading, inner: seq<Inner>)
    requires r.words != [] && r.ending == OpenDouble([], false) && InnerOk(inner)
    ensures ReadOn(r, RenderInner(inner)) == r.(ending := OpenDouble(inner, false))
  {
    if inner != [] {
      var n := |inner| - 1;
      ReadOnInner(r, inner[..n]);
      assert inner[..n] + [inner[n]] == inner;
      var t := r.(ending := OpenDouble(inner[..n], false));
      match inner[n] {
        case Literal(c) =>
          ReadOnAppend(r, RenderInner(inner[..n]), [c]);
          ReadOnOne(t, c);
        case Escape(c) =>
          ReadOnAppend(r, RenderInner(inner[..n]), ['\\', c]);
          ReadOnTwo(t, '\\', c);
      }
    }
  }

  lemma ReadOnTwo(r: Reading, c: char, d: char)
    requires r.words != []
    ensures ReadOn(r, [c, d]) == Extend(Extend(r, c), d)
  {
    assert [c, d][..1] == [c];
    ReadOnOne(r, c);
  }

  lemma ReadOnOpenSingle(r: Reading, run: string)
    requires r.words != [] && r.ending == Closed && '\'' !in run
    ensures ReadOn(r, "'" + run) == r.(ending := OpenSingle(run))
  {
    ReadOnOne(r, '\'');
    ReadOnAppend(r, "'", run);
    ReadOnSingle(r.(ending := OpenSingle("")), run);
  }

  lemma ReadOnOpenDouble(r: Reading, inner: seq<Inner>)
    requires r.words != [] && r.ending == Closed && InnerOk(inner)
    ensures ReadOn(r, "\"" + RenderInner(inner)) == r.(ending := OpenDouble(inner, false))
  {
    ReadOnOne(r, '"');
    ReadOnAppend(r, "\"", RenderInner(inner));
    ReadOnInner(r.(ending := OpenDouble([], false)), inner);
  }

  lemma ReadOnPiece(r: Reading, p: Piece)
    requires r.words != [] && r.ending == Closed && PieceOk(p)
    ensures ReadOn(r, RenderPiece(p)) == Reading(ExtendLast(r.words, p), Closed)
  {
    match p {
      case Plain(c) => ReadOnOne(r, c);
      case Backslash(c) => ReadOnTwo(r, '\\', c);
      case Single(run) =>
        ReadOnOpenSingle(r, run);
        ReadOnAppend(r, "'" + run, "'");
        ReadOnOne(r.(ending := OpenSingle(run)), '\'');
      case Double(inner) =>
        ReadOnOpenDouble(r, inner);
        ReadOnAppend(r, "\"" + RenderInner(inner), "\"");
        ReadOnOne(r.(ending := OpenDouble(inner, false)), '"');
    }
  }

  lemma {:induction false} ReadOnWord(before: seq<seq<Piece>>, ps: seq<Piece>)
    requires WordOk(ps)
    ensures ReadOn(Reading(before + [[]], Closed), RenderWord(ps)) == Reading(before + [ps], Closed)
  {
    hide PieceOk, RenderPiece, Extend;
    if ps != [] {
      var n := |ps| - 1;
      var r := Reading(before + [[]], Closed);
      ReadOnWord(before, ps[..n]);
      ReadOnAppend(r, RenderWord(ps[..n]), RenderPiece(ps[n]));
      ReadOnPiece(Reading(before + [ps[..n]], Closed), ps[n]);
      assert ps[..n] + [ps[n]] == ps;
      assert ExtendLast(before + [ps[..n]], ps[n]) == before + [ps];
    }
  }

  lemma {:induction false} ReadOnWords(words: seq<seq<Piece>>)
    requires words != [] && forall i :: 0 <= i < |words| ==> WordOk(words[i])
    ensures ReadOn(Reading([[]], Closed), Join(words)) == Reading(words, Closed)
  {
    hide WordOk, RenderWord, Extend;
    var r, n := Reading([[]], Closed), |words| - 1;
    var before := words[..n];
    assert before + [words[n]] == words;
    ReadOnWord(before, words[n]);
    if n == 0 {
      assert before + [[]] == [[]];
    } else {
      ReadOnWords(before);
      SpaceIsNewWord(before);
      ReadOnAppend(r, Join(before), " ");
      ReadOnAppend(r, Join(before) + " ", RenderWord(words[n]));
    }
  }

  lemma SpaceIsNewWord(words: seq<seq<Piece>>)
    requires words != []
    ensures ReadOn(Reading(words, Closed), " ") == Reading(words + [[]], Closed)
  {
  }

  lemma ReadOnEnding(words: seq<seq<Piece>>, e: Ending)
    requires words != [] && EndingOk(e)
    ensures ReadOn(Reading(words, Closed), RenderEnding(e)) == Reading(words, e)
  {
    var r := Reading(words, Closed);
    match e {
      case Closed =>
      case Dangling => ReadOnOne(r, '\\');
      case OpenSingle(run) => ReadOnOpenSingle(r, run);
      case OpenDouble(inner, dangling) =>
        var open := "\"" + RenderInner(inner);
        ReadOnOpenDouble(r, inner);
        ReadOnAppend(r, open, "\\");
        ReadOnOne(r.(ending := OpenDouble(inner, false)), '\\');
        assert open + "" == open;
    }
  }

  /** The grammar is unambiguous: a command line has no reading but the one that Read
      finds, so the meaning of a command line is one. */
  lemma ReadingIsUnique(r: Reading)
    requires r.Ok()
    ensures Read(r.Render()) == r
  {
    var start := Reading([[]], Closed);
    ReadOnAppend(start, Join(r.words), RenderEnding(r.ending));
    ReadOnWords(r.words);
    ReadOnEnding(r.words, r.ending);
  }

  // ---------- round trips ----------

  function Spaces(n: nat): string {
    if n == 0 then "" else Spaces(n - 1) + " "
  }

  /** gaps[0] spaces, the first word, gaps[1] spaces, ..., the last word and the last gap. */
  function Line(words: seq<seq<Piece>>, gaps: seq<nat>): string
    requires |gaps| == |words| + 1
  {
    if words == [] then Spaces(gaps[0])
    else
      var n := |words| - 1;
      Line(words[..n], gaps[..n + 1]) + RenderWord(words[n]) + Spaces(gaps[n + 1])
  }

  /** Words are kept apart: between two of them there is at least one space. */
  predicate Apart(words: seq<seq<Piece>>, gaps: seq<nat>) {
    |gaps| == |words| + 1 && forall i :: 0 < i < |words| ==> gaps[i] > 0
  }

  lemma {:induction false} ScanSpaces(s: Scan, n: nat)
    requires s.Safe()
    ensures Run(s, Spaces(n)) == if n == 0 then s else s.(word := "", words := s.Flushed())
  {
    if n > 0 {
      ScanSpaces(s, n - 1);
      RunAppend(s, Spaces(n - 1), " ");
      RunOne(Run(s, Spaces(n - 1)), ' ');
    }
  }

  lemma {:induction false} ScanLine(words: seq<seq<Piece>>, gaps: seq<nat>)
    requires Apart(words, gaps) && forall i :: 0 <= i < |words| ==> WordOk(words[i])
    ensures var s := Run(START, Line(words, gaps));
            && s.Safe() && s.Flushed() == NonEmpty(Texts(words))
            && (gaps[|words|] > 0 || words == [] ==> s.word == "")
  {
    if words == [] {
      ScanSpaces(START, gaps[0]);
    } else {
      var n := |words| - 1;
      var before := Line(words[..n], gaps[..n + 1]);
      ScanLine(words[..n], gaps[..n + 1]);
      var s := Run(START, before);
      RunAppend(START, before, RenderWord(words[n]));
      ScanWord(s, words[n]);
      assert "" + Text(words[n]) == Text(words[n]);
      RunAppend(START, before + RenderWord(words[n]), Spaces(gaps[n + 1]));
      ScanSpaces(s.(word := Text(words[n])), gaps[n + 1]);
      NonEmptySnoc(Texts(words[..n]), Text(words[n]));
    }
  }

  /** Round trip over all quotings: quote each argument in any way at all, put any
      spaces around them and at least one between them, and splitting gives back the
      arguments, except the empty ones. */
  lemma SplitUndoesQuoting(args: seq<string>, words: seq<seq<Piece>>, gaps: seq<nat>)
    requires Apart(words, gaps) && forall i :: 0 <= i < |words| ==> WordOk(words[i])
    requires Texts(words) == args
    ensures Split(Line(words, gaps)) == NonEmpty(args)
  {
    ScanLine(words, gaps);
  }

  lemma {:induction false} NonEmptyKeepsAllExactly(args: seq<string>)
    ensures NonEmpty(args) == args <==> NoneEmpty(args)
    ensures |NonEmpty(args)| <= |args|
  {
    if args != [] {
      var n := |args| - 1;
      NonEmptyKeepsAllExactly(args[..n]);
      if NoneEmpty(args[..n]) && args[n] != "" {
        forall i | 0 <= i < |args| ensures args[i] != "" {
          assert i < n ==> args[i] == args[..n][i];
        }
      }
    }
  }

  /** So quoting loses nothing exactly when no argument is empty: there is no way to
      write an empty argument. */
  lemma QuotingRoundTripExactly(args: seq<string>, words: seq<seq<Piece>>, gaps: seq<nat>)
    requires Apart(words, gaps) && forall i :: 0 <= i < |words| ==> WordOk(words[i])
    requires Texts(words) == args
    ensures Split(Line(words, gaps)) == args <==> NoneEmpty(args)
  {
    SplitUndoesQuoting(args, words, gaps);
    NonEmptyKeepsAllExactly(args);
  }

  /** Splitting is stable: quote the arguments of any split again, in any way, and
      the same arguments come back. */
  lemma SplitIsStable(cmd: string, words: seq<seq<Piece>>, gaps: seq<nat>)
    requires Apart(words, gaps) && forall i :: 0 <= i < |words| ==> WordOk(words[i])
    requires Texts(words) == Split(cmd)
    ensures Split(Line(words, gaps)) == Split(cmd)
  {
    SplitConserves(cmd);
    QuotingRoundTripExactly(Split(cmd), words, gaps);
  }

  /** Some quoting always exists: a backslash before every character. */
  function Escaped(arg: string): seq<Piece> {
    if arg == "" then [] else Escaped(arg[..|arg| - 1]) + [Backslash(arg[|arg| - 1])]
  }

  lemma {:induction false} EscapedHasText(arg: string)
    ensures WordOk(Escaped(arg)) && Text(Escaped(arg)) == arg
  {
    if arg != "" {
      var n := |arg| - 1;
      EscapedHasText(arg[..n]);
      var front, last := Escaped(arg[..n]), Backslash(arg[n]);
      assert (front + [last])[..|front|] == front;
      assert Text(front + [last]) == Text(front) + [arg[n]];
    }
  }
}
