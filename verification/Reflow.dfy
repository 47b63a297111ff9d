/** Logical blocks up to whitespace: how a declaration is laid out over lines does not
    matter. */
module Reflow {
  import opened Text
  import opened Braces
  import opened Blocks

  function NormAll(bs: seq<Block>): seq<string> {
    if bs == [] then [] else [Normalise(Rendered(bs[0]))] + NormAll(bs[1..])
  }

  lemma {:induction false} NormConcat(a: seq<Block>, b: seq<Block>)
    ensures NormAll(a + b) == NormAll(a) + NormAll(b)
  {
    if a == [] {
      assert a + b == b;
    } else {
      DropConcat(a, b, 1);
      NormConcat(a[1..], b);
      Assoc([Normalise(Rendered(a[0]))], NormAll(a[1..]), NormAll(b));
    }
  }

  // ---- the joiner seen through normalisation ----

  /** What matters of the pending lines: whether there are any, their normalised text, the
      pen that wrote it, and the depth counter. */
  datatype View = View(empty: bool, ink: string, pen: Pen, depth: int)

  const BLANK := View(true, "", Start, 0)

  function ViewOf(p: Pend): View {
    var t := Join(p.buf, " ");
    View(p.buf == [], Written(Start, t), After(Start, t), p.depth)
  }

  /** The pen after the space that separates the next line. */
  function Resumed(v: View): Pen {
    if v.empty then Start else Next(v.pen, ' ')
  }

  function Append(v: View, line: string): View {
    View(false, v.ink + Written(Resumed(v), line), After(Resumed(v), line), v.depth + Net(line))
  }

  function Made(v: View, raw: string): seq<string> {
    var line := RStrip(raw);
    if line == [] then []
    else if IsDirective(line) then
      (if v.depth == 0 && !v.empty then [v.ink] else []) + [Normalise(line)]
    else if v.depth + Net(line) == 0 && Terminal(line) then [Append(v, line).ink]
    else []
  }

  function Moved(v: View, raw: string): View {
    var line := RStrip(raw);
    if line == [] then v
    else if IsDirective(line) then (if v.depth == 0 then BLANK else v)
    else if v.depth + Net(line) == 0 && Terminal(line) then BLANK
    else Append(v, line)
  }

  function MadeBy(v: View, s: string): seq<string>
    decreases |s|
  {
    if s == [] then [] else Made(v, FirstLine(s)) + MadeBy(Moved(v, FirstLine(s)), LaterLines(s))
  }

  function MovedBy(v: View, s: string): View
    decreases |s|
  {
    if s == [] then v else MovedBy(Moved(v, FirstLine(s)), LaterLines(s))
  }

  function Last(v: View): seq<string> {
    if v.empty then [] else [v.ink]
  }

  /** The normalised blocks, computed without keeping any line. */
  function Normals(text: string): seq<string> {
    MadeBy(BLANK, text) + Last(MovedBy(BLANK, text))
  }

  lemma ViewOfSnoc(p: Pend, line: string)
    ensures ViewOf(Pend(p.buf + [line], p.depth + Net(line))) == Append(ViewOf(p), line)
  {
    if p.buf == [] {
      assert p.buf + [line] == [line];
    } else {
      JoinSnoc(p.buf, line, " ");
      var t := Join(p.buf, " ");
      WrittenConcat(Start, t, " " + line);
      assert (" " + line)[1..] == line;
      assert Written(After(Start, t), " " + line) == Written(Next(After(Start, t), ' '), line);
      assert After(After(Start, t), " " + line) == After(Next(After(Start, t), ' '), line);
    }
  }

  lemma NormOne(b: Block)
    ensures NormAll([b]) == [Normalise(Rendered(b))]
  {
    assert [b][1..] == [];
  }

  lemma StepSimulates(p: Pend, raw: string)
    ensures NormAll(Completed(p, raw)) == Made(ViewOf(p), raw)
    ensures ViewOf(Following(p, raw)) == Moved(ViewOf(p), raw)
  {
    var line := RStrip(raw);
    if IsDirective(line) {
      FlushSimulates(p);
      NormOne(Directive(line));
      NormConcat(if p.depth == 0 then Flush(p) else [], [Directive(line)]);
    } else {
      ViewOfSnoc(p, line);
      GroupInk(p.buf + [line], p.depth + Net(line));
    }
  }

  lemma GroupInk(buf: seq<string>, depth: int)
    ensures NormAll([Group(buf)]) == [ViewOf(Pend(buf, depth)).ink]
  {
    NormaliseIsWritten(Join(buf, " "));
    NormOne(Group(buf));
  }

  lemma FlushSimulates(p: Pend)
    ensures NormAll(Flush(p)) == if ViewOf(p).empty then [] else [ViewOf(p).ink]
  {
    GroupInk(p.buf, p.depth);
  }

  lemma {:induction false} Simulates(p: Pend, s: string)
    ensures NormAll(Emitted(p, s)) == MadeBy(ViewOf(p), s)
    ensures ViewOf(Left(p, s)) == MovedBy(ViewOf(p), s)
    decreases |s|
  {
    if s != [] {
      var raw := FirstLine(s);
      StepSimulates(p, raw);
      Simulates(Following(p, raw), LaterLines(s));
      NormConcat(Completed(p, raw), Emitted(Following(p, raw), LaterLines(s)));
    }
  }

  /** The line-free machine computes exactly the normalised blocks of the joiner. */
  lemma NormalsAreNormalised(text: string)
    ensures Normals(text) == NormAll(BlocksOf(text))
  {
    Simulates(FRESH, text);
    var q := Left(FRESH, text);
    NormConcat(Emitted(FRESH, text), Flush(q));
    NormOne(Group(q.buf));
    NormaliseIsWritten(Join(q.buf, " "));
  }

  lemma {:induction false} MadeConcat(v: View, a: string, b: string)
    requires EndsWithBreak(a)
    ensures MadeBy(v, a + b) == MadeBy(v, a) + MadeBy(MovedBy(v, a), b)
    ensures MovedBy(v, a + b) == MovedBy(MovedBy(v, a), b)
    decreases |a|
  {
    if a == [] {
      assert a + b == b;
    } else {
      LaterEndsWithBreak(a);
      FirstLineConcat(a, b);
      LaterLinesConcat(a, b);
      var q, l := Moved(v, FirstLine(a)), LaterLines(a);
      MadeConcat(q, l, b);
      Assoc(Made(v, FirstLine(a)), MadeBy(q, l), MadeBy(MovedBy(q, l), b));
    }
  }

  // ---- breaking a line ----

  lemma {:induction false} NetBlank(w: string)
    requires AllSpace(w)
    ensures Net(w) == 0
  {
    if w != [] { NetBlank(w[1..]); }
  }

  lemma RStripFacts(s: string)
    ensures Net(RStrip(s)) == Net(s)
    ensures forall p: Pen :: Written(p, RStrip(s)) == Written(p, s)
    ensures RStrip(s) == [] <==> AllSpace(s)
    ensures RStrip(s) != [] ==> RStrip(s)[0] == s[0]
    ensures forall p: Pen :: RStrip(s) != [] ==> After(p, RStrip(s)) == Ink
  {
    var w := RStripSplit(s);
    var r := RStrip(s);
    NetConcat(r, w);
    NetBlank(w);
    forall p: Pen ensures Written(p, r) == Written(p, s) {
      WrittenConcat(p, r, w);
      WrittenBlank(After(p, r), w);
    }
    forall p: Pen ensures r != [] ==> After(p, r) == Ink {
      if r != [] { AfterInk(p, r); }
    }
    if r == [] {
      assert s == w;
    }
  }

  lemma {:induction false} AfterInk(p: Pen, s: string)
    requires s != [] && !IsSpace(s[|s| - 1])
    ensures After(p, s) == Ink
    decreases s
  {
    if |s| > 1 {
      AfterInk(Next(p, s[0]), s[1..]);
    } else {
      assert s[1..] == [];
    }
  }

  /** A line written in two pieces, with one blank between them. */
  lemma InkOfSplit(p: Pen, l: string, w: char, r: string)
    requires IsSpace(w)
    ensures !AllSpace(l) ==>
              && Written(p, l + ([w] + r)) == Written(p, l) + Written(Gap, r)
              && After(p, l + ([w] + r)) == After(Gap, r)
    ensures AllSpace(l) && !p.Ink? ==>
              && Written(p, l + ([w] + r)) == Written(p, r)
              && After(p, l + ([w] + r)) == After(p, r)
  {
    WrittenConcat(p, l, [w] + r);
    assert ([w] + r)[1..] == r;
    var q := After(p, l);
    assert Written(q, [w] + r) == Written(Next(q, w), r) && After(q, [w] + r) == After(Next(q, w), r);
    if AllSpace(l) {
      WrittenBlank(p, l);
    } else {
      NotStart(p, l);
    }
  }

  lemma {:induction false} NotStart(p: Pen, s: string)
    requires !p.Start? || !AllSpace(s)
    ensures !After(p, s).Start?
    decreases s
  {
    if s != [] { NotStart(Next(p, s[0]), s[1..]); }
  }

  lemma RStripOfSplit(l: string, w: char, r: string)
    requires IsSpace(w)
    ensures RStrip(l + ([w] + r)) == if AllSpace(r) then RStrip(l) else l + ([w] + RStrip(r))
  {
    if AllSpace(r) {
      var x := RStripSplit(l);
      StripTrailing(RStrip(l), x + ([w] + r));
      Assoc(RStrip(l), x, [w] + r);
    } else {
      var x := RStripSplit(r);
      RStripFacts(r);
      var y := l + ([w] + RStrip(r));
      StripTrailing(y, x);
      Assoc([w], RStrip(r), x);
      Assoc(l, [w] + RStrip(r), x);
    }
  }

  /** Breaking the line `l w r` at its blank `w`, when the counter stands at `depth`: the
      right piece is blank, or neither piece starts a directive and the left piece does not
      itself end a block. */
  predicate MayBreak(depth: int, l: string, r: string) {
    || AllSpace(r)
    || (&& !IsDirective(RStrip(l))
        && r[0] != '#'
        && !(depth + Net(l) == 0 && Terminal(RStrip(l))))
  }

  /** A line `l w r` with `r` trimmed and not blank. */
  lemma LongLine(l: string, w: char, r: string)
    requires IsSpace(w) && r != [] && !IsSpace(r[|r| - 1])
    ensures var line := l + ([w] + r);
            && line != [] && Net(line) == Net(l) + Net(r) && Terminal(line) == Terminal(r)
            && (IsDirective(line) <==> IsDirective(l))
  {
    NetConcat(l, [w] + r);
    assert ([w] + r)[1..] == r;
  }

  lemma AppendSplit(v: View, l: string, w: char, r: string)
    requires IsSpace(w)
    ensures AllSpace(l) ==> Append(v, l + ([w] + r)) == Append(v, r)
    ensures !AllSpace(l) ==> Append(v, l + ([w] + r)) == Append(Append(v, RStrip(l)), r)
  {
    NetConcat(l, [w] + r);
    assert ([w] + r)[1..] == r;
    InkOfSplit(Resumed(v), l, w, r);
    RStripFacts(l);
    if AllSpace(l) {
      NetBlank(l);
    } else {
      Assoc(v.ink, Written(Resumed(v), l), Written(Gap, r));
    }
  }

  lemma DirectiveRStrip(l: string)
    ensures IsDirective(RStrip(l)) <==> IsDirective(l)
  {
    RStripFacts(l);
  }

  /** What a line that is neither blank nor a directive does. */
  lemma PlainLine(v: View, raw: string, line: string)
    requires line == RStrip(raw) != [] && !IsDirective(line)
    ensures v.depth + Net(line) == 0 && Terminal(line) ==>
              Made(v, raw) == [Append(v, line).ink] && Moved(v, raw) == BLANK
    ensures !(v.depth + Net(line) == 0 && Terminal(line)) ==> Made(v, raw) == [] && Moved(v, raw) == Append(v, line)
  {
  }

  /** A left piece that may be broken off only joins the pending text. */
  lemma LeftPiece(v: View, l: string, r: string)
    requires MayBreak(v.depth, l, r) && !AllSpace(r)
    ensures Made(v, l) == [] && Moved(v, l) == (if AllSpace(l) then v else Append(v, RStrip(l)))
    ensures Moved(v, l).depth == v.depth + Net(l) && !IsDirective(l)
  {
    RStripFacts(l);
    DirectiveRStrip(l);
    if AllSpace(l) {
      NetBlank(l);
    } else {
      PlainLine(v, l, RStrip(l));
    }
  }

  lemma BrokenInTwo(v: View, l: string, w: char, r: string)
    requires IsSpace(w) && MayBreak(v.depth, l, r) && !AllSpace(r)
    ensures Made(v, l + ([w] + r)) == Made(v, l) + Made(Moved(v, l), r)
    ensures Moved(v, l + ([w] + r)) == Moved(Moved(v, l), r)
  {
    LeftPiece(v, l, r);
    RStripFacts(r);
    DirectiveRStrip(r);
    var x := RStripSplit(r);
    var r' := RStrip(r);
    RStripOfSplit(l, w, r);
    LongLine(l, w, r');
    AppendSplit(v, l, w, r');
    PlainLine(v, l + ([w] + r), l + ([w] + r'));
    PlainLine(Moved(v, l), r, r');
    assert [] + Made(Moved(v, l), r) == Made(Moved(v, l), r);
  }

  lemma BrokenLine(v: View, l: string, w: char, r: string)
    requires IsSpace(w) && MayBreak(v.depth, l, r)
    ensures Made(v, l + ([w] + r)) == Made(v, l) + Made(Moved(v, l), r)
    ensures Moved(v, l + ([w] + r)) == Moved(Moved(v, l), r)
  {
    if AllSpace(r) {
      RStripOfSplit(l, w, r);
      RStripFacts(r);
    } else {
      BrokenInTwo(v, l, w, r);
    }
  }

  predicate Breakless(s: string) {
    forall i :: 0 <= i < |s| ==> !IsBreak(s[i])
  }

  predicate StartsWithBreak(s: string) {
    s == [] || IsBreak(s[0])
  }

  lemma {:induction false} BreakAtBreakless(l: string, q: string)
    requires Breakless(l) && StartsWithBreak(q)
    ensures BreakAt(l + q) == |l|
  {
    if l == [] {
      assert l + q == q;
    } else {
      DropConcat(l, q, 1);
      BreakAtBreakless(l[1..], q);
    }
  }

  /** The text after the break that `q` starts with. */
  function PastBreak(q: string): string {
    if q == [] then "" else q[1..]
  }

  lemma SplitFirstLine(l: string, q: string)
    requires Breakless(l) && StartsWithBreak(q)
    ensures FirstLine(l + q) == l && LaterLines(l + q) == PastBreak(q)
  {
    BreakAtBreakless(l, q);
    if q != [] {
      assert (l + q)[|l| + 1..] == q[1..];
    }
  }

  /** One line, then the rest. */
  lemma OneLine(v: View, l: string, q: string)
    requires Breakless(l) && StartsWithBreak(q)
    ensures MadeBy(v, l + q) == Made(v, l) + MadeBy(Moved(v, l), PastBreak(q))
    ensures MovedBy(v, l + q) == MovedBy(Moved(v, l), PastBreak(q))
  {
    SplitFirstLine(l, q);
    if l + q == [] {
      assert Made(v, "") == [] && Moved(v, "") == v;
    }
  }

  lemma BrokenTail(v: View, l: string, w: char, r: string, q: string)
    requires Breakless(l) && Breakless(r) && StartsWithBreak(q)
    requires IsSpace(w) && !IsBreak(w) && MayBreak(v.depth, l, r)
    ensures MadeBy(v, l + ([w] + r) + q) == MadeBy(v, l + ("\n" + (r + q)))
    ensures MovedBy(v, l + ([w] + r) + q) == MovedBy(v, l + ("\n" + (r + q)))
  {
    BreaklessSplit(l, w, r);
    OneLine(v, l + ([w] + r), q);
    TwoLines(v, l, r, q);
    BrokenLine(v, l, w, r);
  }

  lemma BreaklessSplit(l: string, w: char, r: string)
    requires Breakless(l) && Breakless(r) && !IsBreak(w)
    ensures Breakless(l + ([w] + r))
  {
  }

  lemma TwoLines(v: View, l: string, r: string, q: string)
    requires Breakless(l) && Breakless(r) && StartsWithBreak(q)
    ensures var u := Moved(Moved(v, l), r);
            && MadeBy(v, l + ("\n" + (r + q))) == (Made(v, l) + Made(Moved(v, l), r)) + MadeBy(u, PastBreak(q))
            && MovedBy(v, l + ("\n" + (r + q))) == MovedBy(u, PastBreak(q))
  {
    OneLine(v, l, "\n" + (r + q));
    assert PastBreak("\n" + (r + q)) == r + q;
    OneLine(Moved(v, l), r, q);
    Assoc(Made(v, l), Made(Moved(v, l), r), MadeBy(Moved(Moved(v, l), r), PastBreak(q)));
  }

  /** Reflow: breaking a line at a blank leaves the normalised blocks as they were. */
  lemma ReflowKeepsBlocks(p: string, l: string, w: char, r: string, q: string)
    requires EndsWithBreak(p) && Breakless(l) && Breakless(r) && StartsWithBreak(q)
    requires IsSpace(w) && !IsBreak(w)
    requires MayBreak(MovedBy(BLANK, p).depth, l, r)
    ensures Normals(p + (l + ([w] + r) + q)) == Normals(p + (l + ("\n" + (r + q))))
  {
    MadeConcat(BLANK, p, l + ([w] + r) + q);
    MadeConcat(BLANK, p, l + ("\n" + (r + q)));
    BrokenTail(MovedBy(BLANK, p), l, w, r, q);
  }

  // ---- a blank before a blank ----

  lemma AppendTwice(v: View, l: string, r: string)
    ensures Append(v, l + (" " + (" " + r))) == Append(v, l + (" " + r))
  {
    AppendSplit(v, l, ' ', " " + r);
    AppendSplit(v, l, ' ', r);
    assert "" + (" " + r) == " " + r;
    AppendSplit(v, "", ' ', r);
    AppendSplit(Append(v, RStrip(l)), "", ' ', r);
  }

  lemma NormaliseTwice(l: string, r: string)
    ensures Normalise(l + (" " + (" " + r))) == Normalise(l + (" " + r))
  {
    NormaliseIsWritten(l + (" " + (" " + r)));
    NormaliseIsWritten(l + (" " + r));
    InkOfSplit(Start, l, ' ', " " + r);
    InkOfSplit(Start, l, ' ', r);
    assert "" + (" " + r) == " " + r;
    InkOfSplit(Start, "", ' ', r);
    InkOfSplit(Gap, "", ' ', r);
  }

  lemma SameTrimmed(v: View, s: string, t: string)
    requires RStrip(s) == RStrip(t)
    ensures Made(v, s) == Made(v, t) && Moved(v, s) == Moved(v, t)
  {
  }

  lemma LikeLines(v: View, s: string, t: string, s': string, t': string)
    requires RStrip(s) == s' != [] && RStrip(t) == t' != []
    requires Append(v, s') == Append(v, t') && Normalise(s') == Normalise(t') && Net(s') == Net(t')
    requires Terminal(s') == Terminal(t') && (IsDirective(s') <==> IsDirective(t'))
    ensures Made(v, s) == Made(v, t) && Moved(v, s) == Moved(v, t)
  {
  }

  lemma TrimmedTwice(v: View, l: string, r: string)
    requires r != [] && !IsSpace(r[|r| - 1])
    ensures var s, t := l + (" " + (" " + r)), l + (" " + r);
            && Append(v, s) == Append(v, t) && Normalise(s) == Normalise(t) && Net(s) == Net(t)
            && Terminal(s) == Terminal(t) && (IsDirective(s) <==> IsDirective(t))
  {
    AppendTwice(v, l, r);
    NormaliseTwice(l, r);
    LongLine(l, ' ', " " + r);
    LongLine(l, ' ', r);
    assert (" " + r)[1..] == r;
  }

  lemma SpaceBefore(r: string)
    ensures AllSpace(" " + r) <==> AllSpace(r)
    ensures !AllSpace(r) ==> RStrip(" " + r) == " " + RStrip(r)
  {
    assert (" " + r)[1..] == r;
    assert "" + (" " + r) == " " + r && "" + (" " + RStrip(r)) == " " + RStrip(r);
    RStripOfSplit("", ' ', r);
  }

  lemma TrimmedSecondSpace(l: string, r: string)
    ensures AllSpace(r) ==> RStrip(l + (" " + (" " + r))) == RStrip(l + (" " + r))
    ensures !AllSpace(r) ==> RStrip(l + (" " + (" " + r))) == l + (" " + (" " + RStrip(r)))
    ensures !AllSpace(r) ==> RStrip(l + (" " + r)) == l + (" " + RStrip(r))
  {
    SpaceBefore(r);
    RStripOfSplit(l, ' ', " " + r);
    RStripOfSplit(l, ' ', r);
  }

  /** A second space in a line changes nothing. */
  lemma SecondSpace(v: View, l: string, r: string)
    ensures var s, t := l + (" " + (" " + r)), l + (" " + r); Made(v, s) == Made(v, t) && Moved(v, s) == Moved(v, t)
  {
    TrimmedSecondSpace(l, r);
    if AllSpace(r) {
      SameTrimmed(v, l + (" " + (" " + r)), l + (" " + r));
    } else {
      LastOfTrimmed(r);
      TrimmedTwice(v, l, RStrip(r));
      LikeLines(v, l + (" " + (" " + r)), l + (" " + r), l + (" " + (" " + RStrip(r))), l + (" " + RStrip(r)));
    }
  }

  lemma SecondSpaceTail(v: View, l: string, r: string, q: string)
    requires Breakless(l) && Breakless(r) && StartsWithBreak(q)
    ensures MadeBy(v, l + (" " + (" " + (r + q)))) == MadeBy(v, l + (" " + (r + q)))
    ensures MovedBy(v, l + (" " + (" " + (r + q)))) == MovedBy(v, l + (" " + (r + q)))
  {
    SecondSpace(v, l, r);
    BreaklessSplit("", ' ', r);
    assert "" + (" " + r) == " " + r;
    SpacedLine(v, l, r, q);
    SpacedLine(v, l, " " + r, q);
    Assoc(" ", r, q);
  }

  lemma SpacedLine(v: View, l: string, r: string, q: string)
    requires Breakless(l) && Breakless(r) && StartsWithBreak(q)
    ensures var s := l + (" " + r);
            && MadeBy(v, l + (" " + (r + q))) == Made(v, s) + MadeBy(Moved(v, s), PastBreak(q))
            && MovedBy(v, l + (" " + (r + q))) == MovedBy(Moved(v, s), PastBreak(q))
  {
    BreaklessSplit(l, ' ', r);
    OneLine(v, l + (" " + r), q);
    Assoc(" ", r, q);
    Assoc(l, " " + r, q);
  }

  lemma TrailingSpaceTail(v: View, l: string, q: string)
    requires Breakless(l) && q != [] && IsBreak(q[0])
    ensures MadeBy(v, l + (" " + q)) == MadeBy(v, l + q) && MovedBy(v, l + (" " + q)) == MovedBy(v, l + q)
  {
    assert " " + "" == " ";
    RStripOfSplit(l, ' ', "");
    SameTrimmed(v, l + " ", l);
    OneLine(v, l + " ", q);
    OneLine(v, l, q);
    Assoc(l, " ", q);
  }

  lemma EmptyLine(v: View, q: string)
    requires StartsWithBreak(q)
    ensures MadeBy(v, q) == MadeBy(v, PastBreak(q)) && MovedBy(v, q) == MovedBy(v, PastBreak(q))
  {
    assert "" + q == q;
    OneLine(v, "", q);
    assert Made(v, "") == [] && Moved(v, "") == v;
    assert [] + MadeBy(v, PastBreak(q)) == MadeBy(v, PastBreak(q));
  }

  lemma EmptyLineTail(v: View, l: string, q: string)
    requires Breakless(l) && q != [] && IsBreak(q[0])
    ensures MadeBy(v, l + ("\n" + q)) == MadeBy(v, l + q) && MovedBy(v, l + ("\n" + q)) == MovedBy(v, l + q)
  {
    OneLine(v, l, "\n" + q);
    OneLine(v, l, q);
    assert PastBreak("\n" + q) == q;
    EmptyLine(Moved(v, l), q);
  }

  /** A space before a space or a break, or an empty line, can be taken out. */
  predicate Spare(w: char, y: string) {
    y != [] && ((w == ' ' && (y[0] == ' ' || IsBreak(y[0]))) || (w == '\n' && IsBreak(y[0])))
  }

  lemma SpareTail(v: View, l: string, w: char, y: string)
    requires Breakless(l) && Spare(w, y)
    ensures MadeBy(v, l + ([w] + y)) == MadeBy(v, l + y) && MovedBy(v, l + ([w] + y)) == MovedBy(v, l + y)
  {
    if w == '\n' {
      EmptyLineTail(v, l, y);
    } else if IsBreak(y[0]) {
      TrailingSpaceTail(v, l, y);
    } else {
      var r := y[1..];
      var n := BreakAt(r);
      BeforeBreak(r);
      if n < |r| { BreakAtIsBreak(r); }
      assert y == " " + r && r == r[..n] + r[n..];
      SecondSpaceTail(v, l, r[..n], r[n..]);
    }
  }

  lemma SpareKeepsBlocks(p: string, l: string, w: char, y: string)
    requires EndsWithBreak(p) && Breakless(l) && Spare(w, y)
    ensures Normals(p + (l + ([w] + y))) == Normals(p + (l + y))
  {
    MadeConcat(BLANK, p, l + ([w] + y));
    MadeConcat(BLANK, p, l + y);
    SpareTail(MovedBy(BLANK, p), l, w, y);
  }

  // ---- a chunk that makes one block ----

  predicate Closes(c: char) {
    c == ';' || c == '}'
  }

  /** At every line break of `s` the depth is positive, or nothing that could close a block
      has been read yet (`clean`). */
  predicate Quiet(d: int, clean: bool, s: string)
    decreases s
  {
    s == [] || ((IsBreak(s[0]) ==> d >= 1 || clean) && Quiet(d + Weight(s[0]), clean && !Closes(s[0]), s[1..]))
  }

  predicate Clean(s: string) {
    forall i :: 0 <= i < |s| ==> !Closes(s[i])
  }

  lemma {:induction false} QuietConcat(d: int, clean: bool, a: string, b: string)
    ensures Quiet(d, clean, a + b) <==> Quiet(d, clean, a) && Quiet(d + Net(a), clean && Clean(a), b)
    decreases a
  {
    if a == [] {
      assert a + b == b;
    } else {
      DropConcat(a, b, 1);
      QuietConcat(d + Weight(a[0]), clean && !Closes(a[0]), a[1..], b);
      assert Clean(a) <==> !Closes(a[0]) && Clean(a[1..]) by {
        assert forall i :: 1 <= i < |a| ==> a[i] == a[1..][i - 1];
      }
    }
  }

  /** No line of `s` is a directive. */
  predicate NoDirective(s: string)
    decreases |s|
  {
    s == [] || (!IsDirective(FirstLine(s)) && NoDirective(LaterLines(s)))
  }

  /** The pending text once `t`, breaks and all, has been added to it. */
  function Absorb(v: View, t: string): string {
    v.ink + Written(Resumed(v), t)
  }

  lemma ChunkLastLine(v: View, t: string, q: string)
    requires Breakless(t) && StartsWithBreak(q) && Terminal(t)
    requires v.depth + Net(t) == 0 && !IsDirective(t)
    ensures MadeBy(v, t + q) == [Absorb(v, t)] + MadeBy(BLANK, PastBreak(q))
    ensures MovedBy(v, t + q) == MovedBy(BLANK, PastBreak(q))
  {
    OneLine(v, t, q);
    assert RStrip(t) == t;
    PlainLine(v, t, t);
  }

  /** A line with ink that does not end a block is added to the pending one. */
  lemma InkedLine(v: View, line: string)
    requires !IsDirective(line) && !AllSpace(line) && (v.depth + Net(line) != 0 || Clean(line))
    ensures var u := Moved(v, line);
            && Made(v, line) == [] && u.ink == v.ink + Written(Resumed(v), line)
            && Resumed(u) == Gap && u.depth == v.depth + Net(line)
  {
    RStripFacts(line);
    DirectiveRStrip(line);
    var x := RStripSplit(line);
    var r := RStrip(line);
    assert Terminal(r) ==> !Clean(line) by {
      if Terminal(r) { assert line[|r| - 1] == r[|r| - 1]; }
    }
    PlainLine(v, line, r);
  }

  lemma QuietBreak(d: int, clean: bool, line: string, br: char, t: string)
    requires IsBreak(br) && Quiet(d, clean, line + ([br] + t))
    ensures (d + Net(line) >= 1 || (clean && Clean(line))) && Quiet(d + Net(line), clean && Clean(line), t)
  {
    QuietConcat(d, clean, line, [br] + t);
    assert ([br] + t)[1..] == t;
  }

  /** A line of a quiet chunk is absorbed. */
  lemma ChunkEarlierLine(v: View, clean: bool, line: string, br: char, t: string)
    requires IsBreak(br) && !IsDirective(line)
    requires Quiet(v.depth, clean, line + ([br] + t))
    ensures var u := Moved(v, line);
            && Made(v, line) == [] && Absorb(u, t) == Absorb(v, line + ([br] + t))
            && u.depth == v.depth + Net(line) && Quiet(u.depth, clean && Clean(line), t)
  {
    QuietBreak(v.depth, clean, line, br, t);
    InkOfSplit(Resumed(v), line, br, t);
    if AllSpace(line) {
      RStripFacts(line);
      NetBlank(line);
    } else {
      InkedLine(v, line);
      Assoc(v.ink, Written(Resumed(v), line), Written(Gap, t));
    }
  }

  lemma SplitAtBreak(t: string) returns (line: string, br: char, rest: string)
    requires BreakAt(t) < |t|
    ensures t == line + ([br] + rest) && Breakless(line) && IsBreak(br)
    ensures line == FirstLine(t) && rest == LaterLines(t)
  {
    var n := BreakAt(t);
    line, br, rest := t[..n], t[n], t[n + 1..];
    BeforeBreak(t);
    BreakAtIsBreak(t);
  }

  lemma {:induction false} BeforeBreak(t: string)
    ensures Breakless(t[..BreakAt(t)])
  {
    if t != [] && !IsBreak(t[0]) {
      BeforeBreak(t[1..]);
      assert t[..BreakAt(t)] == [t[0]] + t[1..][..BreakAt(t[1..])];
    }
  }

  lemma {:induction false} ChunkMakesOneBlock(v: View, clean: bool, t: string, q: string)
    requires StartsWithBreak(q) && Terminal(t)
    requires v.depth + Net(t) == 0 && NoDirective(t) && Quiet(v.depth, clean, t)
    ensures MadeBy(v, t + q) == [Absorb(v, t)] + MadeBy(BLANK, PastBreak(q))
    ensures MovedBy(v, t + q) == MovedBy(BLANK, PastBreak(q))
    decreases |t|
  {
    if BreakAt(t) == |t| {
      BeforeBreak(t);
      assert t[..|t|] == t;
      ChunkLastLine(v, t, q);
    } else {
      var line, br, rest := SplitAtBreak(t);
      ChunkEarlierLine(v, clean, line, br, rest);
      ChunkRest(line, br, rest);
      ChunkMakesOneBlock(Moved(v, line), clean && Clean(line), rest, q);
      PastSilentLine(v, line, br, rest, q);
    }
  }

  lemma ChunkRest(line: string, br: char, rest: string)
    requires IsBreak(br) && Terminal(line + ([br] + rest))
    ensures Terminal(rest) && Net(line + ([br] + rest)) == Net(line) + Net(rest)
  {
    var t := line + ([br] + rest);
    NetConcat(line, [br] + rest);
    assert ([br] + rest)[1..] == rest;
    assert t[|t| - 1] == if rest == [] then br else rest[|rest| - 1];
  }

  lemma PastSilentLine(v: View, line: string, br: char, rest: string, q: string)
    requires Breakless(line) && IsBreak(br) && Made(v, line) == []
    ensures MadeBy(v, (line + ([br] + rest)) + q) == MadeBy(Moved(v, line), rest + q)
    ensures MovedBy(v, (line + ([br] + rest)) + q) == MovedBy(Moved(v, line), rest + q)
  {
    Assoc(line, [br] + rest, q);
    Assoc([br], rest, q);
    OneLine(v, line, [br] + (rest + q));
    assert ([br] + (rest + q))[1..] == rest + q;
    assert [] + MadeBy(Moved(v, line), rest + q) == MadeBy(Moved(v, line), rest + q);
  }
}
