/** Joining the lines of a cleaned header into logical blocks. */
module Blocks {
  import opened Text
  import opened Braces

  // ---- lines ----

  /** The index of the first line break, or the length of the text. */
  function BreakAt(s: string): (n: nat)
    ensures n <= |s|
  {
    if s == [] || IsBreak(s[0]) then 0 else 1 + BreakAt(s[1..])
  }

  lemma {:induction false} BreakAtIsBreak(s: string)
    requires BreakAt(s) < |s|
    ensures IsBreak(s[BreakAt(s)])
  {
    if !IsBreak(s[0]) { BreakAtIsBreak(s[1..]); }
  }

  function FirstLine(s: string): string {
    s[..BreakAt(s)]
  }

  /** What follows the first line break. */
  function LaterLines(s: string): (r: string)
    ensures s != [] ==> |r| < |s|
  {
    if BreakAt(s) == |s| then "" else s[BreakAt(s) + 1..]
  }

  // ---- the joiner ----

  datatype Block = Directive(line: string) | Group(lines: seq<string>)

  function Rendered(b: Block): string {
    match b
    case Directive(line) => line
    case Group(lines) => Join(lines, " ")
  }

  function RenderAll(bs: seq<Block>): seq<string> {
    if bs == [] then [] else [Rendered(bs[0])] + RenderAll(bs[1..])
  }

  /** The pending lines and the brace depth counter. */
  datatype Pend = Pend(buf: seq<string>, depth: int)

  const FRESH := Pend([], 0)

  predicate Terminal(line: string) {
    line != [] && (line[|line| - 1] == ';' || line[|line| - 1] == '}')
  }

  predicate IsDirective(line: string) {
    line != [] && line[0] == '#'
  }

  function Flush(p: Pend): seq<Block> {
    if p.buf == [] then [] else [Group(p.buf)]
  }

  /** The blocks completed by one raw line. */
  function Completed(p: Pend, raw: string): seq<Block> {
    var line := RStrip(raw);
    if line == [] then []
    else if IsDirective(line) then
      (if p.depth == 0 then Flush(p) else []) + [Directive(line)]
    else if p.depth + Net(line) == 0 && Terminal(line) then [Group(p.buf + [line])]
    else []
  }

  /** What is pending after one raw line. */
  function Following(p: Pend, raw: string): Pend {
    var line := RStrip(raw);
    if line == [] then p
    else if IsDirective(line) then (if p.depth == 0 then Pend([], 0) else p)
    else if p.depth + Net(line) == 0 && Terminal(line) then Pend([], 0)
    else Pend(p.buf + [line], p.depth + Net(line))
  }

  function Emitted(p: Pend, s: string): seq<Block>
    decreases |s|
  {
    if s == [] then []
    else Completed(p, FirstLine(s)) + Emitted(Following(p, FirstLine(s)), LaterLines(s))
  }

  function Left(p: Pend, s: string): Pend
    decreases |s|
  {
    if s == [] then p else Left(Following(p, FirstLine(s)), LaterLines(s))
  }

  /** The logical blocks of a cleaned header. */
  function BlocksOf(text: string): seq<Block> {
    Emitted(FRESH, text) + Flush(Left(FRESH, text))
  }

  // ---- the joiner as the source writes it ----

  /** `str.splitlines`: a carriage return and the newline after it are one break. */
  function SplitLines(s: string): seq<string>
    decreases |s|
  {
    if s == [] then []
    else
      var n := BreakAt(s);
      if n == |s| then [s]
      else if s[n] == '\r' && n + 1 < |s| && s[n + 1] == '\n' then [s[..n]] + SplitLines(s[n + 2..])
      else [s[..n]] + SplitLines(s[n + 1..])
  }

  function EmittedBy(p: Pend, lines: seq<string>): seq<Block>
    decreases |lines|
  {
    if lines == [] then [] else Completed(p, lines[0]) + EmittedBy(Following(p, lines[0]), lines[1..])
  }

  function LeftBy(p: Pend, lines: seq<string>): Pend
    decreases |lines|
  {
    if lines == [] then p else LeftBy(Following(p, lines[0]), lines[1..])
  }

  lemma SkipEmptyLine(p: Pend, s: string)
    requires s != [] && IsBreak(s[0])
    ensures Emitted(p, s) == Emitted(p, s[1..]) && Left(p, s) == Left(p, s[1..])
  {
    assert FirstLine(s) == "" && LaterLines(s) == s[1..];
    assert Completed(p, "") == [] && Following(p, "") == p;
  }

  /** Taking a carriage return and its newline as two breaks adds only a blank line. */
  lemma {:induction false} SplitLinesAgrees(p: Pend, s: string)
    ensures EmittedBy(p, SplitLines(s)) == Emitted(p, s) && LeftBy(p, SplitLines(s)) == Left(p, s)
    decreases |s|
  {
    if s != [] {
      var n, q := BreakAt(s), Following(p, FirstLine(s));
      if n == |s| {
        assert FirstLine(s) == s && SplitLines(s)[1..] == [];
      } else {
        var rest := if s[n] == '\r' && n + 1 < |s| && s[n + 1] == '\n' then s[n + 2..] else s[n + 1..];
        assert SplitLines(s) == [FirstLine(s)] + SplitLines(rest);
        assert SplitLines(s)[1..] == SplitLines(rest);
        SplitLinesAgrees(q, rest);
        if rest != LaterLines(s) {
          DropDrop(s, n + 1, 1);
          SkipEmptyLine(q, LaterLines(s));
        }
      }
    }
  }

  lemma {:induction false} RenderConcat(a: seq<Block>, b: seq<Block>)
    ensures RenderAll(a + b) == RenderAll(a) + RenderAll(b)
  {
    if a == [] {
      assert a + b == b;
    } else {
      DropConcat(a, b, 1);
      RenderConcat(a[1..], b);
      Assoc([Rendered(a[0])], RenderAll(a[1..]), RenderAll(b));
    }
  }

  lemma DirectiveRendered(blocks: seq<string>, p: Pend, line: string)
    ensures blocks + RenderAll((if p.depth == 0 then Flush(p) else []) + [Directive(line)])
         == (if p.depth == 0 && p.buf != [] then blocks + [Join(p.buf, " ")] else blocks) + [line]
  {
    RenderConcat(if p.depth == 0 then Flush(p) else [], [Directive(line)]);
    if p.depth == 0 && p.buf != [] { Assoc(blocks, [Join(p.buf, " ")], [line]); }
  }

  /** The body of the line loop. */
  method TakeLine(blocks: seq<string>, buf: seq<string>, depth: int, raw: string)
    returns (blocks': seq<string>, buf': seq<string>, depth': int)
    requires buf == [] ==> depth == 0
    ensures blocks' == blocks + RenderAll(Completed(Pend(buf, depth), raw))
    ensures Pend(buf', depth') == Following(Pend(buf, depth), raw)
    ensures buf' == [] ==> depth' == 0
  {
    blocks', buf', depth' := blocks, buf, depth;
    var line := RStrip(raw);
    if line == "" {
      return;
    }
    if line[0] == '#' {
      DirectiveRendered(blocks, Pend(buf, depth), line);
      if buf != [] && depth == 0 {
        blocks' := blocks' + [Join(buf, " ")];
        buf' := [];
      }
      blocks' := blocks' + [line];
      return;
    }
    buf' := buf' + [line];
    depth' := depth' + Net(line);
    if depth' == 0 && (line[|line| - 1] == ';' || line[|line| - 1] == '}') {
      blocks' := blocks' + [Join(buf', " ")];
      buf' := [];
    }
  }

  lemma {:induction false} OneMoreLine(p: Pend, lines: seq<string>, line: string)
    ensures EmittedBy(p, lines + [line]) == EmittedBy(p, lines) + Completed(LeftBy(p, lines), line)
    ensures LeftBy(p, lines + [line]) == Following(LeftBy(p, lines), line)
    decreases |lines|
  {
    if lines == [] {
      assert lines + [line] == [line] && [line][1..] == [];
    } else {
      DropConcat(lines, [line], 1);
      var q := Following(p, lines[0]);
      OneMoreLine(q, lines[1..], line);
      Assoc(Completed(p, lines[0]), EmittedBy(q, lines[1..]), Completed(LeftBy(p, lines), line));
    }
  }

  lemma OneMore(lines: seq<string>, k: nat)
    requires k < |lines|
    ensures EmittedBy(FRESH, lines[..k + 1])
         == EmittedBy(FRESH, lines[..k]) + Completed(LeftBy(FRESH, lines[..k]), lines[k])
    ensures LeftBy(FRESH, lines[..k + 1]) == Following(LeftBy(FRESH, lines[..k]), lines[k])
    ensures RenderAll(EmittedBy(FRESH, lines[..k + 1]))
         == RenderAll(EmittedBy(FRESH, lines[..k])) + RenderAll(Completed(LeftBy(FRESH, lines[..k]), lines[k]))
  {
    assert lines[..k + 1] == lines[..k] + [lines[k]];
    OneMoreLine(FRESH, lines[..k], lines[k]);
    RenderConcat(EmittedBy(FRESH, lines[..k]), Completed(LeftBy(FRESH, lines[..k]), lines[k]));
  }

  method JoinLogicalBlocks(text: string) returns (blocks: seq<string>)
    ensures blocks == RenderAll(BlocksOf(text))
  {
    blocks := [];
    var buf, depth := [], 0;
    var lines := SplitLines(text);
    for k := 0 to |lines|
      invariant blocks == RenderAll(EmittedBy(FRESH, lines[..k]))
      invariant Pend(buf, depth) == LeftBy(FRESH, lines[..k])
      invariant buf == [] ==> depth == 0
    {
      OneMore(lines, k);
      blocks, buf, depth := TakeLine(blocks, buf, depth, lines[k]);
    }
    assert lines[..|lines|] == lines;
    SplitLinesAgrees(FRESH, text);
    RenderConcat(Emitted(FRESH, text), Flush(Pend(buf, depth)));
    if buf != [] {
      blocks := blocks + [Join(buf, " ")];
    }
  }

  // ---- joining piece by piece ----

  predicate EndsWithBreak(s: string) {
    s == [] || IsBreak(s[|s| - 1])
  }

  lemma {:induction false} BreakAtConcat(a: string, b: string)
    ensures BreakAt(a + b) == if BreakAt(a) < |a| then BreakAt(a) else |a| + BreakAt(b)
  {
    if a == [] {
      assert a + b == b;
    } else if !IsBreak(a[0]) {
      DropConcat(a, b, 1);
      BreakAtConcat(a[1..], b);
    }
  }

  lemma {:induction false} BreakAtFound(a: string, k: nat)
    requires k < |a| && IsBreak(a[k])
    ensures BreakAt(a) <= k
  {
    if k > 0 { BreakAtFound(a[1..], k - 1); }
  }

  lemma TakeConcat(a: string, b: string, n: nat)
    requires n <= |a|
    ensures (a + b)[..n] == a[..n]
  {
  }

  lemma FirstLineConcat(a: string, b: string)
    requires BreakAt(a) < |a|
    ensures FirstLine(a + b) == FirstLine(a)
  {
    BreakAtConcat(a, b);
    TakeConcat(a, b, BreakAt(a));
  }

  lemma LaterAt(s: string, n: nat)
    requires BreakAt(s) == n < |s|
    ensures LaterLines(s) == s[n + 1..] && FirstLine(s) == s[..n]
  {
  }

  lemma LaterLinesConcat(a: string, b: string)
    requires BreakAt(a) < |a|
    ensures LaterLines(a + b) == LaterLines(a) + b
  {
    var n := BreakAt(a);
    BreakAtConcat(a, b);
    LaterAt(a, n);
    LaterAt(a + b, n);
    DropConcat(a, b, n + 1);
  }

  lemma LaterEndsWithBreak(a: string)
    requires a != [] && EndsWithBreak(a)
    ensures BreakAt(a) < |a| && EndsWithBreak(LaterLines(a))
  {
    BreakAtFound(a, |a| - 1);
  }

  /** Joining `a + b` is joining `a`, then `b` from where `a` leaves off. */
  ghost predicate InTurn(p: Pend, a: string, b: string) {
    && Emitted(p, a + b) == Emitted(p, a) + Emitted(Left(p, a), b)
    && Left(p, a + b) == Left(Left(p, a), b)
  }

  /** Whole lines can be joined one after the other. */
  lemma {:induction false} EmittedConcat(p: Pend, a: string, b: string)
    requires EndsWithBreak(a)
    ensures InTurn(p, a, b)
    decreases |a|
  {
    if a == [] {
      assert a + b == b;
    } else {
      LaterEndsWithBreak(a);
      EmittedConcat(Following(p, FirstLine(a)), LaterLines(a), b);
      EmittedStep(p, a, b);
    }
  }

  lemma EmittedStep(p: Pend, a: string, b: string)
    requires BreakAt(a) < |a| && InTurn(Following(p, FirstLine(a)), LaterLines(a), b)
    ensures InTurn(p, a, b)
  {
    var q, l := Following(p, FirstLine(a)), LaterLines(a);
    EmittedFirst(p, a, b);
    Assoc(Completed(p, FirstLine(a)), Emitted(q, l), Emitted(Left(q, l), b));
  }

  lemma EmittedFirst(p: Pend, a: string, b: string)
    requires BreakAt(a) < |a|
    ensures var q, l := Following(p, FirstLine(a)), LaterLines(a) + b;
            Emitted(p, a + b) == Completed(p, FirstLine(a)) + Emitted(q, l) && Left(p, a + b) == Left(q, l)
  {
    FirstLineConcat(a, b);
    LaterLinesConcat(a, b);
  }

  // ---- nothing is lost ----

  /** The non-blank lines of a text, without trailing blanks: directives, or the others. */
  function KeptLines(directives: bool, s: string): seq<string>
    decreases |s|
  {
    if s == [] then []
    else
      var line := RStrip(FirstLine(s));
      (if line != [] && IsDirective(line) == directives then [line] else []) + KeptLines(directives, LaterLines(s))
  }

  function BlockLines(directives: bool, bs: seq<Block>): seq<string> {
    if bs == [] then []
    else
      (match bs[0]
       case Directive(line) => if directives then [line] else []
       case Group(lines) => if directives then [] else lines)
      + BlockLines(directives, bs[1..])
  }

  lemma {:induction false} BlockLinesConcat(dir: bool, a: seq<Block>, b: seq<Block>)
    ensures BlockLines(dir, a + b) == BlockLines(dir, a) + BlockLines(dir, b)
  {
    if a == [] {
      assert a + b == b;
    } else {
      DropConcat(a, b, 1);
      BlockLinesConcat(dir, a[1..], b);
      Assoc(BlockLines(dir, [a[0]]), BlockLines(dir, a[1..]), BlockLines(dir, b));
      BlockLinesOne(dir, a[0]);
    }
  }

  lemma BlockLinesOne(dir: bool, b: Block)
    ensures BlockLines(dir, [b]) ==
            match b
            case Directive(line) => if dir then [line] else []
            case Group(lines) => if dir then [] else lines
  {
    assert [b][1..] == [];
  }

  lemma LineConserved(p: Pend, raw: string)
    ensures var line, bs, q := RStrip(raw), Completed(p, raw), Following(p, raw);
            && BlockLines(false, bs) + q.buf == p.buf + (if line != [] && !IsDirective(line) then [line] else [])
            && BlockLines(true, bs) == if line != [] && IsDirective(line) then [line] else []
  {
    var line := RStrip(raw);
    if IsDirective(line) {
      var f := if p.depth == 0 then Flush(p) else [];
      BlockLinesConcat(false, f, [Directive(line)]);
      BlockLinesConcat(true, f, [Directive(line)]);
      BlockLinesOne(false, Directive(line));
      BlockLinesOne(true, Directive(line));
      BlockLinesOne(false, Group(p.buf));
      BlockLinesOne(true, Group(p.buf));
    } else {
      BlockLinesOne(false, Group(p.buf + [line]));
      BlockLinesOne(true, Group(p.buf + [line]));
    }
  }

  lemma {:induction false} EmittedConserves(p: Pend, s: string)
    ensures BlockLines(false, Emitted(p, s)) + Left(p, s).buf == p.buf + KeptLines(false, s)
    ensures BlockLines(true, Emitted(p, s)) == KeptLines(true, s)
    decreases |s|
  {
    if s != [] {
      var raw, l := FirstLine(s), LaterLines(s);
      var q, bs := Following(p, raw), Completed(p, raw);
      LineConserved(p, raw);
      EmittedConserves(q, l);
      BlockLinesConcat(false, bs, Emitted(q, l));
      BlockLinesConcat(true, bs, Emitted(q, l));
      Assoc(BlockLines(false, bs), BlockLines(false, Emitted(q, l)), Left(q, l).buf);
      Assoc(BlockLines(false, bs), q.buf, KeptLines(false, l));
      var line := RStrip(raw);
      Assoc(p.buf, if line != [] && !IsDirective(line) then [line] else [], KeptLines(false, l));
    }
  }

  /** Every non-blank line lands in exactly one block, directives in their order and the
      other lines in theirs. */
  lemma BlocksConserveLines(text: string)
    ensures BlockLines(false, BlocksOf(text)) == KeptLines(false, text)
    ensures BlockLines(true, BlocksOf(text)) == KeptLines(true, text)
  {
    EmittedConserves(FRESH, text);
    var q := Left(FRESH, text);
    BlockLinesConcat(false, Emitted(FRESH, text), Flush(q));
    BlockLinesConcat(true, Emitted(FRESH, text), Flush(q));
    BlockLinesOne(false, Group(q.buf));
    BlockLinesOne(true, Group(q.buf));
  }

  // ---- the depth counter ----

  function NetOf(lines: seq<string>): int {
    if lines == [] then 0 else Net(lines[0]) + NetOf(lines[1..])
  }

  lemma {:induction false} NetOfSnoc(lines: seq<string>, line: string)
    ensures NetOf(lines + [line]) == NetOf(lines) + Net(line)
  {
    if lines == [] {
      assert lines + [line] == [line] && [line][1..] == [];
    } else {
      DropConcat(lines, [line], 1);
      NetOfSnoc(lines[1..], line);
    }
  }

  ghost predicate Neutral(bs: seq<Block>) {
    forall b :: b in bs && b.Group? ==> b.lines != [] && NetOf(b.lines) == 0
  }

  /** The counter equals the net braces of the pending lines, and only neutral groups are
      completed. */
  lemma {:induction false} DepthIsNet(p: Pend, s: string)
    requires p.depth == NetOf(p.buf)
    ensures Left(p, s).depth == NetOf(Left(p, s).buf)
    ensures Neutral(Emitted(p, s))
    decreases |s|
  {
    if s != [] {
      var raw := FirstLine(s);
      var q := Following(p, raw);
      NetOfSnoc(p.buf, RStrip(raw));
      assert q.depth == NetOf(q.buf);
      assert Neutral(Completed(p, raw));
      DepthIsNet(q, LaterLines(s));
    }
  }
}
