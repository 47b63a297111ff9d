/** Strings as the header tools see them: Python's whitespace and line breaks, ASCII
    words, searching, trimming and whitespace normalisation. */
module Text {

  datatype Option<+T> = None | Some(value: T)

  /** `str.isspace`, the set removed by `strip` and matched by `\s`. */
  predicate IsSpace(c: char) {
    || c == ' ' || '\t' <= c <= '\r' || '\U{1c}' <= c <= '\U{1f}'
    || c == '\U{85}' || c == '\U{a0}' || c == '\U{1680}' || '\U{2000}' <= c <= '\U{200a}'
    || c == '\U{2028}' || c == '\U{2029}' || c == '\U{202f}' || c == '\U{205f}' || c == '\U{3000}'
  }

  /** The characters at which `str.splitlines` ends a line. */
  predicate IsBreak(c: char)
    ensures IsBreak(c) ==> IsSpace(c)
  {
    '\n' <= c <= '\r' || '\U{1c}' <= c <= '\U{1e}' || c == '\U{85}' || c == '\U{2028}' || c == '\U{2029}'
  }

  predicate IsDigit(c: char) {
    '0' <= c <= '9'
  }

  predicate IsIdentStart(c: char) {
    'a' <= c <= 'z' || 'A' <= c <= 'Z' || c == '_'
  }

  predicate IsWord(c: char)
    ensures IsWord(c) ==> !IsSpace(c)
  {
    IsIdentStart(c) || IsDigit(c)
  }

  predicate AllSpace(s: string) {
    forall i :: 0 <= i < |s| ==> IsSpace(s[i])
  }

  predicate AllWord(s: string) {
    forall i :: 0 <= i < |s| ==> IsWord(s[i])
  }

  predicate AllDigit(s: string) {
    forall i :: 0 <= i < |s| ==> IsDigit(s[i])
  }

  /** `[A-Za-z_][A-Za-z0-9_]*` */
  predicate IsIdent(s: string) {
    s != [] && IsIdentStart(s[0]) && AllWord(s)
  }

  // ---- searching ----

  predicate At(s: string, i: int, pat: string) {
    0 <= i && i + |pat| <= |s| && s[i..i + |pat|] == pat
  }

  predicate StartsWith(s: string, pat: string) {
    At(s, 0, pat)
  }

  lemma AtDrop(s: string, n: nat, i: nat, pat: string)
    requires n <= |s|
    ensures At(s, n + i, pat) <==> At(s[n..], i, pat)
  {
    if n + i + |pat| <= |s| {
      assert s[n + i..n + i + |pat|] == s[n..][i..i + |pat|];
    }
  }

  lemma AtChar(s: string, i: int, pat: string, j: int)
    requires At(s, i, pat) && 0 <= j < |pat|
    ensures s[i + j] == pat[j]
  {
    assert s[i..i + |pat|][j] == pat[j];
  }

  /** `s.find(pat)`: the first occurrence. */
  function Find(s: string, pat: string): (r: Option<nat>)
    ensures r.Some? ==> At(s, r.value, pat) && forall j {:trigger At(s, j, pat)} :: 0 <= j < r.value ==> !At(s, j, pat)
    ensures r.None? ==> forall j {:trigger At(s, j, pat)} :: !At(s, j, pat)
    decreases |s|
  {
    if |s| < |pat| then None
    else if s[..|pat|] == pat then
      assert s[0..0 + |pat|] == pat;
      Some(0)
    else
      var r := Find(s[1..], pat);
      assert forall j {:trigger At(s, j, pat)} :: 1 <= j ==> (At(s, j, pat) <==> At(s[1..], j - 1, pat)) by {
        forall j | 1 <= j ensures At(s, j, pat) <==> At(s[1..], j - 1, pat) {
          AtDrop(s, 1, j - 1, pat);
        }
      }
      assert !At(s, 0, pat);
      if r.None? then None else Some(r.value + 1)
  }

  lemma FindIs(s: string, pat: string, i: nat)
    requires At(s, i, pat)
    requires forall j {:trigger At(s, j, pat)} :: 0 <= j < i ==> !At(s, j, pat)
    ensures Find(s, pat) == Some(i)
  {
    assert !(Find(s, pat).None?);
  }

  /** The index of the first `c` in `s`, or its length. */
  function IndexOf(s: string, c: char): (n: nat)
    ensures n <= |s|
  {
    if s == [] || s[0] == c then 0 else 1 + IndexOf(s[1..], c)
  }

  // ---- runs ----

  /** The lengths of the leading runs of word characters and of blanks. */
  function WordRun(s: string): (n: nat)
    ensures n <= |s|
  {
    if s == [] || !IsWord(s[0]) then 0 else 1 + WordRun(s[1..])
  }

  function SpaceRun(s: string): (n: nat)
    ensures n <= |s|
  {
    if s == [] || !IsSpace(s[0]) then 0 else 1 + SpaceRun(s[1..])
  }

  /** The trailing run of word characters. */
  function TailRun(s: string): (n: nat)
    ensures n <= |s|
  {
    if s == [] || !IsWord(s[|s| - 1]) then 0 else 1 + TailRun(s[..|s| - 1])
  }

  /** What follows `word` and at least one blank, if `s` starts that way. */
  function AfterWord(s: string, word: string): Option<string> {
    if !StartsWith(s, word) then None
    else
      var n := SpaceRun(s[|word|..]);
      if n == 0 then None else Some(s[|word|..][n..])
  }

  /** The identifier `s` starts with. */
  function LeadingIdent(s: string): (r: Option<string>)
    ensures r.Some? ==> |r.value| <= |s|
  {
    if s != [] && IsIdentStart(s[0]) then Some(s[..WordRun(s)]) else None
  }

  // ---- trimming ----

  function LStrip(s: string): string {
    if s != [] && IsSpace(s[0]) then LStrip(s[1..]) else s
  }

  function RStrip(s: string): string {
    if s != [] && IsSpace(s[|s| - 1]) then RStrip(s[..|s| - 1]) else s
  }

  function Strip(s: string): string {
    RStrip(LStrip(s))
  }

  // ---- joining and normalising ----

  function Join(parts: seq<string>, sep: string): string {
    if parts == [] then []
    else if |parts| == 1 then parts[0]
    else parts[0] + sep + Join(parts[1..], sep)
  }

  /** `re.sub(r"\s+", " ", s)` */
  function Collapse(s: string): string {
    if s == [] then []
    else if !IsSpace(s[0]) then [s[0]] + Collapse(s[1..])
    else if |s| > 1 && IsSpace(s[1]) then Collapse(s[1..])
    else " " + Collapse(s[1..])
  }

  /** `normalise`: whitespace runs become one space and the ends are trimmed. */
  function Normalise(s: string): string {
    Strip(Collapse(s))
  }

  lemma Assoc<T>(a: seq<T>, b: seq<T>, c: seq<T>)
    ensures (a + b) + c == a + (b + c)
  {
  }

  lemma DropConcat<T>(a: seq<T>, b: seq<T>, n: nat)
    requires n <= |a|
    ensures (a + b)[n..] == a[n..] + b
  {
  }

  lemma DropDrop<T>(s: seq<T>, i: nat, n: nat)
    requires i + n <= |s|
    ensures s[i..][n..] == s[i + n..]
  {
  }

  lemma {:induction false} JoinSnoc(r: seq<string>, x: string, sep: string)
    requires r != []
    ensures Join(r + [x], sep) == Join(r, sep) + (sep + x)
  {
    if |r| == 1 {
      assert (r + [x])[1..] == [x] && (r + [x])[0] == r[0];
      Assoc(r[0], sep, x);
    } else {
      DropConcat(r, [x], 1);
      JoinSnoc(r[1..], x, sep);
      Assoc(r[0] + sep, Join(r[1..], sep), sep + x);
    }
  }

  /** The characters of `s` that are not blank. */
  function Inked(s: string): string {
    if s == [] then "" else (if IsSpace(s[0]) then "" else [s[0]]) + Inked(s[1..])
  }

  lemma {:induction false} InkedConcat(a: string, b: string)
    ensures Inked(a + b) == Inked(a) + Inked(b)
  {
    if a == [] {
      assert a + b == b;
    } else {
      DropConcat(a, b, 1);
      InkedConcat(a[1..], b);
      Assoc(if IsSpace(a[0]) then "" else [a[0]], Inked(a[1..]), Inked(b));
    }
  }

  lemma {:induction false} InkedBlank(w: string)
    requires AllSpace(w)
    ensures Inked(w) == ""
  {
    if w != [] { InkedBlank(w[1..]); }
  }

  // ---- facts about trimming ----

  /** LStrip removes exactly a blank prefix `w`. */
  lemma {:induction false} LStripSplit(s: string) returns (w: string)
    ensures AllSpace(w) && s == w + LStrip(s) && (LStrip(s) != [] ==> !IsSpace(LStrip(s)[0]))
  {
    w := [];
    if s != [] && IsSpace(s[0]) {
      var v := LStripSplit(s[1..]);
      w := [s[0]] + v;
    }
  }

  lemma {:induction false} RStripSplit(s: string) returns (w: string)
    ensures AllSpace(w) && s == RStrip(s) + w && (RStrip(s) != [] ==> !IsSpace(RStrip(s)[|RStrip(s)| - 1]))
  {
    w := [];
    if s != [] && IsSpace(s[|s| - 1]) {
      var v := RStripSplit(s[..|s| - 1]);
      w := v + [s[|s| - 1]];
    }
  }

  lemma {:induction false} StripLeading(a: string, y: string)
    requires AllSpace(a) && (y != [] ==> !IsSpace(y[0]))
    ensures LStrip(a + y) == y
  {
    if a == [] {
      assert a + y == y;
    } else {
      DropConcat(a, y, 1);
      StripLeading(a[1..], y);
    }
  }

  lemma {:induction false} StripTrailing(y: string, b: string)
    requires AllSpace(b) && (y != [] ==> !IsSpace(y[|y| - 1]))
    ensures RStrip(y + b) == y
  {
    if b == [] {
      assert y + b == y;
    } else {
      assert (y + b)[..|y + b| - 1] == y + b[..|b| - 1];
      StripTrailing(y, b[..|b| - 1]);
    }
  }

  lemma LastOfTrimmed(s: string)
    requires !AllSpace(s)
    ensures RStrip(s) != [] && RStrip(s)[|RStrip(s)| - 1] in s && !IsSpace(RStrip(s)[|RStrip(s)| - 1])
  {
    var w := RStripSplit(s);
    assert RStrip(s) == [] ==> s == w;
  }

  // ---- facts about runs ----

  lemma {:induction false} IndexOfFinds(s: string, c: char)
    ensures IndexOf(s, c) < |s| ==> s[IndexOf(s, c)] == c
    ensures c !in s[..IndexOf(s, c)]
  {
    if s != [] && s[0] != c {
      IndexOfFinds(s[1..], c);
      assert s[..IndexOf(s, c)] == [s[0]] + s[1..][..IndexOf(s[1..], c)];
    }
  }

  lemma {:induction false} IndexOfConcat(a: string, b: string, c: char)
    ensures IndexOf(a + b, c) == if IndexOf(a, c) < |a| then IndexOf(a, c) else |a| + IndexOf(b, c)
  {
    if a == [] {
      assert a + b == b;
    } else if a[0] != c {
      DropConcat(a, b, 1);
      IndexOfConcat(a[1..], b, c);
    }
  }

  lemma {:induction false} WordRunFacts(s: string)
    ensures AllWord(s[..WordRun(s)]) && (WordRun(s) < |s| ==> !IsWord(s[WordRun(s)]))
  {
    if s != [] && IsWord(s[0]) {
      WordRunFacts(s[1..]);
      assert s[..WordRun(s)] == [s[0]] + s[1..][..WordRun(s[1..])];
    }
  }

  lemma {:induction false} WordRunConcat(a: string, b: string)
    requires AllWord(a) && (b == [] || !IsWord(b[0]))
    ensures WordRun(a + b) == |a|
  {
    if a == [] {
      assert a + b == b;
    } else {
      DropConcat(a, b, 1);
      WordRunConcat(a[1..], b);
    }
  }

  lemma {:induction false} SpaceRunFacts(s: string)
    ensures AllSpace(s[..SpaceRun(s)]) && (SpaceRun(s) < |s| ==> !IsSpace(s[SpaceRun(s)]))
  {
    if s != [] && IsSpace(s[0]) {
      SpaceRunFacts(s[1..]);
      assert s[..SpaceRun(s)] == [s[0]] + s[1..][..SpaceRun(s[1..])];
    }
  }

  lemma {:induction false} SpaceRunConcat(a: string, b: string)
    requires AllSpace(a) && (b == [] || !IsSpace(b[0]))
    ensures SpaceRun(a + b) == |a|
  {
    if a == [] {
      assert a + b == b;
    } else {
      DropConcat(a, b, 1);
      SpaceRunConcat(a[1..], b);
    }
  }

  lemma {:induction false} TailRunFacts(s: string)
    ensures var k := |s| - TailRun(s); AllWord(s[k..]) && (k > 0 ==> !IsWord(s[k - 1]))
  {
    if s != [] && IsWord(s[|s| - 1]) {
      var t := s[..|s| - 1];
      TailRunFacts(t);
      var k := |s| - TailRun(s);
      assert s[k..] == t[k..] + [s[|s| - 1]];
    }
  }

  lemma {:induction false} TailRunConcat(a: string, b: string)
    requires AllWord(b) && (a == [] || !IsWord(a[|a| - 1]))
    ensures TailRun(a + b) == |b|
  {
    if b == [] {
      assert a + b == a;
    } else {
      assert (a + b)[..|a + b| - 1] == a + b[..|b| - 1];
      TailRunConcat(a, b[..|b| - 1]);
    }
  }

  // ---- normalisation as a one-pass writer ----

  /** Where the writer stands: nothing written, right after a letter, or owing a space. */
  datatype Pen = Start | Ink | Gap

  function Next(p: Pen, c: char): Pen {
    if !IsSpace(c) then Ink else if p.Start? then Start else Gap
  }

  function Emit(p: Pen, c: char): string {
    if IsSpace(c) then "" else if p.Gap? then [' ', c] else [c]
  }

  function Written(p: Pen, s: string): string
    decreases s
  {
    if s == [] then "" else Emit(p, s[0]) + Written(Next(p, s[0]), s[1..])
  }

  function After(p: Pen, s: string): Pen
    decreases s
  {
    if s == [] then p else After(Next(p, s[0]), s[1..])
  }

  lemma {:induction false} WrittenConcat(p: Pen, a: string, b: string)
    ensures Written(p, a + b) == Written(p, a) + Written(After(p, a), b)
    ensures After(p, a + b) == After(After(p, a), b)
    decreases a
  {
    if a == [] {
      assert a + b == b;
    } else {
      DropConcat(a, b, 1);
      WrittenConcat(Next(p, a[0]), a[1..], b);
      Assoc(Emit(p, a[0]), Written(Next(p, a[0]), a[1..]), Written(After(p, a), b));
    }
  }

  lemma {:induction false} WrittenBlank(p: Pen, w: string)
    requires AllSpace(w)
    ensures Written(p, w) == "" && After(p, w) == if w == [] || p.Start? then p else Gap
    decreases w
  {
    if w != [] { WrittenBlank(Next(p, w[0]), w[1..]); }
  }

  lemma {:induction false} WrittenEnds(p: Pen, s: string)
    ensures var r := Written(p, s); r != [] ==> !IsSpace(r[|r| - 1])
    decreases s
  {
    if s != [] { WrittenEnds(Next(p, s[0]), s[1..]); }
  }

  function Owed(p: Pen): string {
    if p.Gap? then " " else ""
  }

  lemma {:induction false} CollapseAfterInk(s: string)
    ensures Collapse(s) == Written(Ink, s) + Owed(After(Ink, s))
  {
    if s == [] {
    } else if !IsSpace(s[0]) {
      CollapseAfterInk(s[1..]);
    } else if |s| > 1 {
      var t := s[1..];
      assert Written(Ink, s) == Written(Gap, t) && After(Ink, s) == After(Gap, t);
      if IsSpace(t[0]) {
        CollapseAfterInk(t);
        assert Written(Ink, t) == Written(Gap, t[1..]) && After(Ink, t) == After(Gap, t[1..]);
      } else {
        CollapseAfterInk(t[1..]);
        assert Written(Gap, t) == [' ', t[0]] + Written(Ink, t[1..]);
      }
    }
  }

  lemma LeadingBlank(s: string)
    requires s != [] && IsSpace(s[0])
    ensures LStrip(Collapse(s)) == LStrip(Collapse(s[1..]))
  {
    var t := Collapse(s[1..]);
    assert (" " + t)[1..] == t;
    assert Collapse(s) == t || Collapse(s) == " " + t;
  }

  lemma {:induction false} CollapseFromStart(s: string)
    ensures LStrip(Collapse(s)) == Written(Start, s) + Owed(After(Start, s))
  {
    if s == [] {
    } else if IsSpace(s[0]) {
      CollapseFromStart(s[1..]);
      LeadingBlank(s);
    } else {
      CollapseAfterInk(s[1..]);
    }
  }

  /** Collapsing and trimming is the same as writing each character once, with one
      space owed after every gap. */
  lemma {:induction false} NormaliseIsWritten(s: string)
    ensures Normalise(s) == Written(Start, s)
  {
    CollapseFromStart(s);
    WrittenEnds(Start, s);
    StripTrailing(Written(Start, s), Owed(After(Start, s)));
  }

  // ---- text with single spaces ----

  lemma WrittenAfterGap(s: string)
    requires s != [] && !IsSpace(s[0])
    ensures Written(Gap, s) == " " + Written(Start, s)
  {
    assert [' ', s[0]] == " " + [s[0]];
    Assoc(" ", [s[0]], Written(Ink, s[1..]));
  }

  lemma WrittenSpace(s: string)
    ensures Written(Ink, " " + s) == Written(Gap, s)
  {
    assert (" " + s)[1..] == s;
    assert "" + Written(Gap, s) == Written(Gap, s);
  }

  /** Words separated by single spaces. */
  predicate Spaced(s: string) {
    && s != [] && !IsSpace(s[0]) && !IsSpace(s[|s| - 1])
    && forall i :: 0 <= i < |s| - 1 ==> OneSpaceAt(s, i)
  }

  predicate OneSpaceAt(s: string, i: nat)
    requires i + 1 < |s|
  {
    IsSpace(s[i]) ==> s[i] == ' ' && !IsSpace(s[i + 1])
  }

  lemma SpacedTail(s: string, k: nat)
    requires Spaced(s) && k < |s| && !IsSpace(s[k])
    ensures Spaced(s[k..])
  {
    var t := s[k..];
    forall i | 0 <= i < |t| - 1 ensures OneSpaceAt(t, i) {
      assert OneSpaceAt(s, i + k);
    }
  }

  lemma WrittenPastSpace(p: Pen, s: string)
    requires |s| > 2 && !IsSpace(s[0]) && s[1] == ' ' && !IsSpace(s[2]) && !p.Gap?
    ensures Written(p, s) == [s[0]] + (" " + Written(Start, s[2..]))
  {
    assert s[1..] == " " + s[2..];
    WrittenSpace(s[2..]);
    WrittenAfterGap(s[2..]);
  }

  lemma {:induction false} SpacedIsWritten(p: Pen, s: string)
    requires Spaced(s) && !p.Gap?
    ensures Written(p, s) == s
    decreases |s|
  {
    if |s| == 1 {
      assert s[1..] == [];
    } else if IsSpace(s[1]) {
      assert OneSpaceAt(s, 1);
      SpacedTail(s, 2);
      SpacedIsWritten(Start, s[2..]);
      WrittenPastSpace(p, s);
    } else {
      SpacedTail(s, 1);
      SpacedIsWritten(Ink, s[1..]);
    }
  }

  lemma SpacedIsNormal(s: string)
    requires Spaced(s)
    ensures Normalise(s) == s
  {
    NormaliseIsWritten(s);
    SpacedIsWritten(Start, s);
  }

  lemma SpacedConcat(a: string, b: string)
    requires Spaced(a) && Spaced(b)
    ensures Spaced(a + b)
  {
    var s := a + b;
    forall i | 0 <= i < |s| - 1 ensures OneSpaceAt(s, i) {
      if i + 1 < |a| { assert OneSpaceAt(a, i); }
      if i >= |a| { assert OneSpaceAt(b, i - |a|); }
    }
  }

  lemma SpacedApart(a: string, b: string)
    requires Spaced(a) && Spaced(b)
    ensures Spaced(a + (" " + b))
  {
    var s := a + (" " + b);
    forall i | 0 <= i < |s| - 1 ensures OneSpaceAt(s, i) {
      if i + 1 < |a| { assert OneSpaceAt(a, i); }
      if i > |a| { assert OneSpaceAt(b, i - |a| - 1); }
    }
  }

  lemma SpacedWord(w: string)
    requires IsIdent(w)
    ensures Spaced(w)
  {
  }
}
