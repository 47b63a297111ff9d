/** The generated region of the C++ header: a marked block is cut out, the closing brace of the
    library's namespace is located, and a freshly rendered block is spliced in before it. */
module Splice {
  import opened Text

  // ---- markers ----

  datatype MarkText = MarkText(begin: string, end: string, close: string)

  predicate OneLine(s: string) {
    s != [] && '\n' !in s && !IsSpace(s[0]) && !IsSpace(s[|s| - 1])
  }

  /** What the proofs need of the three markers; the header's own markers have it. */
  predicate AreMarks(m: MarkText) {
    OneLine(m.begin) && OneLine(m.end) && OneLine(m.close) && m.close[0] == '}' && '}' !in m.begin
  }

  type Marks = m: MarkText | AreMarks(m) witness MarkText("(", ")", "}")

  const GEN_BEGIN := "// ===== GENERATED ADDITIONS" + " - do not edit by hand. ====="
  const GEN_END := "// ===== END GENERATED ADDITIONS ====="
  const NS_CLOSE := "} // namespace librouting"

  predicate Plain(s: string) {
    forall i :: 0 <= i < |s| ==> s[i] != '\n' && s[i] != '}'
  }

  lemma BeginHead()
    ensures Plain("// ===== GENERATED ADDITIONS")
  {
  }

  lemma BeginTail()
    ensures Plain(" - do not edit by hand. =====")
  {
  }

  lemma BeginIsOneLine()
    ensures OneLine(GEN_BEGIN) && '}' !in GEN_BEGIN
  {
    BeginHead();
    BeginTail();
    assert Plain(GEN_BEGIN);
  }

  lemma EndIsOneLine()
    ensures OneLine(GEN_END)
  {
  }

  lemma CloseIsOneLine()
    ensures OneLine(NS_CLOSE) && NS_CLOSE[0] == '}'
  {
  }

  lemma TheMarkers()
    ensures GEN_BEGIN == "// ===== GENERATED ADDITIONS" + " - do not edit by hand. ====="
    ensures GEN_END == "// ===== END GENERATED ADDITIONS =====" && NS_CLOSE == "} // namespace librouting"
  {
  }

  /** The header's own markers, spelled out. */
  lemma HeaderMarks()
    ensures AreMarks(MarkText(GEN_BEGIN, GEN_END, NS_CLOSE))
    ensures MarkText(GEN_BEGIN, GEN_END, NS_CLOSE)
         == MarkText("// ===== GENERATED ADDITIONS" + " - do not edit by hand. =====",
                     "// ===== END GENERATED ADDITIONS =====", "} // namespace librouting")
  {
    TheMarkers();
    BeginIsOneLine();
    EndIsOneLine();
    CloseIsOneLine();
  }

  // ---- cutting the old block out ----

  /** The length of a marked block at the start of `s`, with the blanks that follow it. */
  function Region(m: Marks, s: string): (r: Option<nat>)
    ensures r.Some? ==> 0 < r.value <= |s|
  {
    if !StartsWith(s, m.begin) then None
    else
      match Find(s[|m.begin|..], m.end)
      case None => None
      case Some(e) =>
        Some(SkipBlanks(s, |m.begin| + e + |m.end|))
  }

  /** The next position from `k` on that holds no blank. */
  function SkipBlanks(s: string, k: nat): (n: nat)
    requires k <= |s|
    ensures k <= n <= |s|
  {
    k + SpaceRun(s[k..])
  }

  /** The text without its marked blocks: one pass from left to right. */
  function Clean(m: Marks, s: string): string
    decreases |s|
  {
    if s == [] then ""
    else
      match Region(m, s)
      case Some(n) => Clean(m, s[n..])
      case None => [s[0]] + Clean(m, s[1..])
  }

  // ---- locating the namespace's closing brace ----

  /** `s.rfind(pat)`: the last occurrence. */
  function RFind(s: string, pat: string): (r: Option<nat>)
    ensures r.Some? ==> r.value < |s|
  {
    if s == [] then None
    else
      match RFind(s[1..], pat)
      case Some(k) => Some(k + 1)
      case None => if StartsWith(s, pat) then Some(0) else None
  }

  function Cut(m: Marks, s: string): (k: nat)
    ensures k <= |s|
  {
    match RFind(s, m.close) case Some(k) => k case None => |s|
  }

  // ---- the entry points the hand-written text already calls ----

  /** The `lr_` name called at the start of `s`, which is a word boundary. */
  function Call(s: string): Option<string> {
    var n := WordRun(s);
    if n > 3 && s[..3] == "lr_" && Opens(s[n..]) then Some(s[..n]) else None
  }

  predicate Opens(t: string) {
    SpaceRun(t) < |t| && t[SpaceRun(t)] == '('
  }

  /** The names called in `s`; `inWord` says whether a word character stands before it. */
  function Symbols(inWord: bool, s: string): set<string>
    decreases s
  {
    if s == [] then {}
    else
      (if !inWord && Call(s).Some? then {Call(s).value} else {}) + Symbols(IsWord(s[0]), s[1..])
  }

  // ---- splicing the new block in ----

  function LStripBreaks(s: string): string {
    if s != [] && s[0] == '\n' then LStripBreaks(s[1..]) else s
  }

  function Block(m: Marks, body: string): string {
    m.begin + (body + m.end)
  }

  function Spliced(m: Marks, head: string, body: string, tail: string): string {
    head + ("\n\n" + (Block(m, body) + ("\n\n" + tail)))
  }

  /** Regenerating the header. What is rendered depends on the text only through the names it
      already calls, so the renderer is any function of those. */
  function Patch(m: Marks, render: set<string> -> string, text: string): string {
    var c := Clean(m, text);
    var k := Cut(m, c);
    Spliced(m, RStrip(c[..k]), render(Symbols(false, c)), LStripBreaks(c[k..]))
  }

  /** A rendered body in which neither marker occurs, not even across its ends. */
  predicate Neat(m: Marks, body: string) {
    EndsOnce(m, body) && BeginsOnce(m, body)
  }

  predicate EndsOnce(m: Marks, body: string) {
    Find(Block(m, body), m.end) == Some(|m.begin| + |body|)
  }

  predicate BeginsOnce(m: Marks, body: string) {
    Find(Block(m, body)[1..], m.begin).None?
  }

  ghost predicate NeatRenderer(m: Marks, render: set<string> -> string) {
    forall p :: Neat(m, render(p))
  }

  predicate MarkedAt(m: Marks, s: string, i: int) {
    0 <= i <= |s| && Region(m, s[i..]).Some?
  }

  ghost predicate Marked(m: Marks, s: string) {
    exists i :: MarkedAt(m, s, i)
  }

  /** The cut header holds no begin marker before the splice and no whole block after it. */
  ghost predicate Settled(m: Marks, text: string) {
    var c := Clean(m, text);
    Find(c[..Cut(m, c)], m.begin).None? && !Marked(m, c[Cut(m, c)..])
  }

  // ---- occurrences in a concatenation ----

  lemma AtLeft(a: string, b: string, i: nat, pat: string)
    requires i < |a| && (b == [] || b[0] !in pat)
    ensures At(a + b, i, pat) <==> At(a, i, pat)
  {
    if i + |pat| <= |a| {
      assert (a + b)[i..i + |pat|] == a[i..i + |pat|];
    } else if At(a + b, i, pat) {
      AtChar(a + b, i, pat, |a| - i);
    }
  }

  lemma AtRight(a: string, b: string, i: nat, pat: string)
    requires i >= |a|
    ensures At(a + b, i, pat) <==> At(b, i - |a|, pat)
  {
    AtDrop(a + b, |a|, i - |a|, pat);
    assert (a + b)[|a|..] == b;
  }

  // ---- what cutting does ----

  lemma MarkedTail(m: Marks, s: string, i: nat, j: nat)
    requires i <= j <= |s|
    ensures MarkedAt(m, s[i..], j - i) <==> MarkedAt(m, s, j)
  {
    DropDrop(s, i, j - i);
  }

  lemma {:induction false} CleanUnmarked(m: Marks, s: string)
    requires !Marked(m, s)
    ensures Clean(m, s) == s
  {
    if s != [] {
      assert !MarkedAt(m, s, 0) && s[0..] == s;
      if Marked(m, s[1..]) {
        var i :| MarkedAt(m, s[1..], i);
        MarkedTail(m, s, 1, i + 1);
      }
      CleanUnmarked(m, s[1..]);
    }
  }

  lemma InkSuffix(s: string, i: nat, j: nat)
    requires i <= j <= |s|
    ensures |Inked(s[j..])| <= |Inked(s[i..])|
    ensures i < j && !IsSpace(s[i]) ==> |Inked(s[j..])| < |Inked(s[i..])|
  {
    var h := s[i..j];
    assert s[i..] == h + s[j..];
    InkedConcat(h, s[j..]);
  }

  /** Cutting loses ink exactly when there is a block to cut. */
  lemma {:induction false} CleanShrinks(m: Marks, s: string)
    ensures |Inked(Clean(m, s))| <= |Inked(s)|
    ensures Marked(m, s) ==> |Inked(Clean(m, s))| < |Inked(s)|
    decreases |s|
  {
    assert s[0..] == s;
    if s != [] {
      match Region(m, s)
      case Some(n) =>
        CleanShrinks(m, s[n..]);
        AtChar(s, 0, m.begin, 0);
        InkSuffix(s, 0, n);
      case None =>
        CleanShrinks(m, s[1..]);
        if Marked(m, s) {
          var i :| MarkedAt(m, s, i);
          MarkedTail(m, s, 1, i);
        }
    }
  }

  // ---- cutting a spliced text ----

  predicate Flush(s: string) {
    s == [] || !IsSpace(s[0])
  }

  function Inserted(m: Marks, body: string, tail: string): string {
    "\n\n" + (Block(m, body) + ("\n\n" + tail))
  }

  lemma EndInBlock(m: Marks, body: string, rest: string, j: nat)
    requires EndsOnce(m, body) && j < |m.begin| + |body|
    ensures !At(Block(m, body) + rest, j, m.end)
  {
    var g := Block(m, body);
    assert j + |m.end| <= |g| && (g + rest)[j..j + |m.end|] == g[j..j + |m.end|];
    assert !At(g, j, m.end);
  }

  lemma BlockAt(m: Marks, body: string, rest: string)
    ensures var s := Block(m, body) + rest; At(s, 0, m.begin) && At(s, |m.begin| + |body|, m.end)
  {
  }

  lemma FindFrom(s: string, k: nat, e: nat, pat: string)
    requires k <= e && At(s, e, pat) && forall j {:trigger At(s, j, pat)} :: k <= j < e ==> !At(s, j, pat)
    ensures k <= |s| && Find(s[k..], pat) == Some(e - k)
  {
    AtDrop(s, k, e - k, pat);
    forall j {:trigger At(s[k..], j, pat)} | 0 <= j < e - k ensures !At(s[k..], j, pat) { AtDrop(s, k, j, pat); }
    FindIs(s[k..], pat, e - k);
  }

  /** A begin marker, then `e` characters, then the first end marker. */
  ghost predicate ClosesAt(m: Marks, s: string, e: nat) {
    At(s, 0, m.begin) && Find(s[|m.begin|..], m.end) == Some(e)
  }

  lemma FindEnd(m: Marks, body: string, rest: string)
    requires EndsOnce(m, body)
    ensures ClosesAt(m, Block(m, body) + rest, |body|)
  {
    var s, e := Block(m, body) + rest, |m.begin| + |body|;
    BlockAt(m, body, rest);
    forall j {:trigger At(s, j, m.end)} | |m.begin| <= j < e ensures !At(s, j, m.end) { EndInBlock(m, body, rest, j); }
    FindFrom(s, |m.begin|, e, m.end);
  }

  lemma AfterBlock(g: string, tail: string)
    requires Flush(tail)
    ensures var s := g + ("\n\n" + tail); SpaceRun(s[|g|..]) == 2 && s[|g| + 2..] == tail
  {
    assert (g + ("\n\n" + tail))[|g|..] == "\n\n" + tail;
    SpaceRunConcat("\n\n", tail);
  }

  lemma RegionIs(m: Marks, g: string, e: nat, tail: string)
    requires Flush(tail) && |m.begin| + e + |m.end| == |g| && ClosesAt(m, g + ("\n\n" + tail), e)
    ensures Region(m, g + ("\n\n" + tail)) == Some(|g| + 2)
  {
    AfterBlock(g, tail);
  }

  lemma RegionOfBlock(m: Marks, body: string, tail: string)
    requires EndsOnce(m, body) && Flush(tail)
    ensures Region(m, Block(m, body) + ("\n\n" + tail)) == Some(|Block(m, body)| + 2)
  {
    FindEnd(m, body, "\n\n" + tail);
    RegionIs(m, Block(m, body), |body|, tail);
  }

  lemma NotStart(s: string, pat: string)
    requires pat != [] && (s == [] || s[0] != pat[0])
    ensures !StartsWith(s, pat)
  {
    assert |pat| <= |s| ==> s[0..|pat|][0] == s[0];
  }

  lemma CleanStep(m: Marks, x: string, t: string)
    requires x != [] && !StartsWith(x + t, m.begin)
    ensures Clean(m, x + t) == [x[0]] + Clean(m, x[1..] + t)
  {
    DropConcat(x, t, 1);
  }

  lemma CleanBreak(m: Marks, rest: string)
    ensures Clean(m, "\n" + rest) == "\n" + Clean(m, rest)
  {
    NotStart("\n" + rest, m.begin);
    CleanStep(m, "\n", rest);
    assert "\n"[1..] + rest == rest;
  }

  lemma CleanInserted(m: Marks, body: string, tail: string)
    requires EndsOnce(m, body) && Flush(tail)
    ensures Clean(m, Block(m, body) + ("\n\n" + tail)) == Clean(m, tail)
    ensures Clean(m, Inserted(m, body, tail)) == "\n\n" + Clean(m, tail)
  {
    RegionOfBlock(m, body, tail);
    AfterBlock(Block(m, body), tail);
    CleanTwoBreaks(m, Block(m, body) + ("\n\n" + tail));
  }

  lemma CleanTwoBreaks(m: Marks, s: string)
    ensures Clean(m, "\n\n" + s) == "\n\n" + Clean(m, s)
  {
    CleanBreak(m, s);
    CleanBreak(m, "\n" + s);
    Assoc("\n", "\n", s);
    Assoc("\n", "\n", Clean(m, s));
    assert "\n" + "\n" == "\n\n";
  }

  /** With no begin marker before it, cutting takes the block out again and nothing else. */
  lemma {:induction false} CleanHead(m: Marks, head: string, t: string)
    requires Find(head, m.begin).None? && t != [] && t[0] == '\n'
    ensures Clean(m, head + t) == head + Clean(m, t)
  {
    if head == [] {
      assert head + t == t && head + Clean(m, t) == Clean(m, t);
    } else {
      AtLeft(head, t, 0, m.begin);
      CleanStep(m, head, t);
      NoneInTail(head, m.begin);
      CleanHead(m, head[1..], t);
      Assoc([head[0]], head[1..], Clean(m, t));
      assert [head[0]] + head[1..] == head;
    }
  }

  lemma CleanSpliced(m: Marks, head: string, body: string, tail: string)
    requires EndsOnce(m, body) && Flush(tail) && Find(head, m.begin).None?
    ensures Clean(m, Spliced(m, head, body, tail)) == head + ("\n\n" + Clean(m, tail))
  {
    CleanHead(m, head, Inserted(m, body, tail));
    CleanInserted(m, body, tail);
  }

  lemma NoneInTail(s: string, pat: string)
    requires s != [] && Find(s, pat).None?
    ensures Find(s[1..], pat).None?
  {
    if Find(s[1..], pat).Some? { AtDrop(s, 1, Find(s[1..], pat).value, pat); }
  }

  // ---- a begin marker before the splice swallows text ----

  lemma InsertedEnd(m: Marks, body: string, tail: string, o: nat)
    requires EndsOnce(m, body) && At(Inserted(m, body, tail), o, m.end)
    ensures o >= 2 + |m.begin| + |body|
  {
    var g := Block(m, body) + ("\n\n" + tail);
    AtChar(Inserted(m, body, tail), o, m.end, 0);
    AtRight("\n\n", g, o, m.end);
    if o < 2 + |m.begin| + |body| { EndInBlock(m, body, "\n\n" + tail, o - 2); }
  }

  /** An end marker in a spliced text is inside the head or not before the end of the block. */
  lemma EndPlace(m: Marks, head: string, body: string, tail: string, p: nat)
    requires EndsOnce(m, body) && At(Spliced(m, head, body, tail), p, m.end)
    ensures p + |m.end| <= |head| || p >= |head| + 2 + |m.begin| + |body|
  {
    if p < |head| {
      AtLeft(head, Inserted(m, body, tail), p, m.end);
    } else {
      EndBehind(m, head, body, tail, p);
    }
  }

  lemma EndBehind(m: Marks, head: string, body: string, tail: string, p: nat)
    requires EndsOnce(m, body) && |head| <= p && At(Spliced(m, head, body, tail), p, m.end)
    ensures p >= |head| + 2 + |m.begin| + |body|
  {
    AtRight(head, Inserted(m, body, tail), p, m.end);
    InsertedEnd(m, body, tail, p - |head|);
  }

  lemma EndThere(m: Marks, head: string, body: string, tail: string)
    ensures At(Spliced(m, head, body, tail), |head| + 2 + |m.begin| + |body|, m.end)
  {
    var g, e := Block(m, body) + ("\n\n" + tail), |m.begin| + |body|;
    BlockAt(m, body, "\n\n" + tail);
    AtRight("\n\n", g, e + 2, m.end);
    AtRight(head, Inserted(m, body, tail), |head| + 2 + e, m.end);
  }

  lemma {:induction false} SpaceRunStops(s: string, j: nat)
    requires j < |s| && !IsSpace(s[j])
    ensures SpaceRun(s) <= j
  {
    if IsSpace(s[0]) { SpaceRunStops(s[1..], j - 1); }
  }

  lemma FindBefore(s: string, pat: string, e: nat) returns (p: nat)
    requires At(s, e, pat)
    ensures p <= e && At(s, p, pat) && Find(s, pat) == Some(p)
  {
    p := Find(s, pat).value;
  }

  lemma RegionOf(m: Marks, u: string, f: nat)
    requires At(u, 0, m.begin) && Find(u[|m.begin|..], m.end) == Some(f)
    ensures var q := |m.begin| + f + |m.end|; q <= |u| && Region(m, u) == Some(SkipBlanks(u, q))
  {
    assert StartsWith(u, m.begin);
    EndWithin(u, |m.begin|, m.end, f);
  }

  lemma RegionTo(m: Marks, s: string, f: nat) returns (q: nat)
    requires At(s, 0, m.begin) && Find(s[|m.begin|..], m.end) == Some(f)
    ensures q == |m.begin| + f + |m.end| && q <= |s| && Region(m, s) == Some(SkipBlanks(s, q))
  {
    q := |m.begin| + f + |m.end|;
    RegionOf(m, s, f);
  }

  lemma EndWithin(u: string, k: nat, pat: string, f: nat)
    requires k <= |u| && Find(u[k..], pat) == Some(f)
    ensures k + f + |pat| <= |u|
  {
    assert At(u[k..], f, pat);
  }

  lemma TailAfter(m: Marks, head: string, body: string, tail: string)
    requires Flush(tail)
    ensures var s, q := Spliced(m, head, body, tail), |head| + 2 + |Block(m, body)|;
            SpaceRun(s[q..]) == 2 && s[q + 2..] == tail && s[|head| + 2..] == Block(m, body) + ("\n\n" + tail)
  {
    var s := Spliced(m, head, body, tail);
    assert s[|head| + 2..] == Block(m, body) + ("\n\n" + tail);
    AfterBlock(Block(m, body), tail);
    DropDrop(s, |head| + 2, |Block(m, body)|);
    DropDrop(s, |head| + 2, |Block(m, body)| + 2);
  }

  lemma SkipStops(m: Marks, x: string, body: string, tail: string, q: nat)
    requires Flush(tail) && (q <= |x| || q == |x| + 2 + |Block(m, body)|)
    ensures var s := Spliced(m, x, body, tail);
            var j := q + SpaceRun(s[q..]); j <= |x| + 2 || j == |x| + 4 + |Block(m, body)|
  {
    var s := Spliced(m, x, body, tail);
    if q <= |x| {
      assert s[q..][|x| + 2 - q] == s[|x| + 2] == m.begin[0];
      SpaceRunStops(s[q..], |x| + 2 - q);
    } else {
      TailAfter(m, x, body, tail);
    }
  }

  lemma FirstAfter(pat: string, s: string, n: nat, e: nat, k: nat) returns (f: nat)
    requires k <= e && At(s, e, pat)
    requires forall p {:trigger At(s, p, pat)} :: 0 <= p && At(s, p, pat) ==> p + |pat| <= n || p >= e
    ensures k <= |s| && Find(s[k..], pat) == Some(f) && (k + f + |pat| <= n || f == e - k)
  {
    AtDrop(s, k, e - k, pat);
    f := FindBefore(s[k..], pat, e - k);
    AtDrop(s, k, f, pat);
  }

  lemma RegionFirst(m: Marks, n: nat, e: nat, s: string) returns (q: nat)
    requires At(s, 0, m.begin) && |m.begin| <= e && At(s, e, m.end)
    requires forall p {:trigger At(s, p, m.end)} :: 0 <= p && At(s, p, m.end) ==> p + |m.end| <= n || p >= e
    ensures (q <= n || q == e + |m.end|) && q <= |s| && Region(m, s) == Some(SkipBlanks(s, q))
  {
    var f := FirstAfter(m.end, s, n, e, |m.begin|);
    q := RegionTo(m, s, f);
  }

  /** A block that starts the head ends in the head, at the splice, or at the tail. */
  lemma RegionStops(m: Marks, x: string, body: string, tail: string)
    requires EndsOnce(m, body) && Flush(tail) && At(x, 0, m.begin)
    ensures var r := Region(m, Spliced(m, x, body, tail));
            r.Some? && (r.value <= |x| + 2 || r.value == |x| + 4 + |Block(m, body)|)
  {
    var s := Spliced(m, x, body, tail);
    AtLeft(x, Inserted(m, body, tail), 0, m.begin);
    EndThere(m, x, body, tail);
    forall p {:trigger At(s, p, m.end)} | 0 <= p && At(s, p, m.end)
      ensures p + |m.end| <= |x| || p >= |x| + 2 + |m.begin| + |body|
    {
      EndPlace(m, x, body, tail, p);
    }
    var q := RegionFirst(m, |x|, |x| + 2 + |m.begin| + |body|, s);
    SkipStops(m, x, body, tail, q);
  }

  lemma BreaksLeft(x: string, g: string, n: nat) returns (w: string)
    requires |x| <= n <= |x| + 2
    ensures (w == "\n\n" || w == "\n" || w == "") && (x + ("\n\n" + g))[n..] == w + g
  {
    w := "\n\n"[n - |x|..];
  }

  lemma SwallowRest(m: Marks, x: string, body: string, tail: string, n: nat)
    requires EndsOnce(m, body) && Flush(tail) && (|x| <= n <= |x| + 2 || n == |x| + 4 + |Block(m, body)|)
    ensures |Inked(Clean(m, Spliced(m, x, body, tail)[n..]))| <= |Inked(tail)|
  {
    CleanShrinks(m, tail);
    if n <= |x| + 2 {
      var w := BreaksLeft(x, Block(m, body) + ("\n\n" + tail), n);
      CleanBreaks(m, w, Block(m, body) + ("\n\n" + tail));
      CleanInserted(m, body, tail);
    } else {
      TailAfter(m, x, body, tail);
    }
  }

  lemma CleanBreaks(m: Marks, w: string, g: string)
    requires w == "\n\n" || w == "\n" || w == ""
    ensures Inked(Clean(m, w + g)) == Inked(Clean(m, g))
  {
    if w == "" {
      assert w + g == g;
    } else {
      CleanBreak(m, g);
      if w == "\n\n" {
        Assoc("\n", "\n", g);
        assert "\n" + "\n" == w;
        CleanBreak(m, "\n" + g);
      }
    }
  }

  lemma SwallowBlock(m: Marks, x: string, n: nat)
    requires At(x, 0, m.begin) && 0 < n <= |x|
    ensures |Inked(x[n..])| < |Inked(x)|
  {
    AtChar(x, 0, m.begin, 0);
    assert x[0..] == x;
    InkSuffix(x, 0, n);
  }

  /** Cutting a spliced text never leaves more than the head's and the tail's own ink, and
      leaves less when a begin marker stands in the head. */
  lemma {:induction false} Swallow(m: Marks, x: string, body: string, tail: string)
    requires EndsOnce(m, body) && Flush(tail)
    ensures var left := |Inked(Clean(m, Spliced(m, x, body, tail)))|;
            && left <= |Inked(x)| + |Inked(tail)|
            && (Find(x, m.begin).Some? ==> left < |Inked(x)| + |Inked(tail)|)
    decreases |x|
  {
    var s, t := Spliced(m, x, body, tail), Inserted(m, body, tail);
    if x == [] {
      SwallowRest(m, x, body, tail, 0);
      assert s[0..] == s;
    } else if At(x, 0, m.begin) {
      RegionStops(m, x, body, tail);
      var n := Region(m, s).value;
      if n <= |x| {
        DropConcat(x, t, n);
        Swallow(m, x[n..], body, tail);
        SwallowBlock(m, x, n);
      } else {
        SwallowRest(m, x, body, tail, n);
        SwallowBlock(m, x, |x|);
      }
    } else {
      SwallowChar(m, x, t);
      Swallow(m, x[1..], body, tail);
    }
  }

  lemma SwallowChar(m: Marks, x: string, t: string)
    requires x != [] && !At(x, 0, m.begin) && t != [] && t[0] == '\n'
    ensures |Inked(Clean(m, x + t))| - |Inked(x)| == |Inked(Clean(m, x[1..] + t))| - |Inked(x[1..])|
    ensures Find(x, m.begin).Some? ==> Find(x[1..], m.begin).Some?
  {
    AtLeft(x, t, 0, m.begin);
    CleanStep(m, x, t);
    InkedConcat([x[0]], Clean(m, x[1..] + t));
    if Find(x, m.begin).Some? { AtDrop(x, 1, Find(x, m.begin).value - 1, m.begin); }
  }

  // ---- the place of the splice ----

  lemma {:induction false} RFindTail(s: string, pat: string)
    requires RFind(s, pat).Some?
    ensures var k := RFind(s, pat).value; StartsWith(s[k..], pat) && RFind(s[k..], pat) == Some(0)
  {
    if RFind(s[1..], pat).Some? {
      RFindTail(s[1..], pat);
      DropDrop(s, 1, RFind(s[1..], pat).value);
    } else {
      assert s[0..] == s;
    }
  }

  lemma {:induction false} RFindConcat(a: string, b: string, pat: string)
    requires RFind(b, pat).Some?
    ensures RFind(a + b, pat) == Some(|a| + RFind(b, pat).value)
  {
    if a == [] {
      assert a + b == b;
    } else {
      DropConcat(a, b, 1);
      RFindConcat(a[1..], b, pat);
    }
  }

  lemma {:induction false} RFindNone(s: string, pat: string)
    requires pat != []
    ensures RFind(s, pat).None? <==> Find(s, pat).None?
  {
    if s != [] {
      RFindNone(s[1..], pat);
      if Find(s[1..], pat).Some? { AtDrop(s, 1, Find(s[1..], pat).value, pat); }
      if Find(s, pat).Some? && Find(s, pat).value > 0 { AtDrop(s, 1, Find(s, pat).value - 1, pat); }
    }
  }

  lemma AtBlank(x: string, w: string, p: nat, pat: string)
    requires AllSpace(w) && OneLine(pat)
    ensures At(x + w, p, pat) <==> At(x, p, pat)
  {
    if p + |pat| <= |x| {
      assert (x + w)[p..p + |pat|] == x[p..p + |pat|];
    } else if At(x + w, p, pat) {
      AtChar(x + w, p, pat, |pat| - 1);
    }
  }

  /** Blanks at the end neither make nor break an occurrence. */
  lemma FindBlank(x: string, w: string, pat: string)
    requires AllSpace(w) && OneLine(pat)
    ensures Find(x + w, pat).None? <==> Find(x, pat).None?
  {
    if Find(x, pat).Some? { AtBlank(x, w, Find(x, pat).value, pat); }
    if Find(x + w, pat).Some? { AtBlank(x, w, Find(x + w, pat).value, pat); }
  }

  /** What stands after the cut begins with the namespace's closing brace, if anything does. */
  lemma CutFacts(m: Marks, c: string)
    ensures var b := c[Cut(m, c)..];
            && (b == [] || (b[0] == '}' && RFind(b, m.close) == Some(0)))
            && Flush(b) && LStripBreaks(b) == b
  {
    if RFind(c, m.close).Some? {
      RFindTail(c, m.close);
      AtChar(c[Cut(m, c)..], 0, m.close, 0);
    }
  }

  lemma CutAgain(m: Marks, c: string)
    ensures var k := Cut(m, c); var x := RStrip(c[..k]); Cut(m, x + ("\n\n" + c[k..])) == |x| + 2
  {
    var k := Cut(m, c);
    var x, b := RStrip(c[..k]), c[k..];
    CutFacts(m, c);
    if RFind(c, m.close).Some? {
      CutBefore(m, x, b);
    } else {
      assert c[..k] == c && b == "" && "\n\n" + b == "\n\n";
      CutAtEnd(m, c);
    }
  }

  lemma CutBefore(m: Marks, x: string, b: string)
    requires RFind(b, m.close) == Some(0)
    ensures Cut(m, x + ("\n\n" + b)) == |x| + 2
  {
    RFindConcat(x + "\n\n", b, m.close);
    Assoc(x, "\n\n", b);
  }

  lemma CutAtEnd(m: Marks, c: string)
    requires RFind(c, m.close).None?
    ensures Cut(m, RStrip(c) + "\n\n") == |RStrip(c)| + 2
  {
    var x := RStrip(c);
    var w := RStripSplit(c);
    RFindNone(c, m.close);
    FindBlank(x, w, m.close);
    FindBlank(x, "\n\n", m.close);
    RFindNone(x + "\n\n", m.close);
  }

  // ---- the names already called ----

  predicate Closed(b: string) {
    b == [] || b[0] == '}'
  }

  lemma OpensBlank(t: string, w: string, b: string)
    requires AllSpace(w) && Closed(b)
    ensures Opens(t + (w + b)) <==> Opens(t)
  {
    SpaceRunFacts(t);
    var r := SpaceRun(t);
    if r < |t| {
      assert t + (w + b) == t[..r] + (t[r..] + (w + b));
      SpaceRunConcat(t[..r], t[r..] + (w + b));
    } else {
      assert t[..r] == t;
      Assoc(t, w, b);
      SpaceRunConcat(t + w, b);
    }
  }

  lemma CallBlank(x: string, w: string, b: string)
    requires AllSpace(w) && Closed(b) && x != []
    ensures Call(x + (w + b)) == Call(x)
  {
    var n, y := WordRun(x), w + b;
    WordRunFacts(x);
    assert x + y == x[..n] + (x[n..] + y);
    WordRunConcat(x[..n], x[n..] + y);
    DropConcat(x, y, n);
    OpensBlank(x[n..], w, b);
    assert (x + y)[..n] == x[..n];
    assert n > 3 ==> (x + y)[..3] == x[..3];
  }

  lemma {:induction false} SymbolsSkip(inWord: bool, w: string, b: string)
    requires AllSpace(w) && Closed(b)
    ensures Symbols(inWord, w + b) == Symbols(false, b)
    decreases w
  {
    if w == [] {
      assert w + b == b;
    } else {
      DropConcat(w, b, 1);
      SymbolsSkip(false, w[1..], b);
    }
  }

  /** Which names are called does not depend on the blanks before the closing brace. */
  lemma {:induction false} SymbolsBlank(inWord: bool, x: string, w: string, v: string, b: string)
    requires AllSpace(w) && AllSpace(v) && Closed(b)
    ensures Symbols(inWord, x + (w + b)) == Symbols(inWord, x + (v + b))
    decreases x
  {
    if x == [] {
      assert x + (w + b) == w + b && x + (v + b) == v + b;
      SymbolsSkip(inWord, w, b);
      SymbolsSkip(inWord, v, b);
    } else {
      CallBlank(x, w, b);
      CallBlank(x, v, b);
      DropConcat(x, w + b, 1);
      DropConcat(x, v + b, 1);
      SymbolsBlank(IsWord(x[0]), x[1..], w, v, b);
    }
  }

  // ---- regeneration keeps the hand-written text ----

  predicate Free(pat: string, s: string) {
    Find(s, pat).None?
  }

  lemma FreeMeans(pat: string, s: string)
    ensures Free(pat, s) <==> forall i {:trigger At(s, i, pat)} :: !At(s, i, pat)
  {
  }

  /** The hand-written text before and after the splice. */
  function Head(m: Marks, text: string): string {
    var c := Clean(m, text);
    RStrip(c[..Cut(m, c)])
  }

  function Tail(m: Marks, text: string): string {
    var c := Clean(m, text);
    c[Cut(m, c)..]
  }

  function Body(m: Marks, render: set<string> -> string, text: string): string {
    render(Symbols(false, Clean(m, text)))
  }

  lemma PatchIs(m: Marks, render: set<string> -> string, text: string)
    ensures Patch(m, render, text) == Spliced(m, Head(m, text), Body(m, render, text), Tail(m, text))
    ensures Flush(Tail(m, text)) && Closed(Tail(m, text))
  {
    CutFacts(m, Clean(m, text));
  }

  lemma CleanIs(m: Marks, text: string) returns (w: string)
    ensures AllSpace(w) && Clean(m, text) == Head(m, text) + (w + Tail(m, text))
    ensures var c := Clean(m, text); c[..Cut(m, c)] == Head(m, text) + w
  {
    var c := Clean(m, text);
    var k := Cut(m, c);
    w := RStripSplit(c[..k]);
    assert c == c[..k] + c[k..];
    Assoc(RStrip(c[..k]), w, c[k..]);
  }

  lemma CleanInk(m: Marks, text: string)
    ensures Inked(Clean(m, text)) == Inked(Head(m, text)) + Inked(Tail(m, text))
  {
    var w := CleanIs(m, text);
    InkedConcat(Head(m, text), w + Tail(m, text));
    InkedConcat(w, Tail(m, text));
    InkedBlank(w);
  }

  lemma SettledIs(m: Marks, text: string)
    ensures Settled(m, text) <==> Free(m.begin, Head(m, text)) && !Marked(m, Tail(m, text))
  {
    var w := CleanIs(m, text);
    FindBlank(Head(m, text), w, m.begin);
  }

  lemma BreaksInk(x: string, b: string)
    ensures Inked(x + ("\n\n" + b)) == Inked(x) + Inked(b)
  {
    InkedConcat(x, "\n\n" + b);
    InkedConcat("\n\n", b);
    InkedBlank("\n\n");
  }

  lemma FreeInk(m: Marks, x: string, body: string, b: string)
    requires EndsOnce(m, body) && Flush(b) && Free(m.begin, x)
    ensures Inked(Clean(m, Spliced(m, x, body, b))) == Inked(x) + Inked(Clean(m, b))
  {
    CleanSpliced(m, x, body, b);
    BreaksInk(x, Clean(m, b));
  }

  lemma KeptParts(m: Marks, x: string, body: string, b: string)
    requires EndsOnce(m, body) && Flush(b)
    ensures Inked(Clean(m, Spliced(m, x, body, b))) == Inked(x) + Inked(b) <==> Free(m.begin, x) && !Marked(m, b)
  {
    if Free(m.begin, x) {
      FreeInk(m, x, body, b);
      CleanShrinks(m, b);
      if !Marked(m, b) { CleanUnmarked(m, b); }
    } else {
      Swallow(m, x, body, b);
    }
  }

  /** When the cut header is settled, cutting the regenerated one gives back the hand-written
      text with only the blanks at the splice changed. */
  lemma SettledIsKept(m: Marks, render: set<string> -> string, text: string)
    requires NeatRenderer(m, render) && Settled(m, text)
    ensures Clean(m, Patch(m, render, text)) == Head(m, text) + ("\n\n" + Tail(m, text))
  {
    PatchIs(m, render, text);
    SettledIs(m, text);
    CleanSpliced(m, Head(m, text), Body(m, render, text), Tail(m, text));
    CleanUnmarked(m, Tail(m, text));
  }

  /** Regeneration keeps every hand-written character that is not blank exactly when the cut
      header is settled; otherwise hand-written text is lost. */
  lemma KeptIffSettled(m: Marks, render: set<string> -> string, text: string)
    requires NeatRenderer(m, render)
    ensures Inked(Clean(m, Patch(m, render, text))) == Inked(Clean(m, text)) <==> Settled(m, text)
  {
    PatchIs(m, render, text);
    SettledIs(m, text);
    CleanInk(m, text);
    KeptParts(m, Head(m, text), Body(m, render, text), Tail(m, text));
  }

  // ---- regeneration is idempotent ----

  lemma SameCut(m: Marks, c: string, x: string, b: string)
    requires var k := Cut(m, c); x == RStrip(c[..k]) && b == c[k..]
    ensures var d := x + ("\n\n" + b); RStrip(d[..Cut(m, d)]) == x && d[Cut(m, d)..] == b
  {
    var k := Cut(m, c);
    var w := RStripSplit(c[..k]);
    CutAgain(m, c);
    PartsOf(x, b, w, c[..k]);
  }

  lemma SameBody(m: Marks, render: set<string> -> string, text: string, d: string)
    requires d == Head(m, text) + ("\n\n" + Tail(m, text))
    ensures render(Symbols(false, d)) == Body(m, render, text)
  {
    var w := CleanIs(m, text);
    CutFacts(m, Clean(m, text));
    SymbolsBlank(false, Head(m, text), w, "\n\n", Tail(m, text));
  }

  lemma SameParts(m: Marks, render: set<string> -> string, text: string, u: string)
    requires Clean(m, u) == Head(m, text) + ("\n\n" + Tail(m, text))
    ensures Head(m, u) == Head(m, text) && Tail(m, u) == Tail(m, text)
    ensures Body(m, render, u) == Body(m, render, text)
  {
    SameCut(m, Clean(m, text), Head(m, text), Tail(m, text));
    SameBody(m, render, text, Clean(m, u));
  }

  lemma PartsOf(x: string, b: string, w: string, a: string)
    requires AllSpace(w) && a == x + w && x == RStrip(a)
    ensures var d := x + ("\n\n" + b); RStrip(d[..|x| + 2]) == x && d[|x| + 2..] == b
  {
    var d := x + ("\n\n" + b);
    assert d[..|x| + 2] == x + "\n\n";
    var v := RStripSplit(a);
    StripTrailing(x, "\n\n");
  }

  lemma PatchAgain(m: Marks, render: set<string> -> string, text: string)
    requires NeatRenderer(m, render) && Settled(m, text)
    ensures Patch(m, render, Patch(m, render, text)) == Patch(m, render, text)
  {
    var u := Patch(m, render, text);
    SettledIsKept(m, render, text);
    SameParts(m, render, text, u);
    PatchIs(m, render, text);
    PatchIs(m, render, u);
  }

  lemma BeginInBlock(m: Marks, body: string, b: string, o: nat)
    requires BeginsOnce(m, body) && At(Block(m, body) + ("\n\n" + b), o, m.begin)
    ensures o == 0 || (o >= |Block(m, body)| + 2 && At(b, o - |Block(m, body)| - 2, m.begin))
  {
    var g := Block(m, body);
    if 0 < o < |g| {
      AtLeft(g, "\n\n" + b, o, m.begin);
      AtDrop(g, 1, o - 1, m.begin);
    } else if o >= |g| {
      AtRight(g, "\n\n" + b, o, m.begin);
      AtChar("\n\n" + b, o - |g|, m.begin, 0);
      AtRight("\n\n", b, o - |g|, m.begin);
    }
  }

  lemma BeginInInserted(m: Marks, body: string, b: string, o: nat)
    requires BeginsOnce(m, body) && At(Inserted(m, body, b), o, m.begin)
    ensures var n := 4 + |Block(m, body)|; o == 2 || (o >= n && At(b, o - n, m.begin))
  {
    AtChar(Inserted(m, body, b), o, m.begin, 0);
    AtRight("\n\n", Block(m, body) + ("\n\n" + b), o, m.begin);
    BeginInBlock(m, body, b, o - 2);
  }

  lemma BeginInSpliced(m: Marks, x: string, body: string, b: string, i: nat)
    requires BeginsOnce(m, body) && Free(m.begin, x) && At(Spliced(m, x, body, b), i, m.begin)
    ensures var n := |x| + 4 + |Block(m, body)|; i == |x| + 2 || (i >= n && At(b, i - n, m.begin))
  {
    FreeMeans(m.begin, x);
    if i < |x| {
      AtLeft(x, Inserted(m, body, b), i, m.begin);
    } else {
      AtRight(x, Inserted(m, body, b), i, m.begin);
      BeginInInserted(m, body, b, i - |x|);
    }
  }

  lemma MarkBegins(m: Marks, s: string, i: nat)
    requires MarkedAt(m, s, i)
    ensures At(s, i, m.begin)
  {
    AtDrop(s, i, 0, m.begin);
  }

  lemma MarkedSuffix(m: Marks, s: string, b: string, n: nat, i: nat)
    requires n <= |s| && s[n..] == b && n <= i
    ensures MarkedAt(m, s, i) <==> MarkedAt(m, b, i - n)
  {
    if i <= |s| { MarkedTail(m, s, n, i); }
  }

  lemma MarkedAfter(m: Marks, x: string, body: string, b: string, i: nat)
    requires Flush(b)
    ensures var n := |x| + 4 + |Block(m, body)|;
            i >= n ==> (MarkedAt(m, Spliced(m, x, body, b), i) <==> MarkedAt(m, b, i - n))
  {
    var n := |x| + 4 + |Block(m, body)|;
    TailAfter(m, x, body, b);
    if i >= n { MarkedSuffix(m, Spliced(m, x, body, b), b, n, i); }
  }

  lemma OneBlock(m: Marks, x: string, body: string, b: string, i: nat)
    requires BeginsOnce(m, body) && Flush(b) && Free(m.begin, x) && !Marked(m, b)
    requires MarkedAt(m, Spliced(m, x, body, b), i)
    ensures i == |x| + 2
  {
    MarkBegins(m, Spliced(m, x, body, b), i);
    BeginInSpliced(m, x, body, b, i);
    MarkedAfter(m, x, body, b, i);
  }

  lemma BlockThere(m: Marks, x: string, body: string, b: string)
    requires EndsOnce(m, body) && Flush(b)
    ensures MarkedAt(m, Spliced(m, x, body, b), |x| + 2)
  {
    TailAfter(m, x, body, b);
    RegionOfBlock(m, body, b);
  }

  lemma OtherInHead(m: Marks, x: string, body: string, b: string, i: nat)
    requires EndsOnce(m, body) && Flush(b) && At(x, i, m.begin)
    ensures MarkedAt(m, Spliced(m, x, body, b), i)
  {
    AtDrop(x, i, 0, m.begin);
    RegionStops(m, x[i..], body, b);
    DropConcat(x, Inserted(m, body, b), i);
  }

  lemma OtherBlock(m: Marks, x: string, body: string, b: string) returns (i: nat)
    requires EndsOnce(m, body) && Flush(b) && !(Free(m.begin, x) && !Marked(m, b))
    ensures MarkedAt(m, Spliced(m, x, body, b), i) && i != |x| + 2
  {
    if Free(m.begin, x) {
      var j :| MarkedAt(m, b, j);
      i := |x| + 4 + |Block(m, body)| + j;
      MarkedAfter(m, x, body, b, i);
    } else {
      i := Find(x, m.begin).value;
      OtherInHead(m, x, body, b, i);
    }
  }

  /** Regenerating twice equals regenerating once exactly when the cut header is settled. */
  lemma IdempotentIffSettled(m: Marks, render: set<string> -> string, text: string)
    requires NeatRenderer(m, render)
    ensures Patch(m, render, Patch(m, render, text)) == Patch(m, render, text) <==> Settled(m, text)
  {
    if Settled(m, text) {
      PatchAgain(m, render, text);
    } else if Patch(m, render, Patch(m, render, text)) == Patch(m, render, text) {
      NotAgain(m, render, text);
    }
  }

  /** A text spliced in two ways was settled in both or in neither. */
  lemma SettledBoth(m: Marks, x: string, body: string, b: string, y: string, other: string, d: string)
    requires Neat(m, body) && Flush(b) && Neat(m, other) && Flush(d)
    requires Spliced(m, x, body, b) == Spliced(m, y, other, d)
    requires Free(m.begin, y) && !Marked(m, d)
    ensures Free(m.begin, x) && !Marked(m, b)
  {
    if !(Free(m.begin, x) && !Marked(m, b)) {
      BlockThere(m, x, body, b);
      var i := OtherBlock(m, x, body, b);
      OneBlock(m, y, other, d, |x| + 2);
      OneBlock(m, y, other, d, i);
    }
  }

  lemma NotAgain(m: Marks, render: set<string> -> string, text: string)
    requires NeatRenderer(m, render) && Patch(m, render, Patch(m, render, text)) == Patch(m, render, text)
    ensures Settled(m, text)
  {
    var u := Patch(m, render, text);
    KeptIffSettled(m, render, u);
    SettledIs(m, u);
    SettledIs(m, text);
    PatchIs(m, render, u);
    PatchIs(m, render, text);
    SettledBoth(m, Head(m, text), Body(m, render, text), Tail(m, text), Head(m, u), Body(m, render, u), Tail(m, u));
  }

  lemma LoneBegin(m: Marks, i: nat)
    ensures !MarkedAt(m, m.begin, i)
  {
    if i == 0 { assert m.begin[0..] == m.begin && m.begin[|m.begin|..] == ""; }
  }

  /** The failing case at its smallest: a header that is one unclosed begin marker. */
  lemma UnclosedMarkerIsLost(m: Marks, render: set<string> -> string)
    requires NeatRenderer(m, render)
    ensures Clean(m, m.begin) == m.begin && Inked(Clean(m, Patch(m, render, m.begin))) != Inked(m.begin)
    ensures Patch(m, render, Patch(m, render, m.begin)) != Patch(m, render, m.begin)
  {
    forall i | 0 <= i ensures !MarkedAt(m, m.begin, i) { LoneBegin(m, i); }
    CleanUnmarked(m, m.begin);
    RFindNone(m.begin, m.close);
    if Find(m.begin, m.close).Some? { AtChar(m.begin, Find(m.begin, m.close).value, m.close, 0); }
    assert m.begin[..|m.begin|] == m.begin && At(m.begin, 0, m.begin);
    KeptIffSettled(m, render, m.begin);
    IdempotentIffSettled(m, render, m.begin);
  }

  // ---- what the generator renders is neat ----

  /** A body of whole lines around which the markers stand on lines of their own. */
  predicate WholeLines(body: string) {
    body != [] && body[0] == '\n' && body[|body| - 1] == '\n'
  }

  lemma AtBetween(body: string, e: string, j: nat, pat: string)
    requires WholeLines(body) && OneLine(pat) && j < |body| && At(body + e, j, pat)
    ensures At(body, j, pat)
  {
    if j + |pat| <= |body| {
      assert (body + e)[j..j + |pat|] == body[j..j + |pat|];
    } else {
      AtChar(body + e, j, pat, |body| - 1 - j);
    }
  }

  lemma EndEarlier(m: Marks, body: string, j: nat)
    requires WholeLines(body) && j < |m.begin| + |body|
    requires (forall i {:trigger At(m.begin, i, m.end)} :: !At(m.begin, i, m.end))
    requires (forall i {:trigger At(body, i, m.end)} :: !At(body, i, m.end))
    ensures !At(Block(m, body), j, m.end)
  {
    var t := body + m.end;
    if j < |m.begin| {
      AtLeft(m.begin, t, j, m.end);
    } else {
      AtRight(m.begin, t, j, m.end);
      if At(t, j - |m.begin|, m.end) { AtBetween(body, m.end, j - |m.begin|, m.end); }
    }
  }

  lemma EndsOnceIn(m: Marks, body: string)
    requires WholeLines(body) && Free(m.end, m.begin) && Free(m.end, body)
    ensures EndsOnce(m, body)
  {
    FreeMeans(m.end, m.begin);
    FreeMeans(m.end, body);
    var g, n := Block(m, body), |m.begin| + |body|;
    forall j {:trigger At(g, j, m.end)} | 0 <= j < n ensures !At(g, j, m.end) { EndEarlier(m, body, j); }
    BlockAt(m, body, "");
    assert g + "" == g;
    FindIs(g, m.end, n);
  }

  lemma BeginsOnceIn(m: Marks, body: string)
    requires WholeLines(body) && Free(m.begin, body) && Free(m.begin, m.end)
    ensures BeginsOnce(m, body)
  {
    FreeMeans(m.begin, body);
    FreeMeans(m.begin, m.end);
    var g := Block(m, body);
    forall j {:trigger At(g[1..], j, m.begin)} | 0 <= j ensures !At(g[1..], j, m.begin) {
      AtDrop(g, 1, j, m.begin);
      BeginLater(m, body, j + 1);
    }
    FreeMeans(m.begin, g[1..]);
  }

  lemma BeginLater(m: Marks, body: string, j: nat)
    requires WholeLines(body) && j > 0
    requires (forall i {:trigger At(body, i, m.begin)} :: !At(body, i, m.begin))
    requires (forall i {:trigger At(m.end, i, m.begin)} :: !At(m.end, i, m.begin))
    ensures !At(Block(m, body), j, m.begin)
  {
    var t := body + m.end;
    if j < |m.begin| {
      AtLeft(m.begin, t, j, m.begin);
    } else {
      AtRight(m.begin, t, j, m.begin);
      var i := j - |m.begin|;
      if i >= |body| {
        AtRight(body, m.end, i, m.begin);
      } else if At(t, i, m.begin) {
        AtBetween(body, m.end, i, m.begin);
      }
    }
  }

  /** Whole lines that contain neither marker are neat, for markers that do not contain each
      other. */
  lemma WholeLinesAreNeat(m: Marks, body: string)
    requires Free(m.end, m.begin) && Free(m.begin, m.end)
    requires WholeLines(body) && Free(m.end, body) && Free(m.begin, body)
    ensures Neat(m, body)
  {
    EndsOnceIn(m, body);
    BeginsOnceIn(m, body);
  }

  lemma BeginSlashes(i: nat)
    requires i < |GEN_BEGIN| && GEN_BEGIN[i] == '/'
    ensures i <= 1
  {
    var head, tail := "// ===== GENERATED ADDITIONS", " - do not edit by hand. =====";
    if i < |head| {
      HeadSlashes(i);
    } else {
      TailSlashes(i - |head|);
    }
  }

  lemma HeadSlashes(i: nat)
    requires i < |"// ===== GENERATED ADDITIONS"| && "// ===== GENERATED ADDITIONS"[i] == '/'
    ensures i <= 1
  {
  }

  lemma TailSlashes(i: nat)
    requires i < |" - do not edit by hand. ====="|
    ensures " - do not edit by hand. ====="[i] != '/'
  {
  }

  lemma ApartByCharacters(b: string, e: string)
    requires |b| > 9 && |e| > 9 && e[0] == '/' && e[1] == '/' && b[9] != e[9]
    requires forall i :: 0 <= i < |b| && b[i] == '/' ==> i <= 1
    ensures Free(e, b)
  {
    if Find(b, e).Some? {
      var i := Find(b, e).value;
      AtChar(b, i, e, 1);
      AtChar(b, i, e, 9);
    }
  }

  lemma LongerIsFree(b: string, e: string)
    requires |e| > |b|
    ensures Free(e, b)
  {
  }

  /** The header's own markers do not contain each other. */
  lemma HeaderMarksApart()
    ensures Free(GEN_END, GEN_BEGIN) && Free(GEN_BEGIN, GEN_END)
  {
    forall i: nat | i < |GEN_BEGIN| && GEN_BEGIN[i] == '/' ensures i <= 1 { BeginSlashes(i); }
    ApartByCharacters(GEN_BEGIN, GEN_END);
    LongerIsFree(GEN_END, GEN_BEGIN);
  }

  ghost predicate WholeLineRenderer(begin: string, end: string, render: set<string> -> string) {
    forall p :: WholeLines(render(p)) && Free(end, render(p)) && Free(begin, render(p))
  }

  lemma Regeneration(m: Marks, render: set<string> -> string, text: string)
    requires Free(m.end, m.begin) && Free(m.begin, m.end) && WholeLineRenderer(m.begin, m.end, render)
    ensures Patch(m, render, Patch(m, render, text)) == Patch(m, render, text) <==> Settled(m, text)
    ensures Inked(Clean(m, Patch(m, render, text))) == Inked(Clean(m, text)) <==> Settled(m, text)
  {
    forall p ensures Neat(m, render(p)) { WholeLinesAreNeat(m, render(p)); }
    IdempotentIffSettled(m, render, text);
    KeptIffSettled(m, render, text);
  }

  /** The header as it is: for every renderer of whole lines that contain neither marker. */
  lemma HeaderRegeneration(render: set<string> -> string, text: string)
    requires WholeLineRenderer(GEN_BEGIN, GEN_END, render)
    ensures AreMarks(MarkText(GEN_BEGIN, GEN_END, NS_CLOSE))
    ensures var m: Marks := MarkText(GEN_BEGIN, GEN_END, NS_CLOSE);
            && (Patch(m, render, Patch(m, render, text)) == Patch(m, render, text) <==> Settled(m, text))
            && (Inked(Clean(m, Patch(m, render, text))) == Inked(Clean(m, text)) <==> Settled(m, text))
  {
    HeaderMarks();
    HeaderMarksApart();
    Regeneration(MarkText(GEN_BEGIN, GEN_END, NS_CLOSE), render, text);
  }
}
