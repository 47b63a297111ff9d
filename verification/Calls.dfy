/** Regenerating the C++ header: which names count as called, where the block goes, and the first
    time it is put in. */
module Calls {
  import opened Text
  import opened Splice

  // ---- the called names ----

  /** A call of `s[i..m]` at `i`, spelled out: at a word boundary `lr_`, more word characters,
      blanks and an opening parenthesis. */
  predicate CallSpelled(s: string, i: int, m: int, n: int) {
    && 0 <= i && i + 3 < m <= n < |s| && (i == 0 || !IsWord(s[i - 1]))
    && s[i..i + 3] == "lr_" && AllWord(s[i..m]) && AllSpace(s[m..n]) && s[n] == '('
  }

  lemma BlanksAt(s: string, m: nat)
    requires m <= |s|
    ensures m + SpaceRun(s[m..]) <= |s| && AllSpace(s[m..m + SpaceRun(s[m..])])
  {
    var k := SpaceRun(s[m..]);
    SpaceRunFacts(s[m..]);
    assert s[m..][..k] == s[m..m + k];
  }

  lemma WordAt(s: string, i: nat)
    requires i <= |s|
    ensures i + WordRun(s[i..]) <= |s| && s[i..][..WordRun(s[i..])] == s[i..i + WordRun(s[i..])]
    ensures AllWord(s[i..i + WordRun(s[i..])])
  {
    WordRunFacts(s[i..]);
    assert s[i..][..WordRun(s[i..])] == s[i..i + WordRun(s[i..])];
  }

  lemma OpensAt(s: string, m: nat)
    requires m <= |s| && Opens(s[m..])
    ensures m + SpaceRun(s[m..]) < |s| && s[m + SpaceRun(s[m..])] == '('
  {
  }

  lemma CallFacts(t: string)
    requires Call(t).Some?
    ensures WordRun(t) > 3 && t[..3] == "lr_" && Opens(t[WordRun(t)..]) && Call(t).value == t[..WordRun(t)]
  {
  }

  lemma Spelled(s: string, i: nat, m: nat, n: nat)
    requires i + 3 < m <= n < |s| && (i == 0 || !IsWord(s[i - 1])) && s[i..][..3] == "lr_"
    requires AllWord(s[i..m]) && AllSpace(s[m..n]) && s[n] == '('
    ensures CallSpelled(s, i, m, n)
  {
    assert s[i..][..3] == s[i..i + 3];
  }

  lemma CallHasSpelling(s: string, i: nat) returns (m: nat, n: nat)
    requires i <= |s| && Call(s[i..]).Some? && (i == 0 || !IsWord(s[i - 1]))
    ensures CallSpelled(s, i, m, n) && Call(s[i..]).value == s[i..m]
  {
    m := i + WordRun(s[i..]);
    n := SpelledTo(s, i, m, s[i..]);
  }

  lemma SpelledTo(s: string, i: nat, m: nat, t: string) returns (n: nat)
    requires i <= |s| && t == s[i..] && Call(t).Some? && m == i + WordRun(t) && (i == 0 || !IsWord(s[i - 1]))
    ensures CallSpelled(s, i, m, n) && Call(t).value == s[i..m]
  {
    CallFacts(t);
    WordAt(s, i);
    DropDrop(s, i, m - i);
    n := BlanksTo(s, m);
    Spelled(s, i, m, n);
  }

  lemma BlanksTo(s: string, m: nat) returns (n: nat)
    requires m <= |s| && Opens(s[m..])
    ensures m <= n < |s| && AllSpace(s[m..n]) && s[n] == '('
  {
    BlanksAt(s, m);
    OpensAt(s, m);
    n := m + SpaceRun(s[m..]);
  }

  lemma RunsAt(t: string, a: string, b: string, c: string)
    requires t == a + (b + c) && AllWord(a) && AllSpace(b) && c != [] && c[0] == '('
    ensures WordRun(t) == |a| && t[..|a|] == a && Opens(t[|a|..])
  {
    assert (b + c)[0] == if b == [] then '(' else b[0];
    WordRunConcat(a, b + c);
    SpaceRunConcat(b, c);
    assert SpaceRun(c) == 0;
    assert t[|a|..] == b + c;
  }

  lemma SpellingIsCall(s: string, i: nat, m: nat, n: nat)
    requires CallSpelled(s, i, m, n)
    ensures Call(s[i..]) == Some(s[i..m])
  {
    var t := s[i..];
    assert t == s[i..m] + (s[m..n] + s[n..]);
    RunsAt(t, s[i..m], s[m..n], s[n..]);
    assert t[..3] == s[i..i + 3];
  }

  /** The name is called at some place of `s` from `i` on. */
  ghost predicate CalledFrom(s: string, i: nat, name: string) {
    exists k, m, n :: i <= k && CallSpelled(s, k, m, n) && name == s[k..m]
  }

  lemma {:induction false} SymbolsFrom(s: string, i: nat, name: string)
    requires i <= |s|
    ensures name in Symbols(i > 0 && IsWord(s[i - 1]), s[i..]) <==> CalledFrom(s, i, name)
    decreases |s| - i
  {
    if i < |s| {
      DropDrop(s, i, 1);
      SymbolsFrom(s, i + 1, name);
      HereOrLater(s, i, name);
    }
  }

  /** A name called from `i` on is called at `i` or later. */
  lemma HereOrLater(s: string, i: nat, name: string)
    requires i < |s|
    ensures CalledFrom(s, i, name) <==>
              CalledFrom(s, i + 1, name) || ((i == 0 || !IsWord(s[i - 1])) && Call(s[i..]) == Some(name))
  {
    if CalledFrom(s, i, name) {
      var k, m, n :| i <= k && CallSpelled(s, k, m, n) && name == s[k..m];
      if k == i { SpellingIsCall(s, i, m, n); }
    }
    if (i == 0 || !IsWord(s[i - 1])) && Call(s[i..]) == Some(name) {
      var m, n := CallHasSpelling(s, i);
    }
  }

  /** A name counts as called exactly when a call of it stands at a word boundary. */
  lemma SymbolsIff(s: string, name: string)
    ensures name in Symbols(false, s) <==> CalledFrom(s, 0, name)
  {
    assert s[0..] == s;
    SymbolsFrom(s, 0, name);
  }

  // ---- the place of the block ----

  /** The closing brace is looked for from the end. */
  lemma {:induction false} RFindIff(s: string, pat: string, k: nat)
    requires pat != []
    ensures RFind(s, pat) == Some(k) <==> At(s, k, pat) && forall i :: k < i < |s| ==> !At(s, i, pat)
    decreases |s|
  {
    if s != [] {
      RFindNone(s[1..], pat);
      if k > 0 {
        RFindIff(s[1..], pat, k - 1);
        AtDrop(s, 1, k - 1, pat);
        LaterOccurrences(s, pat, k);
      } else if RFind(s, pat) == Some(0) {
        NoLaterOccurrence(s, pat);
      } else if At(s, 0, pat) && RFind(s[1..], pat).Some? {
        SomeLaterOccurrence(s, pat);
      }
    }
  }

  lemma LaterOccurrences(s: string, pat: string, k: nat)
    requires 0 < k && s != []
    ensures (forall i :: k < i < |s| ==> !At(s, i, pat)) <==> (forall i :: k - 1 < i < |s[1..]| ==> !At(s[1..], i, pat))
  {
    forall i: nat | i < |s[1..]| ensures At(s, i + 1, pat) <==> At(s[1..], i, pat) { AtDrop(s, 1, i, pat); }
    if forall i :: k < i < |s| ==> !At(s, i, pat) {
      forall i | k - 1 < i < |s[1..]| ensures !At(s[1..], i, pat) { assert !At(s, i + 1, pat); }
    }
    if forall i :: k - 1 < i < |s[1..]| ==> !At(s[1..], i, pat) {
      forall i | k < i < |s| ensures !At(s, i, pat) { assert !At(s[1..], i - 1, pat); }
    }
  }

  lemma NoLaterOccurrence(s: string, pat: string)
    requires s != [] && Find(s[1..], pat).None?
    ensures forall i :: 0 < i < |s| ==> !At(s, i, pat)
  {
    forall i | 0 < i < |s| ensures !At(s, i, pat) {
      AtDrop(s, 1, i - 1, pat);
      assert !At(s[1..], i - 1, pat);
    }
  }

  lemma SomeLaterOccurrence(s: string, pat: string)
    requires s != [] && pat != [] && Find(s[1..], pat).Some?
    ensures exists i :: 0 < i < |s| && At(s, i, pat)
  {
    var j := Find(s[1..], pat).value;
    AtDrop(s, 1, j, pat);
  }

  // ---- the first block ----

  lemma BraceKeepsBreaks(t: string)
    requires t == [] || t[0] == '}'
    ensures LStripBreaks(t) == t
  {
  }

  lemma UnmarkedIsClean(m: Marks, s: string)
    requires Find(s, m.begin).None?
    ensures Clean(m, s) == s
  {
    forall i ensures !MarkedAt(m, s, i) {
      if 0 <= i <= |s| { AtDrop(s, i, 0, m.begin); }
    }
    CleanUnmarked(m, s);
  }

  /** Any header gets its block before the last closing marker that is left after cutting: the text
      before it trimmed, an empty line, the block, an empty line and the rest. */
  lemma PatchIs(m: Marks, render: set<string> -> string, text: string, h: string, t: string)
    requires Clean(m, text) == h + t && At(t, 0, m.close) && forall i :: 0 < i < |t| ==> !At(t, i, m.close)
    ensures Patch(m, render, text)
         == RStrip(h) + ("\n\n" + ((m.begin + (render(Symbols(false, h + t)) + m.end)) + ("\n\n" + t)))
  {
    var s := h + t;
    RFindIff(t, m.close, 0);
    RFindConcat(h, t, m.close);
    assert s[..|h|] == h && s[|h|..] == t;
    AtChar(t, 0, m.close, 0);
    BraceKeepsBreaks(t);
  }

  /** Without that marker the block goes to the end. */
  lemma PatchAtEnd(m: Marks, render: set<string> -> string, text: string, s: string)
    requires Clean(m, text) == s && Find(s, m.close).None?
    ensures Patch(m, render, text)
         == RStrip(s) + ("\n\n" + ((m.begin + (render(Symbols(false, s)) + m.end)) + ("\n\n" + "")))
  {
    RFindNone(s, m.close);
    assert s[..|s|] == s && s[|s|..] == "";
  }

  /** A header without a generated block gets one before its last closing marker: the text
      before it trimmed, an empty line, the block, an empty line and the rest. */
  lemma FirstBlock(m: Marks, render: set<string> -> string, h: string, t: string)
    requires Find(h + t, m.begin).None? && At(t, 0, m.close) && forall i :: 0 < i < |t| ==> !At(t, i, m.close)
    ensures Patch(m, render, h + t)
         == RStrip(h) + ("\n\n" + ((m.begin + (render(Symbols(false, h + t)) + m.end)) + ("\n\n" + t)))
  {
    UnmarkedIsClean(m, h + t);
    PatchIs(m, render, h + t, h, t);
  }

  /** Without that marker the block goes to the end. */
  lemma FirstBlockAtEnd(m: Marks, render: set<string> -> string, s: string)
    requires Find(s, m.begin).None? && Find(s, m.close).None?
    ensures Patch(m, render, s)
         == RStrip(s) + ("\n\n" + ((m.begin + (render(Symbols(false, s)) + m.end)) + ("\n\n" + "")))
  {
    UnmarkedIsClean(m, s);
    PatchAtEnd(m, render, s, s);
  }

  // ---- cutting blocks out ----

  lemma FirstIn(x: string, pat: string, r: string)
    requires Find(x + pat, pat) == Some(|x|)
    ensures Find(x + (pat + r), pat) == Some(|x|)
  {
    var s, t := x + pat, x + (pat + r);
    Assoc(x, pat, r);
    forall j {:trigger At(t, j, pat)} | 0 <= j < |x| ensures !At(t, j, pat) {
      assert !At(s, j, pat);
      assert t[j..j + |pat|] == s[j..j + |pat|];
    }
    assert t[|x|..|x| + |pat|] == pat;
    FindIs(t, pat, |x|);
  }

  /** No begin marker starts in `a`, with `t` behind it. */
  ghost predicate BeginsLater(m: Marks, a: string, t: string) {
    forall i :: 0 <= i < |a| ==> !At(a + t, i, m.begin)
  }

  lemma BeginsLaterTail(m: Marks, a: string, t: string)
    requires a != [] && BeginsLater(m, a, t)
    ensures BeginsLater(m, a[1..], t)
  {
    DropConcat(a, t, 1);
    forall i | 0 <= i < |a[1..]| ensures !At(a[1..] + t, i, m.begin) {
      assert !At(a + t, i + 1, m.begin);
      AtDrop(a + t, 1, i, m.begin);
    }
  }

  lemma {:induction false} CleanBefore(m: Marks, a: string, t: string)
    requires BeginsLater(m, a, t)
    ensures Clean(m, a + t) == a + Clean(m, t)
  {
    if a == [] {
      assert a + t == t;
    } else {
      assert !At(a + t, 0, m.begin);
      CleanStep(m, a, t);
      BeginsLaterTail(m, a, t);
      CleanBefore(m, a[1..], t);
      HeadAndRest(a, Clean(m, t));
    }
  }

  lemma HeadAndRest(a: string, r: string)
    requires a != []
    ensures [a[0]] + (a[1..] + r) == a + r
  {
    Assoc([a[0]], a[1..], r);
  }

  lemma DropAll(a: string, b: string)
    ensures (a + b)[|a|..] == b
  {
  }

  lemma DropBoth(a: string, b: string, c: string)
    ensures (a + (b + c))[|a| + |b|..] == c
  {
    DropAll(a, b + c);
    DropAll(b, c);
    DropDrop(a + (b + c), |a|, |b|);
  }

  lemma BlockParts(b: string, x: string, e: string, v: string, t: string)
    requires t == b + (x + (e + v))
    ensures StartsWith(t, b) && t[|b|..] == x + (e + v) && |t| == |b| + |x| + |e| + |v| && t[|b| + |x| + |e|..] == v
  {
    DropAll(b, x + (e + v));
    DropBoth(x, e, v);
    DropDrop(t, |b|, |x| + |e|);
  }

  lemma RegionAt(m: Marks, t: string, u: string, e: nat, v: string, k: nat)
    requires StartsWith(t, m.begin) && t[|m.begin|..] == u && Find(u, m.end) == Some(e)
    requires k == |m.begin| + e + |m.end| <= |t| && t[k..] == v
    ensures Region(m, t) == Some(k + SpaceRun(v))
  {
  }

  /** A block: the begin marker, `x` up to the first end marker, and what follows, `v`. */
  lemma WholeRegion(m: Marks, t: string, x: string, v: string, k: nat)
    requires t == m.begin + (x + (m.end + v)) && Find(x + m.end, m.end) == Some(|x|) && k == |m.begin| + |x| + |m.end|
    ensures k <= |t| && Region(m, t) == Some(k + SpaceRun(v)) && t[k..] == v
  {
    BlockParts(m.begin, x, m.end, v, t);
    FirstIn(x, m.end, v);
    RegionAt(m, t, x + (m.end + v), |x|, v, k);
  }

  lemma CleanRegion(m: Marks, t: string, n: nat, rest: string)
    requires Region(m, t) == Some(n) && t[n..] == rest
    ensures Clean(m, t) == Clean(m, rest)
  {
  }

  /** The text before the first begin marker is kept; the block, to the first end marker behind
      it and with the blanks that follow, is cut out; and so on behind it. */
  lemma CleanBlock(m: Marks, a: string, x: string, w: string, rest: string)
    requires Find(a + m.begin, m.begin) == Some(|a|) && Find(x + m.end, m.end) == Some(|x|)
    requires AllSpace(w) && (rest == [] || !IsSpace(rest[0]))
    ensures Clean(m, a + (m.begin + (x + (m.end + (w + rest))))) == a + Clean(m, rest)
  {
    var r := x + (m.end + (w + rest));
    CleanFirst(m, m.begin + r, x, w, rest, |m.begin| + |x| + |m.end|);
    NotEarlier(m, a, r);
    CleanBefore(m, a, m.begin + r);
  }

  lemma CleanFirst(m: Marks, t: string, x: string, w: string, rest: string, k: nat)
    requires t == m.begin + (x + (m.end + (w + rest))) && Find(x + m.end, m.end) == Some(|x|)
    requires k == |m.begin| + |x| + |m.end|
    requires AllSpace(w) && (rest == [] || !IsSpace(rest[0]))
    ensures Clean(m, t) == Clean(m, rest)
  {
    WholeRegion(m, t, x, w + rest, k);
    CleanPast(m, t, k, w, rest);
  }

  lemma CleanPast(m: Marks, t: string, k: nat, w: string, rest: string)
    requires k <= |t| && t[k..] == w + rest && Region(m, t) == Some(k + SpaceRun(w + rest))
    requires AllSpace(w) && (rest == [] || !IsSpace(rest[0]))
    ensures Clean(m, t) == Clean(m, rest)
  {
    SpaceRunConcat(w, rest);
    TailBehind(t, k, w, rest);
    CleanRegion(m, t, k + |w|, rest);
  }

  lemma TailBehind(t: string, k: nat, w: string, rest: string)
    requires k <= |t| && t[k..] == w + rest
    ensures k + |w| <= |t| && t[k + |w|..] == rest
  {
    DropDrop(t, k, |w|);
    DropAll(w, rest);
  }

  lemma NotEarlier(m: Marks, a: string, r: string)
    requires Find(a + m.begin, m.begin) == Some(|a|)
    ensures BeginsLater(m, a, m.begin + r)
  {
    FirstIn(a, m.begin, r);
  }

  lemma LacksBehind(r: string, j: nat, pat: string)
    requires j <= |r| && Find(r, pat).None?
    ensures Find(r[j..], pat).None?
  {
    if Find(r[j..], pat).Some? { AtDrop(r, j, Find(r[j..], pat).value, pat); }
  }

  lemma NoRegionBehind(m: Marks, a: string, r: string, i: nat)
    requires |a| <= i <= |a + (m.begin + r)| && Find(r, m.end).None?
    ensures Region(m, (a + (m.begin + r))[i..]).None?
  {
    var s := a + (m.begin + r);
    var t := s[i..];
    if StartsWith(t, m.begin) {
      var j := i - |a|;
      assert t[|m.begin|..] == r[j..];
      LacksBehind(r, j, m.end);
    }
  }

  lemma NoRegionBefore(m: Marks, a: string, t: string, i: nat)
    requires i < |a| && BeginsLater(m, a, t)
    ensures Region(m, (a + t)[i..]).None?
  {
    AtDrop(a + t, i, 0, m.begin);
  }

  /** A begin marker with no end marker behind it is not cut, and neither is anything else. */
  lemma NothingToCut(m: Marks, a: string, r: string)
    requires Find(a + m.begin, m.begin) == Some(|a|) && Find(r, m.end).None?
    ensures Clean(m, a + (m.begin + r)) == a + (m.begin + r)
  {
    var s := a + (m.begin + r);
    NotEarlier(m, a, r);
    forall i ensures !MarkedAt(m, s, i) {
      if 0 <= i < |a| { NoRegionBefore(m, a, m.begin + r, i); }
      if |a| <= i <= |s| { NoRegionBehind(m, a, r, i); }
    }
    CleanUnmarked(m, s);
  }
}
