/** Alias typedefs of value structures: which names they enter, on any text. */
module Aliases {
  import opened Text
  import opened ValueStructs
  import Fields

  // ---- one alias line ----

  /** `typedef struct lr_..._t lr_...;` with any blanks between the words. */
  function AliasLine(w: string, x: string, v: string, y: string): string {
    "typedef struct" + (w + (Target(x) + (v + (Alias(y) + ";"))))
  }

  function Target(x: string): string {
    "lr_" + (x + "_t")
  }

  function Alias(y: string): string {
    "lr_" + y
  }

  predicate IsAliasLine(w: string, x: string, v: string, y: string) {
    w != [] && AllSpace(w) && v != [] && AllSpace(v) && x != [] && AllWord(x) && y != [] && AllWord(y)
  }

  lemma TargetIsHandle(x: string)
    requires x != [] && AllWord(x)
    ensures IsHandle(Target(x)) && AllWord(Target(x)) && Target(x)[0] == 'l'
  {
    var h := Target(x);
    assert AllWord(x + "_t");
    assert h[0..3] == "lr_" && h[|h| - 2..|h|] == "_t";
  }

  lemma AliasIsAlias(y: string)
    requires y != [] && AllWord(y)
    ensures IsAlias(Alias(y)) && AllWord(Alias(y)) && Alias(y)[0] == 'l'
  {
    assert Alias(y)[0..3] == "lr_";
  }

  lemma WordThen(h: string, r: string)
    requires h != [] && AllWord(h) && (r == [] || !IsWord(r[0]))
    ensures WordRun(h + r) == |h| && (h + r)[..|h|] == h && (h + r)[|h|..] == r
  {
    WordRunConcat(h, r);
  }

  lemma BlanksThen(w: string, r: string)
    requires AllSpace(w) && (r == [] || !IsSpace(r[0]))
    ensures SpaceRun(w + r) == |w| && (w + r)[|w|..] == r
  {
    SpaceRunConcat(w, r);
  }

  lemma AliasAfterIs(v: string, g: string, rest: string)
    requires v != [] && AllSpace(v) && g != [] && IsAlias(g) && AllWord(g)
    ensures AliasAfter(v + (g + (";" + rest))) == Some((g, |rest|))
  {
    var e := g + (";" + rest);
    WordThen(g, ";" + rest);
    BlanksThen(v, e);
  }

  lemma AliasedParts(w: string, h: string, v: string, g: string, rest: string)
    requires w != [] && AllSpace(w) && v != [] && AllSpace(v)
    requires h != [] && IsHandle(h) && AllWord(h) && g != [] && IsAlias(g) && AllWord(g)
    ensures Aliased(w + (h + (v + (g + (";" + rest))))) == Some((h, "", g, |rest|))
  {
    var d := v + (g + (";" + rest));
    AliasAfterIs(v, g, rest);
    WordThen(h, d);
    BlanksThen(w, h + d);
  }

  lemma LineSplits(w: string, h: string, v: string, g: string, rest: string)
    ensures ("typedef struct" + (w + (h + (v + (g + ";"))))) + rest
         == "typedef struct" + (w + (h + (v + (g + (";" + rest)))))
  {
    Assoc(g, ";", rest);
    Assoc(v, g + ";", rest);
    Assoc(h, v + (g + ";"), rest);
    Assoc(w, h + (v + (g + ";")), rest);
    Assoc("typedef struct", w + (h + (v + (g + ";"))), rest);
  }

  /** An alias line is matched whole, with target and alias, whatever follows. */
  lemma AliasRead(w: string, x: string, v: string, y: string, rest: string)
    requires IsAliasLine(w, x, v, y)
    ensures MatchAlias(AliasLine(w, x, v, y) + rest) == Some(Found(Target(x), "", Alias(y), |AliasLine(w, x, v, y)|))
  {
    TargetIsHandle(x);
    AliasIsAlias(y);
    AliasedParts(w, Target(x), v, Alias(y), rest);
    LineSplits(w, Target(x), v, Alias(y), rest);
    MatchedWhole(Aliased, "typedef struct", AliasLine(w, x, v, y), rest,
                 w + (Target(x) + (v + (Alias(y) + (";" + rest)))), Target(x), "", Alias(y));
  }

  lemma AliasSplits(g: string) returns (y: string)
    requires IsAlias(g)
    ensures g == Alias(y) && y != [] && AllWord(y)
  {
    y := g[3..];
    assert g == g[0..3] + y;
  }

  lemma AliasAfterSplits(u: string) returns (v: string, rest: string)
    requires AliasAfter(u).Some?
    ensures var (g, left) := AliasAfter(u).value;
            u == v + (g + (";" + rest)) && |rest| == left && v != [] && AllSpace(v) && IsAlias(g)
  {
    SpaceRunFacts(u);
    v := u[..SpaceRun(u)];
    var t := u[SpaceRun(u)..];
    var n := WordRun(t);
    rest := t[n + 1..];
    assert t == t[..n] + (";" + rest);
    assert u == v + t;
  }

  lemma AliasedSplits(t: string, h: string, e: string, g: string, left: nat)
    returns (w: string, v: string, rest: string)
    requires Aliased(t) == Some((h, e, g, left))
    ensures t == w + (h + (v + (g + (";" + rest)))) && e == "" && |rest| == left
    ensures w != [] && AllSpace(w) && IsHandle(h) && v != [] && AllSpace(v) && IsAlias(g)
  {
    SpaceRunFacts(t);
    w := t[..SpaceRun(t)];
    var u := t[SpaceRun(t)..];
    AliasedIs(t, u);
    v, rest := HandleThenSplits(u);
    Fields.CutAt(t, SpaceRun(t));
  }

  lemma HandleThenSplits(u: string) returns (v: string, rest: string)
    requires HandleThen(u).Some?
    ensures var (h, e, g, left) := HandleThen(u).value;
            && u == h + (v + (g + (";" + rest))) && e == "" && |rest| == left
            && IsHandle(h) && v != [] && AllSpace(v) && IsAlias(g)
  {
    var h, t := u[..WordRun(u)], u[WordRun(u)..];
    HandleThenIs(u, h, t);
    v, rest := AliasAfterSplits(t);
    Fields.CutAt(u, WordRun(u));
  }

  /** The text starts with this alias typedef. */
  predicate StartsAlias(s: string, m: Found, w: string, x: string, v: string, y: string) {
    && IsAliasLine(w, x, v, y) && m.tag == "lr_" + (x + "_t") && m.body == "" && m.handle == "lr_" + y
    && AliasLine(w, x, v, y) <= s && m.len == |AliasLine(w, x, v, y)|
  }

  /** An alias typedef at the start of `s`, its parts spelled out. */
  ghost predicate IsAliasText(s: string, m: Found) {
    exists w, x, v, y :: StartsAlias(s, m, w, x, v, y)
  }

  lemma MatchedAliasText(s: string, m: Found)
    requires MatchAlias(s) == Some(m)
    ensures IsAliasText(s, m)
  {
    var t := s[|ALIAS_OPENER|..];
    var w, v, rest := AliasedSplits(t, m.tag, m.body, m.handle, |s| - m.len);
    var x := Fields.HandleSplits(m.tag);
    var y := AliasSplits(m.handle);
    Fields.OpenedBy(s, "typedef struct");
    LineSplits(w, m.tag, v, m.handle, rest);
    Fields.LineBefore(s, AliasLine(w, x, v, y), rest);
    assert StartsAlias(s, m, w, x, v, y);
  }

  /** What is matched as an alias: a text that starts with an alias typedef, and no other. */
  lemma AliasTextIff(s: string, m: Found)
    ensures MatchAlias(s) == Some(m) <==> IsAliasText(s, m)
  {
    if MatchAlias(s) == Some(m) { MatchedAliasText(s, m); }
    if w, x, v, y :| StartsAlias(s, m, w, x, v, y) { StartedAlias(s, m, w, x, v, y); }
  }

  lemma StartedAlias(s: string, m: Found, w: string, x: string, v: string, y: string)
    requires StartsAlias(s, m, w, x, v, y)
    ensures MatchAlias(s) == Some(m)
  {
    Fields.PrefixSplits(s, AliasLine(w, x, v, y));
    AliasRead(w, x, v, y, s[m.len..]);
  }

  // ---- matches do not run over the start of a typedef line ----

  lemma NoHandleOnT(s: string)
    requires s != [] && s[0] == 't'
    ensures !IsHandle(s[..WordRun(s)]) && !IsAlias(s[..WordRun(s)])
  {
    var h := s[..WordRun(s)];
    if IsHandle(h) { AtChar(h, 0, "lr_", 0); }
    if IsAlias(h) { AtChar(h, 0, "lr_", 0); }
  }

  lemma WholeRun(u: string)
    ensures WordRun(u) == |u| ==> AllWord(u)
    ensures SpaceRun(u) == |u| ==> AllSpace(u)
  {
    WordRunFacts(u);
    SpaceRunFacts(u);
    assert u[..|u|] == u;
  }

  lemma WordStopsInside(u: string, y: string)
    requires u != [] && !IsWord(u[|u| - 1])
    ensures WordRun(u + y) == WordRun(u) < |u| && (u + y)[..WordRun(u)] == u[..WordRun(u)]
    ensures (u + y)[WordRun(u)] == u[WordRun(u)] && (u + y)[WordRun(u)..] == u[WordRun(u)..] + y
  {
    WordRunFacts(u);
    WholeRun(u);
    var n := WordRun(u);
    assert u + y == u[..n] + (u[n..] + y);
    WordRunConcat(u[..n], u[n..] + y);
  }

  lemma BlanksStopInside(t: string, y: string)
    requires !AllSpace(t)
    ensures SpaceRun(t + y) == SpaceRun(t) < |t| && (t + y)[SpaceRun(t)..] == t[SpaceRun(t)..] + y
  {
    SpaceRunFacts(t);
    WholeRun(t);
    var n := SpaceRun(t);
    assert t + y == t[..n] + (t[n..] + y);
    SpaceRunConcat(t[..n], t[n..] + y);
  }

  lemma BlanksRunOut(t: string, y: string)
    requires AllSpace(t) && y != [] && !IsSpace(y[0])
    ensures (t + y)[SpaceRun(t + y)..] == y && t[SpaceRun(t)..] == ""
  {
    SpaceRunConcat(t, y);
    assert t + "" == t;
    SpaceRunConcat(t, "");
  }

  lemma AliasAfterLocal(v: string, y: string)
    requires v != [] && v[|v| - 1] == '\n' && y != [] && y[0] == 't'
    ensures AliasAfter(v + y) == match AliasAfter(v) case None => None case Some((g, left)) => Some((g, left + |y|))
    ensures AliasAfter(v).Some? ==> AliasAfter(v).value.1 > 0
  {
    if AllSpace(v) {
      BlanksRunOut(v, y);
      NoHandleOnT(y);
    } else {
      BlanksStopInside(v, y);
      var w := v[SpaceRun(v)..];
      assert w[|w| - 1] == v[|v| - 1];
      WordStopsInside(w, y);
    }
  }

  lemma HandleThenIs(u: string, h: string, v: string)
    requires h == u[..WordRun(u)] && v == u[WordRun(u)..]
    ensures HandleThen(u) == if !IsHandle(h) then None
                             else match AliasAfter(v) case None => None case Some((g, left)) => Some((h, "", g, left))
  {
  }

  lemma HandleThenLocal(u: string, y: string)
    requires u != [] && u[|u| - 1] == '\n' && y != [] && y[0] == 't'
    ensures HandleThen(u + y) == Behind(HandleThen(u), |y|)
    ensures HandleThen(u).Some? ==> HandleThen(u).value.3 > 0
  {
    WordStopsInside(u, y);
    var h, v := u[..WordRun(u)], u[WordRun(u)..];
    assert v[|v| - 1] == u[|u| - 1];
    HandleThenIs(u, h, v);
    HandleThenIs(u + y, h, v + y);
    AliasAfterLocal(v, y);
  }

  lemma AllBlankLocal(t: string, y: string)
    requires AllSpace(t) && y != [] && y[0] == 't'
    ensures Aliased(t + y) == None && Aliased(t) == None
  {
    BlanksRunOut(t, y);
    NoHandleOnT(y);
  }

  lemma AliasedIs(t: string, u: string)
    requires u == t[SpaceRun(t)..]
    ensures Aliased(t) == if SpaceRun(t) == 0 then None else HandleThen(u)
  {
  }

  /** The match with `n` more characters behind it. */
  function Behind(r: Option<(string, string, string, nat)>, n: nat): Option<(string, string, string, nat)> {
    match r case None => None case Some((h, e, g, left)) => Some((h, e, g, left + n))
  }

  lemma NotBlankLocal(t: string, y: string)
    requires t != [] && t[|t| - 1] == '\n' && y != [] && y[0] == 't' && !AllSpace(t)
    ensures Aliased(t + y) == Behind(Aliased(t), |y|)
    ensures Aliased(t).Some? ==> Aliased(t).value.3 > 0
  {
    BlanksStopInside(t, y);
    var u := t[SpaceRun(t)..];
    assert u[|u| - 1] == t[|t| - 1];
    AliasedIs(t, u);
    AliasedIs(t + y, u + y);
    HandleThenLocal(u, y);
  }

  lemma AliasedLocal(t: string, y: string)
    requires t != [] && t[|t| - 1] == '\n' && y != [] && y[0] == 't'
    ensures Aliased(t + y) == Behind(Aliased(t), |y|)
    ensures Aliased(t).Some? ==> Aliased(t).value.3 > 0
  {
    if AllSpace(t) { AllBlankLocal(t, y); } else { NotBlankLocal(t, y); }
  }

  lemma OpenerLocal(a: string, r: string)
    requires a != [] && a[|a| - 1] == '\n'
    ensures StartsWith(a + r, ALIAS_OPENER) <==> StartsWith(a, ALIAS_OPENER)
    ensures StartsWith(a, ALIAS_OPENER) ==> |a| > |ALIAS_OPENER|
  {
    var n := |ALIAS_OPENER|;
    assert '\n' !in ALIAS_OPENER;
    if |a| > n {
      assert (a + r)[0..n] == a[0..n];
    } else if StartsWith(a + r, ALIAS_OPENER) {
      AtChar(a + r, 0, ALIAS_OPENER, |a| - 1);
    } else if StartsWith(a, ALIAS_OPENER) {
      AtChar(a, 0, ALIAS_OPENER, |a| - 1);
    }
  }

  lemma MatchLocal(a: string, r: string)
    requires a != [] && a[|a| - 1] == '\n' && r != [] && r[0] == 't'
    ensures MatchAlias(a + r) == MatchAlias(a)
    ensures MatchAlias(a).Some? ==> MatchAlias(a).value.len < |a|
  {
    OpenerLocal(a, r);
    if StartsWith(a, ALIAS_OPENER) {
      var n := |ALIAS_OPENER|;
      DropConcat(a, r, n);
      assert a[n..][|a| - n - 1] == '\n';
      AliasedLocal(a[n..], r);
    }
  }

  // ---- the loop over a text ----

  function FoldAliases(t: map<string, Struct>, bol: bool, s: string): map<string, Struct> {
    FoldMatches(MatchAlias, EnterAlias, t, bol, s)
  }

  /** Matches of `pat` in whole lines are not changed by a line that starts with `t`. */
  ghost predicate Local(pat: string -> Option<Found>) {
    forall a, r :: a != [] && a[|a| - 1] == '\n' && r != [] && r[0] == 't' ==>
                     pat(a + r) == pat(a) && (pat(a).Some? ==> pat(a).value.len < |a|)
  }

  lemma AliasesAreLocal()
    ensures Local(MatchAlias)
  {
    forall a, r | a != [] && a[|a| - 1] == '\n' && r != [] && r[0] == 't'
      ensures MatchAlias(a + r) == MatchAlias(a) && (MatchAlias(a).Some? ==> MatchAlias(a).value.len < |a|)
    {
      MatchLocal(a, r);
    }
  }

  lemma {:induction false} FoldSplit<A>(pat: string -> Option<Found>, enter: (A, Found) -> A, t: A, bol: bool,
                                        a: string, r: string)
    requires Local(pat) && (a == [] || a[|a| - 1] == '\n') && r != [] && r[0] == 't'
    ensures FoldMatches(pat, enter, t, bol, a + r)
         == FoldMatches(pat, enter, FoldMatches(pat, enter, t, bol, a), a != [] || bol, r)
    decreases |a|
  {
    if a == [] {
      assert a + r == r;
    } else {
      assert pat(a + r) == pat(a);
      if bol && Fits(pat, a) {
        var m := pat(a).value;
        DropConcat(a, r, m.len);
        FoldSplit(pat, enter, enter(t, m), false, a[m.len..], r);
      } else {
        DropConcat(a, r, 1);
        FoldSplit(pat, enter, t, a[0] == '\n', a[1..], r);
      }
    }
  }

  /** What was entered stays. */
  lemma {:induction false} FoldKeeps(pat: string -> Option<Found>, t: map<string, Struct>, bol: bool, s: string,
                                     k: string)
    requires k in t
    ensures var r := FoldMatches(pat, EnterAlias, t, bol, s); k in r && r[k] == t[k]
    decreases |s|
  {
    if s != [] {
      if bol && Fits(pat, s) {
        FoldKeeps(pat, EnterAlias(t, pat(s).value), false, s[pat(s).value.len..], k);
      } else {
        FoldKeeps(pat, t, s[0] == '\n', s[1..], k);
      }
    }
  }

  /** A match of `pat` that enters `k` starts at `i`, at the start of a line. */
  predicate EntersAt(pat: string -> Option<Found>, s: string, i: nat, k: string) {
    i < |s| && (i == 0 || s[i - 1] == '\n') && pat(s[i..]).Some? && pat(s[i..]).value.handle == k
  }

  lemma {:induction false} FoldLeavesOut(pat: string -> Option<Found>, t: map<string, Struct>, s: string, n: nat,
                                         bol: bool, k: string)
    requires n <= |s| && k !in t && (forall i :: 0 <= i < |s| ==> !EntersAt(pat, s, i, k))
    requires bol ==> n == 0 || s[n - 1] == '\n'
    ensures k !in FoldMatches(pat, EnterAlias, t, bol, s[n..])
    decreases |s| - n
  {
    if n < |s| {
      var r := s[n..];
      if bol && Fits(pat, r) {
        var m := pat(r).value;
        assert !EntersAt(pat, s, n, k);
        DropDrop(s, n, m.len);
        FoldLeavesOut(pat, EnterAlias(t, m), s, n + m.len, false, k);
      } else {
        DropDrop(s, n, 1);
        FoldLeavesOut(pat, t, s, n + 1, s[n] == '\n', k);
      }
    }
  }

  /** An alias line for `k` starts at `i`. */
  predicate AliasAt(s: string, i: nat, k: string) {
    EntersAt(MatchAlias, s, i, k)
  }

  lemma NotEntered(t: map<string, Struct>, a: string, k: string)
    requires k !in t && forall i :: 0 <= i < |a| ==> !AliasAt(a, i, k)
    ensures k !in FoldAliases(t, true, a)
  {
    assert a[0..] == a;
    forall i | 0 <= i < |a| ensures !EntersAt(MatchAlias, a, i, k) { assert !AliasAt(a, i, k); }
    FoldLeavesOut(MatchAlias, t, a, 0, true, k);
  }

  lemma AliasStep(t: map<string, Struct>, w: string, x: string, v: string, y: string, b: string)
    requires IsAliasLine(w, x, v, y)
    ensures var l := AliasLine(w, x, v, y);
            FoldAliases(t, true, l + b) == FoldAliases(EnterAlias(t, Found(Target(x), "", Alias(y), |l|)), false, b)
  {
    AliasRead(w, x, v, y, b);
    FoldOne(MatchAlias, EnterAlias, t, AliasLine(w, x, v, y), b);
  }

  lemma LineStarts(w: string, x: string, v: string, y: string, b: string)
    ensures var r := AliasLine(w, x, v, y) + b; r != [] && r[0] == 't'
  {
  }

  /** An alias line anywhere in a header enters its structure under its own name: when the
      target is a structure of the header, and the name is neither a structure nor an alias of
      an earlier line. */
  lemma AliasIsEntered(a: string, w: string, x: string, v: string, y: string, b: string)
    requires IsAliasLine(w, x, v, y) && (a == [] || a[|a| - 1] == '\n')
    requires var text := a + (AliasLine(w, x, v, y) + b); Target(x) in StructsOf(text) && Alias(y) !in StructsOf(text)
    requires forall i :: 0 <= i < |a| ==> !AliasAt(a, i, Alias(y))
    ensures var text := a + (AliasLine(w, x, v, y) + b);
            Alias(y) in TableOf(text) && TableOf(text)[Alias(y)] == StructsOf(text)[Target(x)]
  {
    var l := AliasLine(w, x, v, y);
    var text := a + (l + b);
    var t := StructsOf(text);
    LineStarts(w, x, v, y, b);
    AliasesAreLocal();
    FoldSplit(MatchAlias, EnterAlias, t, true, a, l + b);
    var before := FoldAliases(t, true, a);
    NotEntered(t, a, Alias(y));
    FoldKeeps(MatchAlias, t, true, a, Target(x));
    AliasStep(before, w, x, v, y, b);
    FoldKeeps(MatchAlias, before[Alias(y) := before[Target(x)]], false, b, Alias(y));
  }

  /** What an alias line anywhere in a header does to the table so far: its name is answered with
      its target's structure when that is known by then, an earlier alias included, and the name
      is new; otherwise nothing changes. The rest of the header is then read on. */
  lemma AliasLineEnters(a: string, w: string, x: string, v: string, y: string, b: string)
    requires IsAliasLine(w, x, v, y) && (a == [] || a[|a| - 1] == '\n')
    ensures var text := a + (AliasLine(w, x, v, y) + b);
            var t := FoldAliases(StructsOf(text), true, a);
            var target, alias := "lr_" + (x + "_t"), "lr_" + y;
            TableOf(text) == FoldAliases(if target in t && alias !in t then t[alias := t[target]] else t, false, b)
  {
    var l := AliasLine(w, x, v, y);
    LineStarts(w, x, v, y, b);
    AliasesAreLocal();
    FoldSplit(MatchAlias, EnterAlias, StructsOf(a + (l + b)), true, a, l + b);
    AliasStep(FoldAliases(StructsOf(a + (l + b)), true, a), w, x, v, y, b);
  }

  /** An alias never changes a name that is a structure of the header. */
  lemma StructureIsKept(text: string, k: string)
    requires k in StructsOf(text)
    ensures k in TableOf(text) && TableOf(text)[k] == StructsOf(text)[k]
  {
    FoldKeeps(MatchAlias, StructsOf(text), true, text, k);
  }

  // ---- printed structures and aliases ----

  datatype Naming = Naming(x: string, y: string)

  predicate IsNaming(n: Naming) {
    n.x != [] && AllWord(n.x) && n.y != [] && AllWord(n.y)
  }

  function PrintAlias(n: Naming): string {
    AliasLine(" ", n.x, " ", n.y)
  }

  /** The alias lines, each behind a newline. */
  function PrintAliases(ns: seq<Naming>): string {
    if ns == [] then "" else "\n" + (PrintAlias(ns[0]) + PrintAliases(ns[1..]))
  }

  /** The table with the aliases: each names a known structure once more, the first use of a
      name counts. */
  function WithAliases(t: map<string, Struct>, ns: seq<Naming>): map<string, Struct>
    decreases ns
  {
    if ns == [] then t
    else
      var target, alias := "lr_" + (ns[0].x + "_t"), "lr_" + ns[0].y;
      WithAliases(if target in t && alias !in t then t[alias := t[target]] else t, ns[1..])
  }

  lemma {:induction false} AliasesRead(t: map<string, Struct>, ns: seq<Naming>)
    requires forall i :: 0 <= i < |ns| ==> IsNaming(ns[i])
    ensures FoldAliases(t, false, PrintAliases(ns)) == WithAliases(t, ns)
    decreases ns
  {
    if ns != [] {
      var n, rest := ns[0], PrintAliases(ns[1..]);
      assert IsNaming(n);
      FoldBreak(MatchAlias, EnterAlias, t, PrintAlias(n) + rest);
      AliasStep(t, " ", n.x, " ", n.y, rest);
      AliasesRead(EnterAlias(t, Found(Target(n.x), "", Alias(n.y), |PrintAlias(n)|)), ns[1..]);
    }
  }

  lemma NoStructOf(h: string, r: string)
    requires h != [] && AllWord(h) && r != [] && r[0] != '{'
    ensures Described(h + (" " + r)).None?
  {
    var t := h + (" " + r);
    WordThen(h, " " + r);
    if StartsWith(" " + r, " {") { AtChar(" " + r, 0, " {", 1); }
  }

  lemma AliasIsNoStruct(n: Naming, rest: string)
    requires IsNaming(n)
    ensures MatchStruct(PrintAlias(n) + rest).None?
  {
    var r := Alias(n.y) + (";" + rest);
    var t := Target(n.x) + (" " + r);
    LineSplits(" ", Target(n.x), " ", Alias(n.y), rest);
    Assoc("typedef struct", " ", t);
    assert OPENER == "typedef struct" + " ";
    TargetIsHandle(n.x);
    AliasIsAlias(n.y);
    NoStructOf(Target(n.x), r);
    MatchWithOf(Described, OPENER, t);
  }

  lemma AliasLacksBreak(n: Naming)
    requires IsNaming(n)
    ensures '\n' !in PrintAlias(n) && PrintAlias(n) != []
  {
    TargetIsHandle(n.x);
    AliasIsAlias(n.y);
    assert '\n' !in Target(n.x) && '\n' !in Alias(n.y) && '\n' !in "typedef struct";
    NotInConcat('\n', Alias(n.y), ";");
    NotInConcat('\n', " ", Alias(n.y) + ";");
    NotInConcat('\n', Target(n.x), " " + (Alias(n.y) + ";"));
    NotInConcat('\n', " ", Target(n.x) + (" " + (Alias(n.y) + ";")));
    NotInConcat('\n', "typedef struct", " " + (Target(n.x) + (" " + (Alias(n.y) + ";"))));
  }

  lemma {:induction false} AliasesHoldNoStruct(t: map<string, Struct>, ns: seq<Naming>)
    requires forall i :: 0 <= i < |ns| ==> IsNaming(ns[i])
    ensures FoldMatches(MatchStruct, Enter, t, false, PrintAliases(ns)) == t
    decreases ns
  {
    if ns != [] {
      var n, rest := ns[0], PrintAliases(ns[1..]);
      assert IsNaming(n);
      FoldBreak(MatchStruct, Enter, t, PrintAlias(n) + rest);
      AliasIsNoStruct(n, rest);
      AliasLacksBreak(n);
      FoldStart(MatchStruct, Enter, t, PrintAlias(n), rest);
      AliasesHoldNoStruct(t, ns[1..]);
    }
  }

  lemma {:induction false} StructsThen(out: map<string, Struct>, es: seq<Entry>, r: string)
    requires AllStructs(es) && es != []
    ensures FoldMatches(MatchStruct, Enter, out, true, PrintStructs(es) + r)
         == FoldMatches(MatchStruct, Enter, Table(out, es), false, r)
    decreases es
  {
    if |es| == 1 {
      FoldStruct(out, es[0], r);
      assert es[1..] == [];
    } else {
      var p, rest := PrintStruct(es[0].handle, es[0].st), PrintStructs(es[1..]);
      Assoc("\n", rest, r);
      Assoc(p, "\n" + rest, r);
      FoldStruct(out, es[0], "\n" + (rest + r));
      FoldBreak(MatchStruct, Enter, EnterEntry(out, es[0]), rest + r);
      StructsThen(EnterEntry(out, es[0]), es[1..], r);
    }
  }

  lemma {:induction false} NoAliasesThen(out: map<string, Struct>, es: seq<Entry>, r: string)
    requires AllStructs(es) && es != []
    ensures FoldAliases(out, true, PrintStructs(es) + r) == FoldAliases(out, false, r)
    decreases es
  {
    if |es| == 1 {
      FoldNoAlias(out, es[0], r);
    } else {
      var p, rest := PrintStruct(es[0].handle, es[0].st), PrintStructs(es[1..]);
      Assoc("\n", rest, r);
      Assoc(p, "\n" + rest, r);
      FoldNoAlias(out, es[0], "\n" + (rest + r));
      FoldBreak(MatchAlias, EnterAlias, out, rest + r);
      NoAliasesThen(out, es[1..], r);
    }
  }

  /** Printed structures followed by printed aliases are collected as the table of the
      structures and their aliases. */
  lemma AliasesRoundTrip(es: seq<Entry>, ns: seq<Naming>)
    requires AllStructs(es) && es != [] && forall i :: 0 <= i < |ns| ==> IsNaming(ns[i])
    ensures TableOf(PrintStructs(es) + PrintAliases(ns)) == WithAliases(Table(map[], es), ns)
  {
    var r := PrintAliases(ns);
    StructsThen(map[], es, r);
    AliasesHoldNoStruct(Table(map[], es), ns);
    NoAliasesThen(Table(map[], es), es, r);
    AliasesRead(Table(map[], es), ns);
  }

  lemma OneAlias(handle: string, x: string, y: string, st: Struct)
    requires IsStruct(handle, st) && !MarkerFields(st.fields) && handle == Target(x) && handle != Alias(y)
    requires x != [] && AllWord(x) && y != [] && AllWord(y)
    ensures TableOf(PrintStructs([Entry(handle, st)]) + PrintAliases([Naming(x, y)]))
         == map[handle := st, Alias(y) := st]
  {
    var es, ns := [Entry(handle, st)], [Naming(x, y)];
    AliasesRoundTrip(es, ns);
    assert es[1..] == [] && ns[1..] == [];
    assert Table(map[], es) == map[handle := st];
  }

  lemma AfiSafiNames()
    ensures Target("afi_safi") == "lr_afi_safi_t" && Alias("nlri_family_t") == "lr_nlri_family_t"
  {
    assert "lr_" + ("afi_safi" + "_t") == "lr_afi_safi_t";
  }

  /** The alias of the C header: the second name is answered with the first one's structure. */
  lemma AfiSafiAlias(st: Struct)
    requires IsStruct("lr_afi_safi_t", st) && !MarkerFields(st.fields)
    ensures TableOf(PrintStructs([Entry("lr_afi_safi_t", st)]) + PrintAliases([Naming("afi_safi", "nlri_family_t")]))
         == map["lr_afi_safi_t" := st, "lr_nlri_family_t" := st]
  {
    AfiSafiNames();
    assert |"lr_afi_safi_t"| != |"lr_nlri_family_t"|;
    OneAlias("lr_afi_safi_t", "afi_safi", "nlri_family_t", st);
  }
}
