/** Structure typedefs of a header: which of them enter the table, on any text. */
module Typedefs {
  import opened Text
  import opened ValueStructs
  import Fields
  import Aliases

  // ---- the matches of a pattern that enter something ----

  predicate LineStart(s: string, i: nat) {
    i <= |s| && (i == 0 || s[i - 1] == '\n')
  }

  /** A match at `i`, at the start of a line. */
  predicate MatchAt(pat: string -> Option<Found>, s: string, i: nat) {
    i < |s| && LineStart(s, i) && Fits(pat, s[i..])
  }

  function FoundAt(pat: string -> Option<Found>, s: string, i: nat): Found
    requires MatchAt(pat, s, i)
  {
    pat(s[i..]).value
  }

  function EndAt(pat: string -> Option<Found>, s: string, i: nat): (e: nat)
    requires MatchAt(pat, s, i)
    ensures i < e <= |s|
  {
    i + FoundAt(pat, s, i).len
  }

  /** No match that starts before `n` ends behind it. */
  predicate Clear(pat: string -> Option<Found>, s: string, n: nat) {
    forall j: nat :: j < n && MatchAt(pat, s, j) ==> EndAt(pat, s, j) <= n
  }

  /** A match at `i`, outside every earlier one, whose body is not that of an opaque marker, with
      the handle `k`. */
  ghost predicate Enters(pat: string -> Option<Found>, s: string, i: nat, k: string) {
    && MatchAt(pat, s, i) && Clear(pat, s, i)
    && !Fields.IsMarkerText(FoundAt(pat, s, i).body) && FoundAt(pat, s, i).handle == k
  }

  /** A match inside another one, `o` characters behind its start. */
  predicate Nested(pat: string -> Option<Found>, s: string, o: nat) {
    Fits(pat, s) && 0 < o < pat(s).value.len && s[o - 1] == '\n' && Fits(pat, s[o..])
  }

  /** Matches end on another character than a newline, and nested ones end together. */
  ghost predicate Nests(pat: string -> Option<Found>) {
    && (forall s :: Fits(pat, s) ==> s[pat(s).value.len - 1] != '\n')
    && (forall s, o: nat :: Nested(pat, s, o) ==> o + pat(s[o..]).value.len == pat(s).value.len)
  }

  // ---- the loop over the matches ----

  function Fold(pat: string -> Option<Found>, t: map<string, Struct>, bol: bool, s: string): map<string, Struct> {
    FoldMatches(pat, Enter, t, bol, s)
  }

  /** The loop stands at `n`: `bol` at the start of a line, and at no match otherwise. */
  predicate Ready(pat: string -> Option<Found>, s: string, n: nat, bol: bool) {
    n <= |s| && Clear(pat, s, n) && (if bol then LineStart(s, n) else !MatchAt(pat, s, n))
  }

  lemma InnerEndsToo(pat: string -> Option<Found>, s: string, n: nat, j: nat)
    requires Nests(pat) && MatchAt(pat, s, n) && MatchAt(pat, s, j) && n < j < EndAt(pat, s, n)
    ensures EndAt(pat, s, j) == EndAt(pat, s, n)
  {
    DropDrop(s, n, j - n);
    assert s[n..][j - n - 1] == s[j - 1];
    assert Nested(pat, s[n..], j - n);
  }

  lemma ReadyBehind(pat: string -> Option<Found>, s: string, n: nat)
    requires Nests(pat) && MatchAt(pat, s, n) && Clear(pat, s, n)
    ensures Ready(pat, s, EndAt(pat, s, n), false)
  {
    var e := EndAt(pat, s, n);
    assert s[e - 1] == s[n..][e - 1 - n];
    forall j: nat | j < e && MatchAt(pat, s, j) ensures EndAt(pat, s, j) <= e {
      if n < j { InnerEndsToo(pat, s, n, j); }
    }
  }

  lemma ReadyNext(pat: string -> Option<Found>, s: string, n: nat)
    requires n < |s| && Clear(pat, s, n) && !MatchAt(pat, s, n)
    ensures Ready(pat, s, n + 1, s[n] == '\n')
  {
  }

  lemma TakesMatch(pat: string -> Option<Found>, s: string, t: map<string, Struct>, n: nat, bol: bool)
    requires Ready(pat, s, n, bol) && MatchAt(pat, s, n)
    ensures Fold(pat, t, bol, s[n..]) == Fold(pat, Enter(t, FoundAt(pat, s, n)), false, s[EndAt(pat, s, n)..])
  {
    FoldTakes(pat, t, s[n..]);
    DropDrop(s, n, FoundAt(pat, s, n).len);
  }

  lemma FoldTakes(pat: string -> Option<Found>, t: map<string, Struct>, r: string)
    requires r != [] && Fits(pat, r)
    ensures Fold(pat, t, true, r) == Fold(pat, Enter(t, pat(r).value), false, r[pat(r).value.len..])
  {
  }

  lemma TakesNone(pat: string -> Option<Found>, s: string, t: map<string, Struct>, n: nat, bol: bool)
    requires Ready(pat, s, n, bol) && n < |s| && !MatchAt(pat, s, n)
    ensures Fold(pat, t, bol, s[n..]) == Fold(pat, t, s[n] == '\n', s[n + 1..])
  {
    DropDrop(s, n, 1);
  }

  /** No match from `n` on enters `k`. */
  ghost predicate NoneFrom(pat: string -> Option<Found>, s: string, n: nat, k: string) {
    forall j: nat :: n <= j < |s| ==> !Enters(pat, s, j, k)
  }

  /** The entry a match makes. */
  function StructOf(m: Found): Struct {
    Struct(m.tag, FieldsOf(m.body))
  }

  /** What entering a match does to the entry of `k`. */
  lemma EnterIs(t: map<string, Struct>, m: Found, k: string)
    ensures var r := Enter(t, m);
            if m.handle == k && !Fields.IsMarkerText(m.body) then k in r && r[k] == StructOf(m)
            else (k in r <==> k in t) && (k in t ==> r[k] == t[k])
  {
    Fields.MarkerTextIff(m.body);
  }

  /** Without a match that enters `k` its entry stays as it is. */
  lemma {:induction false} FoldLeaves(pat: string -> Option<Found>, s: string, t: map<string, Struct>, n: nat,
                                      bol: bool, k: string)
    requires Nests(pat) && Ready(pat, s, n, bol) && NoneFrom(pat, s, n, k)
    ensures var r := Fold(pat, t, bol, s[n..]); (k in r <==> k in t) && (k in t ==> r[k] == t[k])
    decreases |s| - n
  {
    if n < |s| {
      if MatchAt(pat, s, n) {
        assert !Enters(pat, s, n, k);
        EnterIs(t, FoundAt(pat, s, n), k);
        TakesMatch(pat, s, t, n, bol);
        ReadyBehind(pat, s, n);
        FoldLeaves(pat, s, Enter(t, FoundAt(pat, s, n)), EndAt(pat, s, n), false, k);
      } else {
        TakesNone(pat, s, t, n, bol);
        ReadyNext(pat, s, n);
        FoldLeaves(pat, s, t, n + 1, s[n] == '\n', k);
      }
    }
  }

  /** The match at `i` is the last that enters `k`. */
  ghost predicate LastEnters(pat: string -> Option<Found>, s: string, i: nat, k: string) {
    Enters(pat, s, i, k) && NoneFrom(pat, s, i + 1, k)
  }

  lemma FoldTakesLast(pat: string -> Option<Found>, s: string, t: map<string, Struct>, bol: bool, i: nat, k: string)
    requires Nests(pat) && Ready(pat, s, i, bol) && LastEnters(pat, s, i, k)
    ensures var r := Fold(pat, t, bol, s[i..]); k in r && r[k] == StructOf(FoundAt(pat, s, i))
  {
    TakesMatch(pat, s, t, i, bol);
    ReadyBehind(pat, s, i);
    EnterIs(t, FoundAt(pat, s, i), k);
    FoldLeaves(pat, s, Enter(t, FoundAt(pat, s, i)), EndAt(pat, s, i), false, k);
  }

  /** One step of the loop before a match that enters something. */
  lemma StepBefore(pat: string -> Option<Found>, s: string, t: map<string, Struct>, n: nat, bol: bool, i: nat)
    returns (t2: map<string, Struct>, n2: nat, bol2: bool)
    requires Nests(pat) && Ready(pat, s, n, bol) && n < i < |s| && Clear(pat, s, i)
    ensures n < n2 <= i && Ready(pat, s, n2, bol2) && Fold(pat, t, bol, s[n..]) == Fold(pat, t2, bol2, s[n2..])
  {
    if MatchAt(pat, s, n) {
      TakesMatch(pat, s, t, n, bol);
      ReadyBehind(pat, s, n);
      t2, n2, bol2 := Enter(t, FoundAt(pat, s, n)), EndAt(pat, s, n), false;
    } else {
      TakesNone(pat, s, t, n, bol);
      ReadyNext(pat, s, n);
      t2, n2, bol2 := t, n + 1, s[n] == '\n';
    }
  }

  /** The last match that enters `k` is the one that counts. */
  lemma {:induction false} FoldReaches(pat: string -> Option<Found>, s: string, t: map<string, Struct>, n: nat,
                                       bol: bool, i: nat, k: string)
    requires Nests(pat) && Ready(pat, s, n, bol) && n <= i && LastEnters(pat, s, i, k)
    ensures var r := Fold(pat, t, bol, s[n..]); k in r && r[k] == StructOf(FoundAt(pat, s, i))
    decreases |s| - n
  {
    if n == i {
      FoldTakesLast(pat, s, t, bol, i, k);
    } else {
      var t2, n2, bol2 := StepBefore(pat, s, t, n, bol, i);
      FoldReaches(pat, s, t2, n2, bol2, i, k);
    }
  }

  lemma {:induction false} LastOne(pat: string -> Option<Found>, s: string, k: string, i: nat) returns (l: nat)
    requires Enters(pat, s, i, k)
    ensures LastEnters(pat, s, l, k)
    decreases |s| - i
  {
    l := i;
    if j: nat :| i < j < |s| && Enters(pat, s, j, k) { l := LastOne(pat, s, k, j); }
  }

  // ---- where a structure ends ----

  /** Blanks, a word and one more character. */
  function TailLength(u: string): nat {
    SpaceRun(u) + WordRun(u[SpaceRun(u)..]) + 1
  }

  /** Blanks, a handle and a semicolon. */
  predicate HandleFirst(u: string) {
    var t := u[SpaceRun(u)..];
    WordRun(t) < |t| && t[WordRun(t)] == ';' && IsHandle(t[..WordRun(t)])
  }

  /** The brace stands at `e` and `u` follows it: the first `n` characters end at the semicolon
      behind the handle. */
  predicate ShapedBy(e: nat, u: string, n: nat) {
    HandleFirst(u) && n == e + 1 + TailLength(u)
  }

  lemma ClosingParts(v: string, n: nat) returns (e: nat, u: string)
    requires Closing(v).Some? && n == |v| - Closing(v).value.2
    ensures e == IndexOf(v, '}') && e < |v| && u == v[e + 1..] && ShapedBy(e, u, n)
  {
    e := IndexOf(v, '}');
    u := v[e + 1..];
  }

  lemma PartsBehind(a: string, v: string, e: nat)
    requires '}' !in a && e == IndexOf(v, '}') && e < |v|
    ensures IndexOf(a + v, '}') == |a| + e && (a + v)[|a| + e + 1..] == v[e + 1..]
  {
    IndexOfFinds(a, '}');
    IndexOfConcat(a, v, '}');
    DropPast(a, v, e + 1);
  }

  lemma MatchIs(s: string, m: Found)
    requires MatchStruct(s) == Some(m)
    ensures StartsWith(s, OPENER) && 0 < m.len <= |s|
    ensures Described(s[|OPENER|..]) == Some((m.tag, m.body, m.handle, |s| - m.len))
  {
  }

  lemma OpeningLacks(tag: string)
    requires AllWord(tag)
    ensures '}' !in OPENER + (tag + " {")
  {
    assert '}' !in OPENER && '}' !in tag;
    NotInConcat('}', tag, " {");
    NotInConcat('}', OPENER, tag + " {");
  }

  /** A structure ends at the semicolon behind the handle that follows its first closing brace. */
  lemma StructParts(s: string, m: Found) returns (e: nat, u: string)
    requires MatchStruct(s) == Some(m)
    ensures e == IndexOf(s, '}') && e < |s| && u == s[e + 1..] && ShapedBy(e, u, m.len)
  {
    MatchIs(s, m);
    var v := Fields.DescribedSplits(s[|OPENER|..]);
    Fields.OpenedBy(s, OPENER);
    OpeningLacks(m.tag);
    OpeningAssoc(s, m.tag, v);
    e, u := PartsOf(s, OPENER + (m.tag + " {"), v, m.len);
  }

  lemma PartsOf(s: string, a: string, v: string, n: nat) returns (e: nat, u: string)
    requires s == a + v && '}' !in a && Closing(v).Some? && n == |s| - Closing(v).value.2
    ensures e == IndexOf(s, '}') && e < |s| && u == s[e + 1..] && ShapedBy(e, u, n)
  {
    var k;
    k, u := ClosingParts(v, n - |a|);
    PartsBehind(a, v, k);
    e := |a| + k;
  }

  lemma OpeningAssoc(s: string, tag: string, v: string)
    requires s == OPENER + (tag + (" {" + v))
    ensures s == (OPENER + (tag + " {")) + v
  {
    Assoc(tag, " {", v);
    Assoc(OPENER, tag + " {", v);
  }

  lemma DropPast(a: string, v: string, n: nat)
    requires n <= |v|
    ensures (a + v)[|a| + n..] == v[n..]
  {
  }

  lemma {:induction false} IndexInTail(s: string, c: char, n: nat)
    requires n <= IndexOf(s, c)
    ensures IndexOf(s[n..], c) == IndexOf(s, c) - n
  {
    if n > 0 {
      assert s[1..][n - 1..] == s[n..];
      IndexInTail(s[1..], c, n - 1);
    }
  }

  /** Behind the closing brace there are blanks, then the handle: a word on `l`, then `;`. */
  lemma TailCharacters(u: string, q: nat)
    requires HandleFirst(u) && q < TailLength(u)
    ensures q < |u| && (u[q] == 't' ==> q > 0 && u[q - 1] != '\n')
  {
    var n, t := SpaceRun(u), u[SpaceRun(u)..];
    SpaceRunFacts(u);
    WordRunFacts(t);
    AtChar(t[..WordRun(t)], 0, "lr_", 0);
    if q < n { assert IsSpace(u[..n][q]); }
    if q > n { assert u[q - 1] == t[q - 1 - n] && IsWord(t[..WordRun(t)][q - 1 - n]); }
  }

  lemma StartsOnT(s: string)
    requires MatchStruct(s).Some?
    ensures s != [] && s[0] == 't'
  {
    AtChar(s, 0, OPENER, 0);
  }

  lemma SameEnd(s: string, o: nat, e: nat, u: string, e2: nat, u2: string)
    requires e == IndexOf(s, '}') && o <= e < |s| && u == s[e + 1..]
    requires e2 == IndexOf(s[o..], '}') && e2 < |s[o..]| && u2 == s[o..][e2 + 1..]
    ensures e2 == e - o && u2 == u
  {
    SameTail(s, o, e);
  }

  lemma SameTail(s: string, o: nat, e: nat)
    requires o <= e < |s| && e == IndexOf(s, '}')
    ensures IndexOf(s[o..], '}') == e - o && s[o..][e - o + 1..] == s[e + 1..]
  {
    IndexInTail(s, '}', o);
    DropDrop(s, o, e - o + 1);
  }

  /** None starts between the closing brace and the semicolon. */
  lemma NoneBehind(s: string, e: nat, u: string, o: nat)
    requires e == IndexOf(s, '}') && e < |s| && u == s[e + 1..] && HandleFirst(u) && e < o < e + 1 + TailLength(u)
    ensures o < |s| && (s[o] == 't' ==> s[o - 1] != '\n')
  {
    TailCharacters(u, o - e - 1);
    assert u[o - e - 1] == s[o];
    IndexOfFinds(s, '}');
  }

  /** A structure typedef inside another one, `o` characters behind its start, ends with it. */
  lemma InnerEnds(s: string, o: nat, m: Found, r: Found)
    requires MatchStruct(s) == Some(m) && 0 < o < m.len && o <= |s| && s[o - 1] == '\n'
    requires MatchStruct(s[o..]) == Some(r)
    ensures o + r.len == m.len
  {
    StartsOnT(s[o..]);
    var e, u := StructParts(s, m);
    var e2, u2 := StructParts(s[o..], r);
    if o <= e { SameEnd(s, o, e, u, e2, u2); } else { NoneBehind(s, e, u, o); }
  }

  lemma ShapeEnds(s: string, e: nat, u: string, n: nat)
    requires e < |s| && u == s[e + 1..] && ShapedBy(e, u, n)
    ensures 0 < n <= |s| && s[n - 1] == ';'
  {
    var t := u[SpaceRun(u)..];
    assert s[e + 1 + SpaceRun(u) + WordRun(t)] == t[WordRun(t)];
  }

  lemma StructsNest()
    ensures Nests(MatchStruct)
  {
    forall s | Fits(MatchStruct, s) ensures s[MatchStruct(s).value.len - 1] != '\n' {
      var e, u := StructParts(s, MatchStruct(s).value);
      ShapeEnds(s, e, u, MatchStruct(s).value.len);
    }
    forall s, o: nat | Nested(MatchStruct, s, o) ensures o + MatchStruct(s[o..]).value.len == MatchStruct(s).value.len {
      InnerEnds(s, o, MatchStruct(s).value, MatchStruct(s[o..]).value);
    }
  }

  // ---- the table ----

  /** On any text the last structure of a handle is its entry, also in the table with the
      aliases: the tag and the fields of that structure. */
  lemma LastStructCounts(text: string, k: string, i: nat)
    requires LastEnters(MatchStruct, text, i, k)
    ensures k in StructsOf(text) && k in TableOf(text)
    ensures TableOf(text)[k] == StructsOf(text)[k] == StructOf(FoundAt(MatchStruct, text, i))
  {
    assert text[0..] == text;
    StructsNest();
    FoldReaches(MatchStruct, text, map[], 0, true, i, k);
    Aliases.StructureIsKept(text, k);
  }

  /** On any text a handle has an entry of its own exactly when a structure enters it. */
  lemma EntryIff(text: string, k: string)
    ensures k in StructsOf(text) <==> exists i: nat :: Enters(MatchStruct, text, i, k)
  {
    if i: nat :| Enters(MatchStruct, text, i, k) {
      var l := LastOne(MatchStruct, text, k, i);
      LastStructCounts(text, k, l);
    } else {
      assert text[0..] == text;
      StructsNest();
      FoldLeaves(MatchStruct, text, map[], 0, true, k);
    }
  }

  lemma StructIsAt(a: string, tag: string, body: string, w: string, x: string, b: string)
    requires Fields.IsStructLine(tag, body, w, x)
    requires LineStart(a + (Fields.StructLine(tag, body, w, x) + b), |a|)
    ensures var text := a + (Fields.StructLine(tag, body, w, x) + b);
            && MatchAt(MatchStruct, text, |a|)
            && FoundAt(MatchStruct, text, |a|)
            == Found(tag, body, "lr_" + (x + "_t"), |Fields.StructLine(tag, body, w, x)|)
  {
    var l := Fields.StructLine(tag, body, w, x);
    Fields.StructMatched(tag, body, w, x, b);
    assert (a + (l + b))[|a|..] == l + b;
    MatchIs(l + b, MatchStruct(l + b).value);
  }

  /** A structure typedef written at the start of a line, outside earlier ones, is entered unless
      it is an opaque marker or a later one of its handle overrides it. */
  lemma StructureIsEntered(a: string, tag: string, body: string, w: string, x: string, b: string)
    requires Fields.IsStructLine(tag, body, w, x) && !Fields.IsMarkerText(body)
    requires var text := a + (Fields.StructLine(tag, body, w, x) + b);
             && LineStart(text, |a|) && Clear(MatchStruct, text, |a|)
             && NoneFrom(MatchStruct, text, |a| + 1, "lr_" + (x + "_t"))
    ensures var text := a + (Fields.StructLine(tag, body, w, x) + b);
            "lr_" + (x + "_t") in TableOf(text) && TableOf(text)["lr_" + (x + "_t")] == Struct(tag, FieldsOf(body))
  {
    StructIsAt(a, tag, body, w, x, b);
    LastStructCounts(a + (Fields.StructLine(tag, body, w, x) + b), "lr_" + (x + "_t"), |a|);
  }
}
