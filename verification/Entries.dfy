/** Exactly which blocks are constants, aliases and functions, as texts. */
module Entries {
  import opened Text
  import Params
  import opened Surface
  import opened Forms
  import opened Promises

  // ---- words and single spaces ----

  lemma SpacedAfter(s: string, k: nat)
    requires Spaced(s) && k < |s| && IsSpace(s[k])
    ensures k + 1 < |s| && s[k] == ' ' && Spaced(s[k + 1..]) && s[k..] == " " + s[k + 1..]
  {
    assert OneSpaceAt(s, k);
    SpacedTail(s, k + 1);
  }

  lemma SpaceThen(t: string)
    requires t != [] && !IsSpace(t[0])
    ensures SpaceRun(" " + t) == 1 && (" " + t)[1..] == t
  {
    SpaceRunConcat(" ", t);
  }

  lemma AfterWordSplits(s: string, word: string)
    requires Spaced(s) && AfterWord(s, word).Some?
    ensures var t := AfterWord(s, word).value; s == word + (" " + t) && Spaced(t)
  {
    var r := s[|word|..];
    assert s == word + r && r[0] == s[|word|];
    SpacedAfter(s, |word|);
    SpaceThen(s[|word| + 1..]);
  }

  lemma AfterWordJoins(s: string, word: string, t: string)
    requires s == word + (" " + t) && t != [] && !IsSpace(t[0])
    ensures AfterWord(s, word) == Some(t)
  {
    AfterWordOf(word, t);
  }

  lemma SpacedBehind(s: string, a: string, t: string)
    requires Spaced(s) && s == a + (" " + t)
    ensures Spaced(t)
  {
    assert s[|a|] == ' ';
    SpacedAfter(s, |a|);
    assert s[|a| + 1..] == t;
  }

  // ---- constants ----

  /** `#define`, a name and a value. */
  predicate IsDefineText(block: string, e: Entry) {
    e.kind == Define && IsIdent(e.name) && block == "#define" + (" " + (e.name + (" " + e.signature)))
  }

  lemma DefineRead(block: string, e: Entry)
    requires Spaced(block) && IsDefineText(block, e)
    ensures MatchDefine(block) == Some(e)
  {
    var t := e.name + (" " + e.signature);
    SpacedBehind(block, "#define", t);
    SpacedBehind(t, e.name, e.signature);
    AfterWordJoins(block, "#define", t);
    IdentLeads(e.name, " " + e.signature);
    SpaceThen(e.signature);
    SpacedIsNormal(e.signature);
  }

  lemma DefineFacts(block: string, e: Entry) returns (t: string, n: nat)
    requires MatchDefine(block) == Some(e)
    ensures AfterWord(block, "#define") == Some(t) && t != [] && IsIdentStart(t[0]) && n == WordRun(t)
    ensures SpaceRun(t[n..]) > 0 && e == Entry(Define, t[..n], Normalise(t[n..][SpaceRun(t[n..])..]))
  {
    t := AfterWord(block, "#define").value;
    n := WordRun(t);
  }

  lemma ValueFrom(t: string, n: nat)
    requires Spaced(t) && n == WordRun(t) && IsIdentStart(t[0]) && SpaceRun(t[n..]) > 0
    ensures var value := Normalise(t[n..][SpaceRun(t[n..])..]); IsIdent(t[..n]) && t == t[..n] + (" " + value)
  {
    WordRunFacts(t);
    assert t == t[..n] + t[n..] && t[n..][0] == t[n];
    SpacedAfter(t, n);
    SpaceThen(t[n + 1..]);
    SpacedIsNormal(t[n + 1..]);
  }

  lemma DefineSplits(block: string, e: Entry)
    requires Spaced(block) && MatchDefine(block) == Some(e)
    ensures IsDefineText(block, e)
  {
    var t, n := DefineFacts(block, e);
    AfterWordSplits(block, "#define");
    ValueFrom(t, n);
  }

  /** Which blocks are constants. */
  lemma DefineTextIff(block: string, e: Entry)
    requires Spaced(block)
    ensures MatchDefine(block) == Some(e) <==> IsDefineText(block, e)
  {
    if MatchDefine(block) == Some(e) { DefineSplits(block, e); }
    if IsDefineText(block, e) { DefineRead(block, e); }
  }

  // ---- aliases ----

  /** `typedef`, text that does not end in a word, the name, perhaps a space, and a semicolon. */
  predicate AliasLaid(block: string, name: string, t: string, w: string) {
    && IsIdent(name) && (w == "" || w == " ") && (t == [] || !IsWord(t[|t| - 1]))
    && block == "typedef" + (" " + (t + (name + (w + ";"))))
  }

  ghost predicate IsAliasText(block: string, e: Entry) {
    e.kind == Typedef && e.signature == block && exists t, w :: AliasLaid(block, e.name, t, w)
  }

  lemma AliasAssoc(t: string, name: string, w: string)
    ensures "typedef" + (" " + (t + (name + (w + ";")))) == (("typedef " + t) + name) + (w + ";")
  {
    assert "typedef" + " " == "typedef ";
    Assoc("typedef", " ", t + (name + (w + ";")));
    Assoc("typedef ", t, name + (w + ";"));
    Assoc("typedef " + t, name, w + ";");
  }

  lemma AliasBodyIs(block: string, name: string, t: string, w: string)
    requires AliasLaid(block, name, t, w)
    ensures BeforeSemicolon(block) == Some(("typedef " + t) + name)
  {
    AliasAssoc(t, name, w);
    var body := ("typedef " + t) + name;
    assert body[|body| - 1] == name[|name| - 1];
    BeforeSemicolonOf(body, w);
  }

  lemma AliasTail(t: string, name: string)
    requires IsIdent(name) && (t == [] || !IsWord(t[|t| - 1]))
    ensures var body := ("typedef " + t) + name;
            TailRun(body) == |name| && body[|body| - |name|..] == name && body[|body| - |name|] == name[0]
  {
    var x := "typedef " + t;
    assert x[|x| - 1] == if t == [] then ' ' else t[|t| - 1];
    TailRunConcat(x, name);
  }

  lemma AliasReadAs(block: string, e: Entry, t: string, w: string)
    requires e.kind == Typedef && e.signature == block && AliasLaid(block, e.name, t, w)
    ensures MatchTypedef(block) == Some(e)
  {
    AliasBodyIs(block, e.name, t, w);
    AliasTail(t, e.name);
    var r := t + (e.name + (w + ";"));
    assert block[7] == ' ';
    TypedefLeads(block, r);
  }

  lemma TypedefLeads(block: string, r: string)
    requires block == "typedef" + (" " + r)
    ensures AfterWord(block, "typedef").Some?
  {
    assert block[0..7] == "typedef" && block[7..] == " " + r;
  }

  lemma SemicolonSplits(s: string) returns (w: string)
    requires Spaced(s) && BeforeSemicolon(s).Some?
    ensures s == BeforeSemicolon(s).value + (w + ";") && (w == "" || w == " ")
  {
    assert RStrip(s) == s;
    var u := s[..|s| - 1];
    w := RStripSplit(u);
    var body := RStrip(u);
    assert s == (body + w) + ";";
    assert forall i :: 0 <= i < |w| ==> s[|body| + i] == w[i];
    if w != [] { assert OneSpaceAt(s, |body|); }
    Assoc(body, w, ";");
  }

  lemma TypedefFacts(block: string, e: Entry) returns (body: string, start: nat)
    requires MatchTypedef(block) == Some(e)
    ensures BeforeSemicolon(block) == Some(body) && AfterWord(block, "typedef").Some?
    ensures 8 <= start < |body| && start == |body| - TailRun(body) && IsIdentStart(body[start])
    ensures e == Entry(Typedef, body[start..], block)
  {
    body := BeforeSemicolon(block).value;
    start := |body| - TailRun(body);
  }

  lemma AliasSplits(block: string, e: Entry)
    requires Spaced(block) && MatchTypedef(block) == Some(e)
    ensures IsAliasText(block, e)
  {
    var body, start := TypedefFacts(block, e);
    AliasFromBody(block, body, start);
  }

  lemma AliasFromBody(block: string, body: string, start: nat)
    requires Spaced(block) && BeforeSemicolon(block) == Some(body) && AfterWord(block, "typedef").Some?
    requires 8 <= start < |body| && start == |body| - TailRun(body) && IsIdentStart(body[start])
    ensures exists t, w :: AliasLaid(block, body[start..], t, w)
  {
    AfterWordSplits(block, "typedef");
    var w := SemicolonSplits(block);
    TailRunFacts(body);
    TypedefStarts(block, body, w + ";");
    AliasFrom(block, body, start, w);
  }

  lemma AliasFrom(block: string, body: string, start: nat, w: string)
    requires 8 <= start < |body| && body[..8] == "typedef " && block == body + (w + ";") && (w == "" || w == " ")
    requires IsIdent(body[start..]) && !IsWord(body[start - 1])
    ensures exists t, w :: AliasLaid(block, body[start..], t, w)
  {
    var t := body[8..start];
    AliasParts(body, start, t);
    AliasAssoc(t, body[start..], w);
    assert t != [] ==> t[|t| - 1] == body[start - 1];
    assert AliasLaid(block, body[start..], t, w);
  }

  lemma TypedefStarts(block: string, body: string, tail: string)
    requires block == body + tail && |body| >= 8 && StartsWith(block, "typedef") && block[7] == ' '
    ensures body[..8] == "typedef "
  {
    assert block[0..7] == "typedef" && block[..8] == block[0..7] + " ";
  }

  lemma AliasParts(body: string, start: nat, t: string)
    requires 8 <= start <= |body| && body[..8] == "typedef " && t == body[8..start]
    ensures body == ("typedef " + t) + body[start..]
  {
    assert body[..start] == body[..8] + t;
    assert body == body[..start] + body[start..];
  }

  /** Which blocks the alias pattern matches. */
  lemma AliasTextIff(block: string, e: Entry)
    requires Spaced(block)
    ensures MatchTypedef(block) == Some(e) <==> IsAliasText(block, e)
  {
    if MatchTypedef(block) == Some(e) { AliasSplits(block, e); }
    if IsAliasText(block, e) {
      var t, w :| AliasLaid(block, e.name, t, w);
      AliasReadAs(block, e, t, w);
    }
  }

  // ---- functions ----

  /** The shortest return type: `k` is the first place, behind the first character, from which only
      an identifier and blanks are left. */
  predicate NameFirstAt(pre: string, k: nat) {
    1 <= k <= |pre| && IsIdent(Strip(pre[k..])) && forall j: nat :: 1 <= j < k ==> !IsIdent(Strip(pre[j..]))
  }

  /** A return type and a name of letters, digits, blanks and stars, not on a keyword; parameters
      without a semicolon in parentheses; blanks and a semicolon. */
  predicate FunctionLaid(c: string, pre: string, params: string, w: string) {
    && c == pre + ("(" + ((params + ")") + (w + ";"))) && AllSpace(w) && ';' !in params
    && pre != [] && IsLetter(pre[0]) && (forall i :: 0 <= i < |pre| ==> InReturn(pre[i]))
    && !IsKindKeyword(pre[..WordRun(pre)])
  }

  ghost predicate IsFunctionText(c: string, e: Entry) {
    exists pre, k, params, w ::
      && FunctionLaid(c, pre, params, w) && NameFirstAt(pre, k)
      && e == Entry(Function, Strip(pre[k..]), SignatureOf(pre[..k], Strip(pre[k..]), params))
  }

  lemma {:induction false} NameAtIs(pre: string, i: nat, k: nat)
    requires i <= k <= |pre| && IsIdent(Strip(pre[k..])) && forall j: nat :: i <= j < k ==> !IsIdent(Strip(pre[j..]))
    ensures NameAt(pre, i) == Some(k)
    decreases k - i
  {
    if i < k { NameAtIs(pre, i + 1, k); }
  }

  lemma {:induction false} NameAtFirst(pre: string, i: nat)
    requires i <= |pre| && NameAt(pre, i).Some?
    ensures var k := NameAt(pre, i).value;
            IsIdent(Strip(pre[k..])) && forall j: nat :: i <= j < k ==> !IsIdent(Strip(pre[j..]))
    decreases |pre| - i
  {
    if !IsIdent(Strip(pre[i..])) { NameAtFirst(pre, i + 1); }
  }

  lemma FirstWordBefore(pre: string, r: string)
    requires pre != []
    ensures var c := pre + ("(" + r); c[..WordRun(c)] == pre[..WordRun(pre)]
  {
    var n := WordRun(pre);
    WordRunFacts(pre);
    var y := pre[n..] + ("(" + r);
    assert pre == pre[..n] + pre[n..];
    Assoc(pre[..n], pre[n..], "(" + r);
    WordRunConcat(pre[..n], y);
    assert (pre[..n] + y)[..n] == pre[..n];
  }

  lemma PreLacksParen(pre: string)
    requires forall i :: 0 <= i < |pre| ==> InReturn(pre[i])
    ensures '(' !in pre && forall i :: 0 <= i < |pre| ==> InReturnType(pre[i])
  {
  }

  lemma ParametersRead(params: string, w: string)
    requires AllSpace(w) && ';' !in params
    ensures Parameters((params + ")") + (w + ";")) == Some(params)
  {
    assert "" + (w + ";") == w + ";";
    ParametersIff(params, "", w);
  }

  lemma FunctionRead(c: string, pre: string, k: nat, params: string, w: string)
    requires FunctionLaid(c, pre, params, w) && NameFirstAt(pre, k)
    ensures MatchFunction(c) == Some(Entry(Function, Strip(pre[k..]), SignatureOf(pre[..k], Strip(pre[k..]), params)))
  {
    var r := (params + ")") + (w + ";");
    PreLacksParen(pre);
    ParenAt(pre, r);
    FirstWordBefore(pre, r);
    NameAtIs(pre, 1, k);
    ParametersRead(params, w);
    MatchFunctionIs(c, pre, k, Strip(pre[k..]));
  }

  lemma ParametersSplit(r: string) returns (w: string)
    requires Parameters(r).Some? && r != [] && !IsSpace(r[|r| - 1])
    ensures var params := Parameters(r).value;
            r == (params + ")") + (w + ";") && AllSpace(w) && ';' !in params
  {
    assert RStrip(r) == r;
    var u := r[..|r| - 1];
    w := RStripSplit(u);
    var t := RStrip(u);
    assert t == Parameters(r).value + ")";
    assert r == (t + w) + ";";
    Assoc(t, w, ";");
  }

  lemma FunctionFacts(c: string, e: Entry) returns (q: nat, k: nat)
    requires MatchFunction(c) == Some(e)
    ensures q == IndexOf(c, '(') && 0 < q < |c| && IsIdentStart(c[0]) && !OpensAnotherKind(c[..WordRun(c)])
    ensures forall i :: 0 <= i < q ==> InReturnType(c[i])
    ensures NameAt(c[..q], 1) == Some(k) && Parameters(c[q + 1..]).Some?
    ensures var name := Strip(c[..q][k..]);
            e == Entry(Function, name, SignatureOf(c[..q][..k], name, Parameters(c[q + 1..]).value))
  {
    q := IndexOf(c, '(');
    k := NameAt(c[..q], 1).value;
    assert forall i :: 0 <= i < q ==> c[..q][i] == c[i];
  }

  lemma ParenSplits(c: string, q: nat)
    requires q == IndexOf(c, '(') && q < |c|
    ensures c == c[..q] + ("(" + c[q + 1..])
  {
    IndexOfFinds(c, '(');
    CutAtCharacter(c, q, '(');
  }

  lemma CutAtCharacter(c: string, q: nat, x: char)
    requires q < |c| && c[q] == x
    ensures c == c[..q] + ([x] + c[q + 1..])
  {
  }

  lemma LastBehind(c: string, q: nat)
    requires q < |c| && c[q + 1..] != []
    ensures c[q + 1..][|c[q + 1..]| - 1] == c[|c| - 1]
  {
  }

  lemma LaidFrom(c: string, pre: string, r: string, w: string)
    requires c == pre + ("(" + r) && pre != [] && IsIdentStart(pre[0]) && !OpensAnotherKind(c[..WordRun(c)])
    requires (forall i :: 0 <= i < |pre| ==> InReturnType(pre[i])) && Parameters(r).Some?
    requires var params := Parameters(r).value; r == (params + ")") + (w + ";") && AllSpace(w) && ';' !in params
    ensures FunctionLaid(c, pre, Parameters(r).value, w)
  {
    FirstWordBefore(pre, r);
    assert forall i :: 0 <= i < |pre| ==> InReturn(pre[i]);
  }

  lemma FunctionSplits(c: string, e: Entry)
    requires c != [] && !IsSpace(c[|c| - 1]) && MatchFunction(c) == Some(e)
    ensures IsFunctionText(c, e)
  {
    var q, k := FunctionFacts(c, e);
    var pre, r := c[..q], c[q + 1..];
    NameAtFirst(pre, 1);
    ParenSplits(c, q);
    ParametersNonempty(r);
    LastBehind(c, q);
    var w := ParametersSplit(r);
    LaidFrom(c, pre, r, w);
    assert FunctionLaid(c, pre, Parameters(r).value, w) && NameFirstAt(pre, k);
  }

  lemma ParametersNonempty(r: string)
    requires Parameters(r).Some?
    ensures r != []
  {
  }

  /** What the function pattern reads, on any text without blanks at its end: a function exactly
      when the text is one, with the shortest return type that leaves a name. */
  lemma FunctionTextIff(c: string, e: Entry)
    requires c != [] && !IsSpace(c[|c| - 1])
    ensures MatchFunction(c) == Some(e) <==> IsFunctionText(c, e)
  {
    if MatchFunction(c) == Some(e) { FunctionSplits(c, e); }
    if pre, k, params, w :|
      && FunctionLaid(c, pre, params, w) && NameFirstAt(pre, k)
      && e == Entry(Function, Strip(pre[k..]), SignatureOf(pre[..k], Strip(pre[k..]), params))
    {
      FunctionRead(c, pre, k, params, w);
    }
  }

  /** A call without a return type is read as a function as well: its first letter is the type and
      the rest of its name the name. */
  lemma CallIsFunction(word: string, params: string)
    requires |word| >= 2 && IsIdent(word) && IsIdent(word[1..]) && !IsKindKeyword(word) && ';' !in params
    ensures MatchFunction(word + ("(" + ((params + ")") + ("" + ";"))))
         == Some(Entry(Function, word[1..], SignatureOf(word[..1], word[1..], params)))
  {
    var c := word + ("(" + ((params + ")") + ("" + ";")));
    Params.StripSame(word[1..]);
    assert word + "" == word;
    WordRunConcat(word, "");
    assert word[..WordRun(word)] == word;
    assert NameFirstAt(word, 1) && FunctionLaid(c, word, params, "");
    FunctionRead(c, word, 1, params, "");
  }

  // ---- entries ----

  /** Which blocks have the entry of a constant or an alias. */
  lemma EntryTextIff(block: string, e: Entry)
    requires Spaced(block)
    ensures e.kind == Define ==> (Classify(block) == Some(e) <==> IsDefineText(block, e))
    ensures e.kind == Typedef ==> (Classify(block) == Some(e) <==> IsAliasText(block, e))
  {
    DefineTextIff(block, e);
    AliasTextIff(block, e);
    if IsAliasText(block, e) {
      var t, w :| AliasLaid(block, e.name, t, w);
      TypedefLeads(block, t + (e.name + (w + ";")));
      NoDefine(block);
      TypedefIsNoAggregate(block);
    }
  }

  lemma CandidateEnds(block: string)
    ensures Candidate(block) == [] || !IsSpace(Candidate(block)[|Candidate(block)| - 1])
  {
    NormaliseIsWritten(WithoutInline(WithoutBody(block)));
    WrittenEnds(Start, WithoutInline(WithoutBody(block)));
  }

  /** A block has the entry of a function exactly when it is of no other kind and its declaration
      form is that function. */
  lemma FunctionEntryIff(block: string, e: Entry)
    requires block != [] && e.kind == Function
    ensures Classify(block) == Some(e)
       <==> && MatchDefine(block).None? && MatchAggregate(block).None? && MatchTypedef(block).None?
            && IsFunctionText(Candidate(block), e)
  {
    CandidateEnds(block);
    if Candidate(block) != [] { FunctionTextIff(Candidate(block), e); }
  }
}
