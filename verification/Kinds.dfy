/** Exactly which constants, aliases and aggregates have an entry. Together with the theorem about
    functions this says what the gate sees of a header. */
module Kinds {
  import opened Text
  import opened Braces
  import opened Surface
  import opened Gate
  import opened Promises
  import opened Forms
  import Reflow

  // ---- the declaration form of a block keeps its first word ----

  lemma {:induction false} BodyStartIsBrace(d: int, s: string)
    ensures BodyStart(d, s) < |s| ==> s[BodyStart(d, s)] == '{'
    decreases s
  {
    if s != [] { BodyStartIsBrace(d + Weight(s[0]), s[1..]); }
  }

  lemma RStripBehind(k: string, y: string)
    requires k != [] && !IsSpace(k[|k| - 1])
    ensures RStrip(k + y) == k + RStrip(y)
  {
    var w := RStripSplit(y);
    var r := k + RStrip(y);
    if !AllSpace(y) { LastOfTrimmed(y); }
    Assoc(k, RStrip(y), w);
    StripTrailing(r, w);
  }

  /** A text that starts with a word and a blank. */
  predicate Led(s: string, word: string) {
    |s| > |word| && s[..|word|] == word && IsSpace(s[|word|])
  }

  lemma AfterWordIsLed(s: string, word: string)
    requires AfterWord(s, word).Some?
    ensures Led(s, word)
  {
    assert s[0..|word|] == word;
    var t := s[|word|..];
    assert SpaceRun(t) > 0;
  }

  lemma CutLed(block: string, word: string, n: nat)
    requires Led(block, word) && word != [] && !IsSpace(word[|word| - 1]) && |word| < n <= |block|
    ensures Led(RStrip(block[..n]) + " ;", word)
  {
    var y := block[|word|..n];
    assert block[..n] == word + y;
    RStripBehind(word, y);
    Assoc(word, RStrip(y), " ;");
    Reflow.RStripFacts(y);
  }

  lemma WordAt(block: string, word: string, n: int)
    requires Led(block, word) && AllWord(word) && 0 <= n < |word|
    ensures IsWord(block[n])
  {
    assert block[n] == block[..|word|][n];
  }

  lemma WithoutBodyLed(block: string, word: string)
    requires Led(block, word) && word != [] && AllWord(word)
    ensures Led(WithoutBody(block), word)
  {
    var n := BodyStart(0, block);
    BodyStartIsBrace(0, block);
    if n < |word| {
      WordAt(block, word, n);
    } else if n < |block| {
      CutLed(block, word, n);
    }
  }

  lemma {:induction false} GapWrites(s: string)
    ensures var r := Written(Gap, s); r == [] || r[0] == ' '
  {
    if s != [] { GapWrites(s[1..]); }
  }

  lemma NormalLed(s: string, word: string)
    requires Led(s, word) && word != [] && AllWord(word)
    ensures var c := Normalise(s); c[..WordRun(c)] == word
  {
    var r := s[|word|..];
    assert s == word + r;
    NormaliseIsWritten(s);
    WrittenConcat(Start, word, r);
    WrittenWord(word, Start);
    var z := Written(Ink, r);
    assert z == "" + Written(Gap, r[1..]);
    GapWrites(r[1..]);
    WordRunConcat(word, z);
    assert (word + z)[..|word|] == word;
  }

  lemma NotInline(s: string, word: string)
    requires Led(s, word) && AllWord(word) && word != "inline"
    ensures WithoutInline(s) == s
  {
    var r := s[|word|..];
    assert s == word + r;
    WordRunConcat(word, r);
    OtherFirstWord(s, "inline");
  }

  /** A block that starts with the keyword of another kind is no function. */
  lemma KeywordIsNoFunction(block: string, word: string)
    requires Led(block, word) && OpensAnotherKind(word)
    ensures MatchFunction(Candidate(block)) == None
  {
    WithoutBodyLed(block, word);
    NotInline(WithoutBody(block), word);
    NormalLed(WithoutBody(block), word);
  }

  // ---- constants ----

  /** A name and a value after a blank. */
  predicate NamesValue(t: string) {
    match LeadingIdent(t) case None => false case Some(name) => |name| < |t| && IsSpace(t[|name|])
  }

  lemma MatchDefineIff(t: string)
    requires t == [] || !IsSpace(t[0])
    ensures var r := MatchDefine("#define" + (" " + t));
            if NamesValue(t) then r.Some? && r.value.name == LeadingIdent(t).value else r == None
  {
    AfterWordOf("#define", t);
  }

  lemma DirectiveStarts(block: string)
    requires block != [] && block[0] == '#'
    ensures Candidate(block) != [] && Candidate(block)[0] == '#'
  {
    var n, w := BodyStart(0, block), WithoutBody(block);
    BodyStartIsBrace(0, block);
    if n < |block| { Reflow.RStripFacts(block[..n]); }
    assert w != [] && w[0] == '#';
    OtherStart(w, "inline");
    NormaliseIsWritten(w);
  }

  lemma NoKeyword(block: string, c: char)
    requires block != [] && block[0] == c && c != '{'
    requires forall i :: 0 <= i < |AGGREGATES| ==> AGGREGATES[i] != [] && AGGREGATES[i][0] != c
    ensures MatchAggregate(block) == None
  {
    var n := IndexOf(block, '{');
    if n < |block| {
      var head := block[..n];
      forall i | 0 <= i < |AGGREGATES| ensures AfterWord(head, AGGREGATES[i]).None? {
        OtherStart(head, AGGREGATES[i]);
      }
      NoKey(head, AGGREGATES);
    }
  }

  /** A constant has an entry exactly when it has a value; a bare name and a macro with
      parameters have none. */
  lemma DefineIff(t: string)
    requires t == [] || !IsSpace(t[0])
    ensures var r := Classify("#define" + (" " + t));
            if NamesValue(t) then r.Some? && r.value.kind == Define && r.value.name == LeadingIdent(t).value
            else r == None
  {
    var block := "#define" + (" " + t);
    MatchDefineIff(t);
    NoKeyword(block, '#');
    OtherStart(block, "typedef");
    DirectiveStarts(block);
  }

  // ---- aliases ----

  /** The text ends in an identifier. */
  predicate EndsInName(t: string) {
    var n := TailRun(t);
    0 < n <= |t| && IsIdentStart(t[|t| - n])
  }

  lemma TailAfterBlank(pre: string, t: string)
    requires pre != [] && !IsWord(pre[|pre| - 1])
    ensures TailRun(pre + t) == TailRun(t) <= |t|
  {
    TailRunFacts(t);
    if TailRun(t) == |t| {
      assert t[|t| - TailRun(t)..] == t;
      TailRunConcat(pre, t);
    } else {
      var n := |t| - TailRun(t);
      assert t == t[..n] + t[n..];
      Assoc(pre, t[..n], t[n..]);
      TailRunConcat(pre + t[..n], t[n..]);
    }
  }

  lemma MatchTypedefBody(block: string, body: string)
    requires BeforeSemicolon(block) == Some(body) && AfterWord(block, "typedef").Some?
    requires TailRun(body) <= |body| - 8
    ensures MatchTypedef(block)
         == if EndsInName(body) then Some(Entry(Typedef, body[|body| - TailRun(body)..], block)) else None
  {
  }

  lemma NameBehind(pre: string, t: string)
    requires pre != [] && !IsWord(pre[|pre| - 1])
    ensures TailRun(pre + t) == TailRun(t) <= |t| && (EndsInName(pre + t) <==> EndsInName(t))
    ensures (pre + t)[|pre + t| - TailRun(t)..] == t[|t| - TailRun(t)..]
  {
    var n := TailRun(t);
    TailAfterBlank(pre, t);
    assert (pre + t)[|pre + t| - n..] == t[|t| - n..];
  }

  lemma AliasBody(t: string)
    requires t != [] && !IsSpace(t[|t| - 1])
    ensures BeforeSemicolon("typedef" + (" " + (t + ";"))) == Some("typedef " + t)
  {
    assert "typedef" + " " == "typedef " && "" + ";" == ";";
    Assoc("typedef", " ", t + ";");
    Assoc("typedef ", t, ";");
    BeforeSemicolonOf("typedef " + t, "");
  }

  lemma MatchAliasIff(t: string)
    requires t != [] && !IsSpace(t[0]) && !IsSpace(t[|t| - 1])
    ensures var block := "typedef" + (" " + (t + ";"));
            MatchTypedef(block) == if EndsInName(t) then Some(Entry(Typedef, t[|t| - TailRun(t)..], block)) else None
  {
    AfterWordOf("typedef", t + ";");
    AliasBody(t);
    NameBehind("typedef ", t);
    MatchTypedefBody("typedef" + (" " + (t + ";")), "typedef " + t);
  }

  /** An alias has an entry exactly when its text ends in an identifier, which is its name; an
      alias of an array or of a function pointer has none. */
  lemma AliasIff(t: string)
    requires t != [] && !IsSpace(t[0]) && !IsSpace(t[|t| - 1])
    ensures var block := "typedef" + (" " + (t + ";"));
            Classify(block) == if EndsInName(t) then Some(Entry(Typedef, t[|t| - TailRun(t)..], block)) else None
  {
    var block := "typedef" + (" " + (t + ";"));
    AfterWordOf("typedef", t + ";");
    MatchAliasIff(t);
    NoDefine(block);
    TypedefIsNoAggregate(block);
    AfterWordIsLed(block, "typedef");
    KeywordIsNoFunction(block, "typedef");
  }

  /** The callback type of the C header is such an alias: any header can lose it unnoticed. */
  lemma CallbackAliasIsUnseen(u: string, v: string, a: seq<string>, t: string, b: seq<string>)
    requires t != [] && !IsSpace(t[0]) && (t[|t| - 1] == ')' || t[|t| - 1] == ']')
    requires var block := "typedef" + (" " + (t + ";"));
             Reflow.Normals(Cleaned(u)) == a + ([block] + b) && Reflow.Normals(Cleaned(v)) == a + b
    ensures SurfaceOf(u) == SurfaceOf(v)
  {
    AliasIff(t);
    BracketIsNoName(t);
    BlockRemoval(u, v, a, "typedef" + (" " + (t + ";")), b);
  }

  lemma BracketIsNoName(t: string)
    requires t != [] && (t[|t| - 1] == ')' || t[|t| - 1] == ']')
    ensures !EndsInName(t)
  {
    assert TailRun(t) == 0;
  }

  // ---- aggregates ----

  lemma {:induction false} NoTag(head: string, kinds: seq<string>)
    requires forall i :: 0 <= i < |kinds| ==>
               var t := AfterWord(head, kinds[i]); t.None? || TagAfter(kinds[i], t.value).None?
    ensures AggregateKey(head, kinds).None?
  {
    if kinds != [] {
      assert forall i :: 0 <= i < |kinds[1..]| ==> kinds[1..][i] == kinds[i + 1];
      NoTag(head, kinds[1..]);
    }
  }

  lemma OtherKeywords(i: nat, j: nat, t: string)
    requires i < |AGGREGATES| && j < |AGGREGATES| && i != j
    ensures AfterWord(AGGREGATES[i] + (" " + t), AGGREGATES[j]).None?
  {
    if i < j { KeywordLetters(j, i); } else { KeywordLetters(i, j); }
    OtherStart(AGGREGATES[i] + (" " + t), AGGREGATES[j]);
  }

  lemma Untagged(i: nat, t: string)
    requires i < |AGGREGATES| && (t == [] || !IsSpace(t[0])) && TagAfter(AGGREGATES[i], t).None?
    ensures AggregateKey(AGGREGATES[i] + (" " + t), AGGREGATES).None?
  {
    var head := AGGREGATES[i] + (" " + t);
    AfterWordOf(AGGREGATES[i], t);
    forall j | 0 <= j < |AGGREGATES|
      ensures var r := AfterWord(head, AGGREGATES[j]); r.None? || TagAfter(AGGREGATES[j], r.value).None?
    {
      if j != i { OtherKeywords(i, j, t); }
    }
    NoTag(head, AGGREGATES);
  }

  lemma AggregateWord(i: nat)
    requires i < |AGGREGATES|
    ensures OpensAnotherKind(AGGREGATES[i]) && AGGREGATES[i][0] != 't' && AGGREGATES[i][0] != '#'
  {
  }

  lemma AggregateLed(i: nat, t: string, rest: string)
    requires i < |AGGREGATES|
    ensures Led((AGGREGATES[i] + (" " + t)) + ("{" + rest), AGGREGATES[i])
  {
    var s := (AGGREGATES[i] + (" " + t)) + ("{" + rest);
    assert s[..|AGGREGATES[i]|] == AGGREGATES[i] && s[|AGGREGATES[i]|] == ' ';
  }

  lemma AggregateAtIff(i: nat, t: string, rest: string)
    requires i < |AGGREGATES| && (t == [] || !IsSpace(t[0])) && '{' !in t
    ensures var block := (AGGREGATES[i] + (" " + t)) + ("{" + rest);
            Classify(block) == match TagAfter(AGGREGATES[i], t)
                               case None => None
                               case Some(tag) => Some(Entry(Aggregate, AGGREGATES[i] + " " + tag, block))
  {
    var head := AGGREGATES[i] + (" " + t);
    var block := head + ("{" + rest);
    match TagAfter(AGGREGATES[i], t)
    case Some(tag) =>
      TaggedEntry(i, t, tag, rest);
    case None =>
      KeywordIsWord(i);
      AggregateWord(i);
      HeadOf(head, rest);
      Untagged(i, t);
      NoDefine(block);
      OtherStart(block, "typedef");
      AggregateLed(i, t, rest);
      KeywordIsNoFunction(block, AGGREGATES[i]);
  }

  lemma TagIff(kw: string, t: string)
    ensures TagAfter(kw, t).Some? <==> t != [] && IsIdentStart(t[0])
  {
    if AfterWord(t, "class").Some? { AtChar(t, 0, "class", 0); }
    if AfterWord(t, "struct").Some? { AtChar(t, 0, "struct", 0); }
  }

  /** An aggregate has an entry exactly when an identifier, its tag, follows the keyword. */
  lemma AggregateIff(kw: string, t: string, rest: string)
    requires IsAggregateKeyword(kw) && (t == [] || !IsSpace(t[0])) && '{' !in t
    ensures var block := (kw + (" " + t)) + ("{" + rest);
            Classify(block) == match TagAfter(kw, t)
                               case None => None
                               case Some(tag) => Some(Entry(Aggregate, kw + " " + tag, block))
    ensures TagAfter(kw, t).Some? <==> t != [] && IsIdentStart(t[0])
  {
    var i := AggregateKeyword(kw);
    AggregateAtIff(i, t, rest);
    TagIff(kw, t);
  }

  lemma {:induction false} KeyIsOneOf(head: string, kinds: seq<string>)
    requires AggregateKey(head, kinds).Some?
    ensures exists i :: 0 <= i < |kinds| && AfterWord(head, kinds[i]).Some?
  {
    if AfterWord(head, kinds[0]).None? || TagAfter(kinds[0], AfterWord(head, kinds[0]).value).None? {
      KeyIsOneOf(head, kinds[1..]);
      var i :| 0 <= i < |kinds[1..]| && AfterWord(head, kinds[1..][i]).Some?;
      assert kinds[i + 1] == kinds[1..][i];
    }
  }

  /** Nothing else is an aggregate. */
  lemma AggregatesAre(block: string)
    requires MatchAggregate(block).Some?
    ensures exists kw :: IsAggregateKeyword(kw) && Led(block, kw)
  {
    var n := IndexOf(block, '{');
    var head := block[..n];
    KeyIsOneOf(head, AGGREGATES);
    var i :| 0 <= i < |AGGREGATES| && AfterWord(head, AGGREGATES[i]).Some?;
    KeywordOf(i);
    AfterWordIsLed(head, AGGREGATES[i]);
    LedLonger(block, n, AGGREGATES[i]);
  }

  lemma LedLonger(block: string, n: nat, word: string)
    requires n <= |block| && Led(block[..n], word)
    ensures Led(block, word)
  {
    assert block[..n][..|word|] == block[..|word|];
  }
}
