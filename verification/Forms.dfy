/** The four kinds of declarations as they are written, and the entry the classifier gives each. */
module Forms {
  import opened Text
  import opened Braces
  import opened Surface
  import opened Gate
  import opened Promises
  import Params
  import Reflow
  import Namespaces

  // ---- words at the start of a block ----

  lemma AfterWordOf(word: string, t: string)
    requires t == [] || !IsSpace(t[0])
    ensures AfterWord(word + (" " + t), word) == Some(t)
  {
    var s := word + (" " + t);
    assert s[0..|word|] == word && s[|word|..] == " " + t;
    SpaceRunConcat(" ", t);
    assert (" " + t)[1..] == t;
  }

  lemma OtherStart(s: string, word: string)
    requires word != [] && s != [] && s[0] != word[0]
    ensures AfterWord(s, word).None?
  {
    if |word| <= |s| { assert s[0..|word|][0] == s[0]; }
  }

  /** A block that starts with a word and a blank has that word as its first word. */
  lemma FirstWordIs(s: string, word: string)
    requires AfterWord(s, word).Some? && AllWord(word)
    ensures WordRun(s) == |word| && s[..WordRun(s)] == word
  {
    var t := s[|word|..];
    assert s[0..|word|] == word && s == word + t;
    assert SpaceRun(t) > 0;
    WordRunConcat(word, t);
  }

  lemma IdentLeads(name: string, t: string)
    requires IsIdent(name) && (t == [] || !IsWord(t[0]))
    ensures LeadingIdent(name + t) == Some(name) && (name + t)[|name|..] == t
  {
    WordRunConcat(name, t);
    assert (name + t)[..|name|] == name;
  }

  // ---- constants ----

  /** A constant with a normalised value is entered under its name with that value. */
  lemma DefineEntry(name: string, value: string)
    requires IsIdent(name) && Normalise(value) == value && (value == [] || !IsSpace(value[0]))
    ensures Classify("#define" + (" " + (name + (" " + value)))) == Some(Entry(Define, name, value))
  {
    AfterWordOf("#define", name + (" " + value));
    DefinedAs("#define" + (" " + (name + (" " + value))), name, value);
  }

  lemma DefinedAs(block: string, name: string, value: string)
    requires IsIdent(name) && Normalise(value) == value && (value == [] || !IsSpace(value[0]))
    requires block != [] && AfterWord(block, "#define") == Some(name + (" " + value))
    ensures Classify(block) == Some(Entry(Define, name, value))
  {
    IdentLeads(name, " " + value);
    SpaceRunConcat(" ", value);
    assert (" " + value)[1..] == value;
  }

  // ---- aggregates ----

  lemma HeadOf(head: string, rest: string)
    requires '{' !in head
    ensures IndexOf(head + ("{" + rest), '{') == |head| && (head + ("{" + rest))[..|head|] == head
  {
    IndexOfFinds(head, '{');
    IndexOfConcat(head, "{" + rest, '{');
  }

  lemma {:induction false} KeyAt(kinds: seq<string>, i: nat, head: string, t: string, tag: string)
    requires i < |kinds| && forall j :: 0 <= j < i ==> AfterWord(head, kinds[j]).None?
    requires AfterWord(head, kinds[i]) == Some(t) && TagAfter(kinds[i], t) == Some(tag)
    ensures AggregateKey(head, kinds) == Some(kinds[i] + " " + tag)
  {
    if i > 0 {
      assert forall j :: 0 <= j < i - 1 ==> kinds[1..][j] == kinds[j + 1];
      KeyAt(kinds[1..], i - 1, head, t, tag);
    }
  }

  /** The four keywords start with different letters. */
  lemma KeywordLetters(i: nat, j: nat)
    requires j < i < |AGGREGATES|
    ensures AGGREGATES[i] != [] && AGGREGATES[j] != [] && AGGREGATES[j][0] != AGGREGATES[i][0]
  {
  }

  lemma KeywordIsWord(i: nat)
    requires i < |AGGREGATES|
    ensures AGGREGATES[i] != [] && AGGREGATES[i][0] != '#' && '{' !in AGGREGATES[i]
  {
  }

  lemma KeyOf(i: nat, t: string, tag: string)
    requires i < |AGGREGATES| && (t == [] || !IsSpace(t[0])) && TagAfter(AGGREGATES[i], t) == Some(tag)
    ensures AggregateKey(AGGREGATES[i] + (" " + t), AGGREGATES) == Some(AGGREGATES[i] + " " + tag)
  {
    var head := AGGREGATES[i] + (" " + t);
    AfterWordOf(AGGREGATES[i], t);
    forall j | 0 <= j < i ensures AfterWord(head, AGGREGATES[j]).None? {
      KeywordLetters(i, j);
      OtherStart(head, AGGREGATES[j]);
    }
    KeyAt(AGGREGATES, i, head, t, tag);
  }

  /** What may stand between a tag and the brace: nothing, a blank, a list of bases. */
  predicate AfterTag(mid: string) {
    '{' !in mid && (mid == [] || !IsWord(mid[0]))
  }

  lemma TaggedEntry(i: nat, t: string, tag: string, rest: string)
    requires i < |AGGREGATES| && t != [] && !IsSpace(t[0]) && '{' !in t && TagAfter(AGGREGATES[i], t) == Some(tag)
    ensures var block := (AGGREGATES[i] + (" " + t)) + ("{" + rest);
            Classify(block) == Some(Entry(Aggregate, AGGREGATES[i] + " " + tag, block))
  {
    var head := AGGREGATES[i] + (" " + t);
    KeywordIsWord(i);
    HeadOf(head, rest);
    KeyOf(i, t, tag);
    NoDefine(head + ("{" + rest));
  }

  lemma AggregateAt(i: nat, tag: string, mid: string, rest: string)
    requires i < |AGGREGATES| && IsIdent(tag) && AfterTag(mid)
    requires (AGGREGATES[i] == "enum" ==> tag != "class" && tag != "struct")
    ensures var block := (AGGREGATES[i] + (" " + (tag + mid))) + ("{" + rest);
            Classify(block) == Some(Entry(Aggregate, AGGREGATES[i] + " " + tag, block))
  {
    var t := tag + mid;
    IdentLeads(tag, mid);
    WordRunConcat(tag, mid);
    assert t[..|tag|] == tag;
    if AGGREGATES[i] == "enum" {
      if AfterWord(t, "class").Some? { FirstWordIs(t, "class"); }
      if AfterWord(t, "struct").Some? { FirstWordIs(t, "struct"); }
    }
    TaggedEntry(i, t, tag, rest);
  }

  /** The keywords that open an aggregate. */
  predicate IsAggregateKeyword(kw: string) {
    kw == "struct" || kw == "enum" || kw == "union" || kw == "class"
  }

  lemma AggregateKeyword(kw: string) returns (i: nat)
    requires IsAggregateKeyword(kw)
    ensures i < |AGGREGATES| && AGGREGATES[i] == kw
  {
    i := if kw == "struct" then 0 else if kw == "enum" then 1 else if kw == "union" then 2 else 3;
  }

  lemma KeywordOf(i: nat)
    requires i < |AGGREGATES|
    ensures IsAggregateKeyword(AGGREGATES[i])
  {
  }

  /** A structure, union, class or unscoped enumeration is entered under its keyword and tag
      with its whole text. */
  lemma AggregateEntry(kw: string, tag: string, mid: string, rest: string)
    requires IsAggregateKeyword(kw) && IsIdent(tag) && AfterTag(mid)
    requires (kw == "enum" ==> tag != "class" && tag != "struct")
    ensures var block := (kw + (" " + (tag + mid))) + ("{" + rest);
            Classify(block) == Some(Entry(Aggregate, kw + " " + tag, block))
  {
    var i := AggregateKeyword(kw);
    AggregateAt(i, tag, mid, rest);
  }

  lemma ScopedTag(scope: string, u: string, tag: string)
    requires (scope == "class" || scope == "struct") && u != [] && !IsSpace(u[0]) && LeadingIdent(u) == Some(tag)
    ensures TagAfter("enum", scope + (" " + u)) == Some(tag)
  {
    AfterWordOf(scope, u);
    if scope == "struct" { OtherStart(scope + (" " + u), "class"); }
  }

  lemma NoBraceIn(scope: string, tag: string, mid: string)
    requires '{' !in scope && IsIdent(tag) && '{' !in mid
    ensures '{' !in scope + (" " + (tag + mid))
  {
    assert '{' !in tag + mid;
    assert '{' !in " " + (tag + mid);
  }

  /** A scoped enumeration is entered under its tag, not under its second keyword. */
  lemma ScopedEnumEntry(scope: string, tag: string, mid: string, rest: string)
    requires (scope == "class" || scope == "struct") && IsIdent(tag) && AfterTag(mid)
    ensures var block := ("enum" + (" " + (scope + (" " + (tag + mid))))) + ("{" + rest);
            Classify(block) == Some(Entry(Aggregate, "enum" + " " + tag, block))
  {
    assert '{' !in "class" && '{' !in "struct" && AGGREGATES[1] == "enum";
    NoBraceIn(scope, tag, mid);
    IdentLeads(tag, mid);
    ScopedTag(scope, tag + mid, tag);
    TaggedEntry(1, scope + (" " + (tag + mid)), tag, rest);
  }

  lemma KeywordTag(scope: string, mid: string)
    requires (scope == "class" || scope == "struct") && AfterTag(mid)
    requires var u := mid[SpaceRun(mid)..]; u == [] || !IsIdentStart(u[0])
    ensures TagAfter("enum", scope + mid) == Some(scope)
  {
    IdentLeads(scope, mid);
    NothingAfter(scope, mid);
    if scope == "struct" { OtherStart(scope + mid, "class"); } else { OtherStart(scope + mid, "struct"); }
  }

  lemma NothingAfter(word: string, mid: string)
    requires var u := mid[SpaceRun(mid)..]; u == [] || !IsIdentStart(u[0])
    ensures var r := AfterWord(word + mid, word); r.None? || LeadingIdent(r.value).None?
  {
    assert (word + mid)[|word|..] == mid;
  }

  /** Without a tag behind it the second keyword is the tag. */
  lemma KeywordIsTag(scope: string, mid: string, rest: string)
    requires (scope == "class" || scope == "struct") && AfterTag(mid)
    requires var u := mid[SpaceRun(mid)..]; u == [] || !IsIdentStart(u[0])
    ensures var block := ("enum" + (" " + (scope + mid))) + ("{" + rest);
            Classify(block) == Some(Entry(Aggregate, "enum" + " " + scope, block))
  {
    KeywordTag(scope, mid);
    ScopeLacksBrace(scope, mid);
    SecondKeyword();
    TaggedEntry(1, scope + mid, scope, rest);
  }

  lemma ScopeLacksBrace(scope: string, mid: string)
    requires (scope == "class" || scope == "struct") && '{' !in mid
    ensures '{' !in scope + mid && scope + mid != [] && !IsSpace((scope + mid)[0])
  {
    assert '{' !in "class" && '{' !in "struct" && "class"[0] == 'c' && "struct"[0] == 's';
  }

  lemma SecondKeyword()
    ensures |AGGREGATES| == 4 && AGGREGATES[1] == "enum"
  {
  }

  // ---- type aliases ----

  /** An alias is entered under its last word with its whole text, whatever it stands for. */
  lemma TypedefEntry(t: string, alias: string)
    requires t != [] && !IsSpace(t[0]) && !IsWord(t[|t| - 1]) && IsIdent(alias)
    ensures var block := "typedef" + (" " + (t + (alias + ";"))); Classify(block) == Some(Entry(Typedef, alias, block))
  {
    var pre := "typedef" + (" " + t);
    AfterWordOf("typedef", t + (alias + ";"));
    Assoc(" ", t, alias + ";");
    Assoc("typedef", " " + t, alias + ";");
    Assoc(pre, alias, ";");
    MatchTypedefOf(pre, alias);
    NoDefine((pre + alias) + ";");
    TypedefIsNoAggregate((pre + alias) + ";");
  }

  lemma BeforeSemicolonOf(body: string, w: string)
    requires body != [] && !IsSpace(body[|body| - 1]) && AllSpace(w)
    ensures BeforeSemicolon(body + (w + ";")) == Some(body)
  {
    var s := body + (w + ";");
    StripTrailing(s, "");
    assert s + "" == s && s[..|s| - 1] == body + w;
    StripTrailing(body, w);
  }

  lemma MatchTypedefOf(pre: string, alias: string)
    requires |pre| > 7 && !IsWord(pre[|pre| - 1]) && IsIdent(alias)
    requires AfterWord((pre + alias) + ";", "typedef").Some?
    ensures MatchTypedef((pre + alias) + ";") == Some(Entry(Typedef, alias, (pre + alias) + ";"))
  {
    var body := pre + alias;
    BeforeSemicolonOf(body, "");
    assert "" + ";" == ";";
    TailRunConcat(pre, alias);
    assert body[|pre|..] == alias && body[|body| - 1] == alias[|alias| - 1];
  }

  lemma TypedefIsNoAggregate(block: string)
    requires block != [] && block[0] == 't'
    ensures MatchAggregate(block).None?
  {
    var n := IndexOf(block, '{');
    if n < |block| {
      var head := block[..n];
      if n == 0 {
        IndexOfFinds(block, '{');
      } else {
        forall i | 0 <= i < |AGGREGATES| ensures AfterWord(head, AGGREGATES[i]).None? {
          NotT(i);
          OtherStart(head, AGGREGATES[i]);
        }
        NoKey(head, AGGREGATES);
      }
    }
  }

  lemma NotT(i: nat)
    requires i < |AGGREGATES|
    ensures AGGREGATES[i] != [] && AGGREGATES[i][0] != 't'
  {
  }

  lemma {:induction false} NoKey(head: string, kinds: seq<string>)
    requires forall i :: 0 <= i < |kinds| ==> AfterWord(head, kinds[i]).None?
    ensures AggregateKey(head, kinds).None?
  {
    if kinds != [] {
      assert forall i :: 0 <= i < |kinds[1..]| ==> kinds[1..][i] == kinds[i + 1];
      NoKey(head, kinds[1..]);
    }
  }

  // ---- functions ----

  /** A function declaration as written: return type, blanks, name, blanks, the parameters
      between parentheses, and what stands behind them. */
  datatype Form = Form(ret: string, gap: string, name: string, space: string, params: string, suffix: string)

  /** Any return type without a parenthesis, trimmed. */
  predicate IsReturn(ret: string) {
    ret != [] && !IsSpace(ret[0]) && !IsSpace(ret[|ret| - 1]) && '(' !in ret
  }

  /** The blanks between return type and name; none are needed after `*`, `&` or `>`. */
  predicate IsGap(ret: string, gap: string)
    requires ret != []
  {
    AllSpace(gap) && (gap != [] || !IsWord(ret[|ret| - 1]))
  }

  predicate IsForm(f: Form) {
    && IsReturn(f.ret) && IsGap(f.ret, f.gap) && IsIdent(f.name) && AllSpace(f.space)
    && ')' !in f.suffix && ';' !in f.suffix
  }

  predicate IsLetter(c: char) {
    'a' <= c <= 'z' || 'A' <= c <= 'Z' || c == '_'
  }

  predicate InReturn(c: char) {
    IsLetter(c) || '0' <= c <= '9' || c == '*' || IsSpace(c)
  }

  /** The keywords that open another kind of declaration. */
  predicate IsKindKeyword(word: string) {
    word == "typedef" || word == "struct" || word == "enum" || word == "union" || word == "class"
  }

  /** A return type the function pattern reads: letters, digits, underscores, blanks and stars,
      starting with an identifier that is no keyword of another kind. */
  predicate Readable(ret: string)
    requires ret != []
  {
    && IsLetter(ret[0]) && (forall i :: 0 <= i < |ret| ==> InReturn(ret[i]))
    && !IsKindKeyword(ret[..WordRun(ret)])
  }

  /** Whether the gate sees the declaration at all. */
  predicate Entered(f: Form)
    requires f.ret != []
  {
    Readable(f.ret) && AllSpace(f.suffix) && ';' !in f.params
  }

  function Prefix(f: Form): string {
    f.ret + (f.gap + (f.name + f.space))
  }

  /** The declaration, then `end`. */
  function Heading(f: Form, end: string): string {
    Prefix(f) + ("(" + ((f.params + ")") + (f.suffix + end)))
  }

  function SignatureOf(ret: string, name: string, params: string): string {
    Normalise(ret) + " " + name + "(" + Normalise(params) + ");"
  }

  /** The entry of the declaration: its name, with a signature that shows its return type
      and its parameters. */
  function EntryOf(f: Form): Option<Entry>
    requires f.ret != []
  {
    if Entered(f) then Some(Entry(Function, f.name, SignatureOf(f.ret, f.name, f.params))) else None
  }

  /** A character between two that are not blank survives trimming. */
  lemma InnerSurvives(x: string, p: nat, i: nat, q: nat)
    requires p <= i <= q < |x| && !IsSpace(x[p]) && !IsSpace(x[q]) && !IsWord(x[i])
    ensures !IsIdent(Strip(x))
  {
    var a, b := Params.StripSplits(x);
    var y := Strip(x);
    assert forall j :: 0 <= j < |a| ==> x[j] == a[j];
    assert forall j :: |a| + |y| <= j < |x| ==> x[j] == b[j - |a| - |y|];
    assert y[i - |a|] == x[i];
  }

  lemma NotIdentYet(ret: string, gap: string, t: string, k: nat)
    requires IsReturn(ret) && IsGap(ret, gap) && t != [] && IsIdentStart(t[0]) && k < |ret|
    ensures !IsIdent(Strip((ret + (gap + t))[k..]))
  {
    var p := |ret| - 1 - k;
    var x := ret[k..] + (gap + t);
    DropConcat(ret, gap + t, k);
    assert x[p] == ret[|ret| - 1] && x[p + 1 + |gap|] == t[0];
    if gap == [] {
      InnerSurvives(x, p, p, p + 1);
    } else {
      assert x[p + 1] == gap[0];
      InnerSurvives(x, p, p + 1, p + 1 + |gap|);
    }
  }

  lemma {:induction false} NameFrom(f: Form, k: nat)
    requires IsForm(f) && k <= |f.ret|
    ensures NameAt(Prefix(f), k) == Some(|f.ret|)
    decreases |f.ret| - k
  {
    if k < |f.ret| {
      NotIdentYet(f.ret, f.gap, f.name + f.space, k);
      NameFrom(f, k + 1);
    } else {
      NameLeft(f);
    }
  }

  lemma NameLeft(f: Form)
    requires AllSpace(f.gap) && IsIdent(f.name) && AllSpace(f.space)
    ensures var pre := Prefix(f); Strip(pre[|f.ret|..]) == f.name && pre[..|f.ret|] == f.ret
  {
    Params.StripTrimmed(f.gap, f.name, f.space);
    assert Prefix(f)[|f.ret|..] == f.gap + (f.name + f.space);
  }

  lemma PrefixInType(f: Form)
    requires IsForm(f) && Readable(f.ret)
    ensures forall i :: 0 <= i < |Prefix(f)| ==> InReturnType(Prefix(f)[i])
  {
    var t := f.name + f.space;
    assert forall i :: 0 <= i < |t| ==> InReturnType(t[i]);
    assert forall i :: 0 <= i < |f.gap + t| ==> InReturnType((f.gap + t)[i]);
  }

  lemma PrefixLacksParen(f: Form)
    requires IsForm(f)
    ensures '(' !in Prefix(f)
  {
    var t := f.name + f.space;
    assert '(' !in f.name && '(' !in f.space && '(' !in f.gap;
    assert '(' !in t;
    assert '(' !in f.gap + t;
  }

  /** The first word of a declaration is the first word of its return type. */
  lemma FirstWordOf(ret: string, gap: string, t: string)
    requires ret != [] && IsGap(ret, gap)
    ensures var s := ret + (gap + t); WordRun(s) == WordRun(ret) && s[..WordRun(s)] == ret[..WordRun(ret)]
  {
    var n := WordRun(ret);
    WordRunFacts(ret);
    var y := ret[n..] + (gap + t);
    Assoc(ret[..n], ret[n..], gap + t);
    assert ret == ret[..n] + ret[n..];
    WordRunConcat(ret[..n], y);
    assert (ret[..n] + y)[..n] == ret[..n];
  }

  lemma FunctionWord(f: Form, r: string)
    requires IsReturn(f.ret) && IsGap(f.ret, f.gap)
    ensures var c := Prefix(f) + r; c[0] == f.ret[0] && c[..WordRun(c)] == f.ret[..WordRun(f.ret)]
  {
    var t := f.name + f.space;
    FirstWordOf(f.ret, f.gap, t + r);
    Assoc(f.gap, t, r);
    Assoc(f.ret, f.gap + t, r);
  }

  lemma NotClosed(params: string, suffix: string, w: string)
    requires ')' !in suffix && !AllSpace(suffix) && AllSpace(w)
    ensures Parameters((params + ")") + (suffix + (w + ";"))) == None
  {
    var x := RStripSplit(suffix);
    var t, body := RStrip(suffix), (params + ")") + RStrip(suffix);
    LastOfTrimmed(suffix);
    BeforeSemicolonOf(body, x + w);
    Assoc(x, w, ";");
    Assoc(t, x, w + ";");
    Assoc(params + ")", t, x + (w + ";"));
  }

  lemma Closed(params: string, suffix: string, w: string)
    requires AllSpace(suffix) && AllSpace(w)
    ensures Parameters((params + ")") + (suffix + (w + ";"))) == if ';' in params then None else Some(params)
  {
    BeforeSemicolonOf(params + ")", suffix + w);
    Assoc(suffix, w, ";");
    assert (params + ")")[..|params|] == params && ';' in (params + ")") <==> ';' in params;
  }

  /** Parameters are read exactly when only blanks follow their parenthesis. */
  lemma ParametersIff(params: string, suffix: string, w: string)
    requires ')' !in suffix && AllSpace(w)
    ensures Parameters((params + ")") + (suffix + (w + ";")))
         == if AllSpace(suffix) && ';' !in params then Some(params) else None
  {
    if AllSpace(suffix) { Closed(params, suffix, w); } else { NotClosed(params, suffix, w); }
  }

  lemma ParenAt(pre: string, r: string)
    requires '(' !in pre
    ensures var c := pre + ("(" + r); IndexOf(c, '(') == |pre| && c[..|pre|] == pre && c[|pre| + 1..] == r
  {
    IndexOfFinds(pre, '(');
    IndexOfConcat(pre, "(" + r, '(');
  }

  lemma MatchFunctionIs(c: string, pre: string, k: nat, name: string)
    requires var q := IndexOf(c, '('); 0 < q < |c| && c[..q] == pre
    requires IsIdentStart(c[0]) && !OpensAnotherKind(c[..WordRun(c)])
    requires forall i :: 0 <= i < |pre| ==> InReturnType(pre[i])
    requires 1 <= k <= |pre| && NameAt(pre, 1) == Some(k) && Strip(pre[k..]) == name
    ensures MatchFunction(c) == match Parameters(c[|pre| + 1..])
                                case None => None
                                case Some(params) => Some(Entry(Function, name, SignatureOf(pre[..k], name, params)))
  {
  }

  lemma MatchReadable(f: Form, r: string)
    requires IsForm(f) && Readable(f.ret)
    ensures MatchFunction(Prefix(f) + ("(" + r)) == match Parameters(r)
                                                     case None => None
                                                     case Some(params) =>
                                                       Some(Entry(Function, f.name, SignatureOf(f.ret, f.name, params)))
  {
    var pre := Prefix(f);
    PrefixLacksParen(f);
    ParenAt(pre, r);
    FunctionWord(f, "(" + r);
    PrefixInType(f);
    NameFrom(f, 1);
    NameLeft(f);
    MatchFunctionIs(pre + ("(" + r), pre, |f.ret|, f.name);
  }

  lemma NotMatched(c: string, pre: string, i: nat)
    requires IndexOf(c, '(') == |pre| && |pre| <= |c| && c[..|pre|] == pre && i < |pre|
    requires !IsIdentStart(c[0]) || OpensAnotherKind(c[..WordRun(c)]) || !InReturnType(pre[i])
    ensures MatchFunction(c) == None
  {
  }

  lemma MatchUnreadable(f: Form, r: string)
    requires IsForm(f) && !Readable(f.ret)
    ensures MatchFunction(Prefix(f) + ("(" + r)) == None
  {
    var pre := Prefix(f);
    PrefixLacksParen(f);
    ParenAt(pre, r);
    FunctionWord(f, "(" + r);
    if IsIdentStart(f.ret[0]) && !OpensAnotherKind(f.ret[..WordRun(f.ret)]) {
      var i :| 0 <= i < |f.ret| && !InReturnType(f.ret[i]);
      assert pre[i] == f.ret[i];
      NotMatched(pre + ("(" + r), pre, i);
    } else {
      NotMatched(pre + ("(" + r), pre, 0);
    }
  }

  /** What the function pattern reads from a heading and a semicolon: the entry, exactly when
      the return type is readable and only blanks follow the parameters. */
  lemma MatchFunctionIff(f: Form, w: string)
    requires IsForm(f) && AllSpace(w)
    ensures MatchFunction(Heading(f, w + ";")) == EntryOf(f)
  {
    var r := (f.params + ")") + (f.suffix + (w + ";"));
    if Readable(f.ret) {
      MatchReadable(f, r);
      ParametersIff(f.params, f.suffix, w);
    } else {
      MatchUnreadable(f, r);
    }
  }

  lemma {:induction false} NoBody(d: int, s: string)
    requires '{' !in s
    ensures BodyStart(d, s) == |s|
    decreases s
  {
    if s != [] { NoBody(d + Weight(s[0]), s[1..]); }
  }

  lemma {:induction false} NoIndex(s: string, c: char)
    requires c !in s
    ensures IndexOf(s, c) == |s|
  {
    if s != [] { NoIndex(s[1..], c); }
  }

  lemma HeadingLacks(c: char, f: Form, end: string)
    requires IsForm(f) && !InReturnType(c) && c != '(' && c != ')'
    requires c !in f.ret && c !in f.params && c !in f.suffix && c !in end
    ensures c !in Heading(f, end)
  {
    var t, r := f.name + f.space, (f.params + ")") + (f.suffix + end);
    assert c !in f.name && c !in f.space && c !in f.gap;
    assert c !in f.gap + t;
    assert c !in f.params + ")" && c !in f.suffix + end;
    assert c !in "(" + r;
  }

  lemma OtherFirstWord(block: string, word: string)
    requires AllWord(word) && block[..WordRun(block)] != word
    ensures AfterWord(block, word).None?
  {
    if AfterWord(block, word).Some? { FirstWordIs(block, word); }
  }

  lemma BracelessCandidate(block: string)
    requires '{' !in block && Normalise(block) == block && AfterWord(block, "inline").None?
    ensures Candidate(block) == block && MatchAggregate(block).None?
  {
    NoIndex(block, '{');
    NoBody(0, block);
  }

  /** A block without braces that starts with neither `#`, `typedef` nor `inline` is read by
      the function pattern as it stands. */
  lemma PlainCandidate(block: string)
    requires block != [] && block[0] != '#' && '{' !in block && Normalise(block) == block
    requires AfterWord(block, "typedef").None? && AfterWord(block, "inline").None?
    ensures Classify(block) == MatchFunction(block)
  {
    NoDefine(block);
    BracelessCandidate(block);
  }

  /** A declaration rather than a directive, an alias or an inline one. */
  predicate IsDeclaration(f: Form) {
    && IsForm(f) && f.ret[0] != '#'
    && f.ret[..WordRun(f.ret)] != "typedef" && f.ret[..WordRun(f.ret)] != "inline"
    && '{' !in f.ret && '{' !in f.params && '{' !in f.suffix
  }

  lemma FunctionStart(f: Form)
    requires IsDeclaration(f)
    ensures var b := Heading(f, ";");
            b != [] && b[0] != '#' && '{' !in b && AfterWord(b, "typedef").None? && AfterWord(b, "inline").None?
  {
    var b := Heading(f, ";");
    HeadingLacks('{', f, ";");
    FunctionWord(f, "(" + ((f.params + ")") + (f.suffix + ";")));
    OtherFirstWord(b, "typedef");
    OtherFirstWord(b, "inline");
  }

  /** A function declaration in normal form is entered under its name exactly when its return
      type is readable and nothing follows its parameters; otherwise it has no entry. */
  lemma FunctionEntry(f: Form)
    requires IsDeclaration(f) && Normalise(Heading(f, ";")) == Heading(f, ";")
    ensures Classify(Heading(f, ";")) == EntryOf(f)
  {
    MatchFunctionIff(f, "");
    assert "" + ";" == ";";
    FunctionStart(f);
    PlainCandidate(Heading(f, ";"));
  }

  // ---- inline definitions ----

  lemma {:induction false} WrittenWord(w: string, p: Pen)
    requires AllWord(w) && !p.Gap?
    ensures Written(p, w) == w && (w != [] ==> After(p, w) == Ink)
  {
    if w != [] { WrittenWord(w[1..], Ink); }
  }

  /** A word and a blank before a text in normal form keep it so. */
  lemma NormalAfterWord(w: string, s: string)
    requires AllWord(w) && w != [] && s != [] && !IsSpace(s[0]) && Normalise(s) == s
    ensures Normalise(w + (" " + s)) == w + (" " + s)
  {
    NormaliseIsWritten(s);
    NormaliseIsWritten(w + (" " + s));
    WrittenConcat(Start, w, " " + s);
    WrittenWord(w, Start);
    WrittenSpace(s);
    WrittenAfterGap(s);
  }

  lemma NormalBeforeSemicolon(s: string)
    requires s != [] && !IsSpace(s[|s| - 1]) && Normalise(s) == s
    ensures Normalise(s + " ;") == s + " ;"
  {
    NormaliseIsWritten(s);
    NormaliseIsWritten(s + " ;");
    WrittenConcat(Start, s, " ;");
    Reflow.AfterInk(Start, s);
    assert " ;"[1..] == ";" && ";"[1..] == "";
    assert Written(Gap, ";") == " ;";
  }

  lemma NotI(i: nat)
    requires i < |AGGREGATES|
    ensures AGGREGATES[i] != [] && AGGREGATES[i][0] != 'i'
  {
  }

  lemma NoKeyAfterI(h: string)
    requires h != [] && h[0] == 'i'
    ensures AggregateKey(h, AGGREGATES).None?
  {
    forall i | 0 <= i < |AGGREGATES| ensures AfterWord(h, AGGREGATES[i]).None? {
      NotI(i);
      OtherStart(h, AGGREGATES[i]);
    }
    NoKey(h, AGGREGATES);
  }

  lemma InlineHead(s: string, w: string)
    requires s != [] && !IsSpace(s[0]) && !IsSpace(s[|s| - 1]) && Normalise(s) == s && Braceless(s) && AllSpace(w)
    ensures var h := "inline" + (" " + s); IsHead(h + w) && Normalise(h + w) == h
  {
    var h := "inline" + (" " + s);
    assert Braceless(" " + s) && Braceless("inline") && Braceless(w);
    NormalAfterWord("inline", s);
    NormaliseIsWritten(h);
    NormaliseIsWritten(h + w);
    WrittenConcat(Start, h, w);
    WrittenBlank(After(Start, h), w);
    assert h + "" == h;
    NoKeyAfterI(NormalHead(h + w));
  }

  lemma DropInline(s: string)
    requires s != [] && !IsSpace(s[0]) && !IsSpace(s[|s| - 1]) && Normalise(s) == s
    ensures Normalise(WithoutInline(("inline" + (" " + s)) + " ;")) == s + " ;"
  {
    AfterWordOf("inline", s + " ;");
    Assoc(" ", s, " ;");
    Assoc("inline", " " + s, " ;");
    NormalBeforeSemicolon(s);
  }

  lemma InlineCandidate(s: string, w: string, body: string)
    requires s != [] && !IsSpace(s[0]) && !IsSpace(s[|s| - 1]) && Normalise(s) == s && Braceless(s) && AllSpace(w)
    ensures Classify(Normalise(Definition(("inline" + (" " + s)) + w, body))) == MatchFunction(s + " ;")
  {
    InlineHead(s, w);
    EntryOfDefinition(("inline" + (" " + s)) + w, body);
    DropInline(s);
  }

  predicate BracelessForm(f: Form) {
    Braceless(f.ret) && Braceless(f.params) && Braceless(f.suffix)
  }

  lemma HeadingBraceless(f: Form)
    requires IsForm(f) && BracelessForm(f)
    ensures Braceless(Heading(f, ""))
  {
    HeadingLacks('{', f, "");
    HeadingLacks('}', f, "");
  }

  lemma HeadingEnds(f: Form)
    requires IsForm(f) && (f.suffix == [] || !IsSpace(f.suffix[|f.suffix| - 1]))
    ensures var s := Heading(f, "");
            s != [] && !IsSpace(s[0]) && !IsSpace(s[|s| - 1]) && s + " ;" == Heading(f, " " + ";")
  {
    var pre, x := Prefix(f), f.params + ")";
    assert f.suffix + "" == f.suffix && " ;" == " " + ";";
    Assoc(x, f.suffix, " ;");
    Assoc("(", x + f.suffix, " ;");
    Assoc(pre, "(" + (x + f.suffix), " ;");
  }

  /** A form as it can stand in an inline definition, without the blanks before its brace. */
  predicate IsDefinition(f: Form) {
    && IsForm(f) && BracelessForm(f) && (f.suffix == [] || !IsSpace(f.suffix[|f.suffix| - 1]))
    && Normalise(Heading(f, "")) == Heading(f, "")
  }

  /** The block of an inline definition, with blanks `w` before the brace. */
  function InlineBlock(f: Form, w: string, body: string): string {
    Normalise(Definition(("inline" + (" " + Heading(f, ""))) + w, body))
  }

  /** An inline definition has the entry of the plain declaration, or like it none: moving
      from one to the other is no change, and the same functions go unseen. */
  lemma InlineIsDeclaration(f: Form, w: string, body: string)
    requires IsDefinition(f) && AllSpace(w)
    ensures Classify(InlineBlock(f, w, body)) == EntryOf(f)
  {
    HeadingEnds(f);
    HeadingBraceless(f);
    MatchFunctionIff(f, " ");
    InlineCandidate(Heading(f, ""), w, body);
  }

  /** An inline declaration without a body has the entry of the plain declaration too. */
  lemma InlineDeclarationEntry(f: Form)
    requires IsForm(f) && '{' !in Heading(f, ";") && Normalise(Heading(f, ";")) == Heading(f, ";")
    ensures Classify("inline" + (" " + Heading(f, ";"))) == EntryOf(f)
  {
    var s := Heading(f, ";");
    FunctionWord(f, "(" + ((f.params + ")") + (f.suffix + ";")));
    InlineWithoutBody(s);
    MatchFunctionIff(f, "");
    assert "" + ";" == ";";
  }

  lemma InlineWithoutBody(s: string)
    requires s != [] && !IsSpace(s[0]) && '{' !in s && Normalise(s) == s
    ensures Classify("inline" + (" " + s)) == MatchFunction(s)
  {
    var b := "inline" + (" " + s);
    assert '{' !in "inline" && '{' !in " " + s;
    NoDefine(b);
    OtherStart(b, "typedef");
    NoIndex(b, '{');
    NoBody(0, b);
    AfterWordOf("inline", s);
  }

  /** A form that can stand in a definition without `inline`: it opens neither a directive nor an
      aggregate, and its first word is not `inline` itself. */
  predicate IsPlainDefinition(f: Form) {
    && IsDefinition(f) && f.ret[0] != '#' && f.ret[..WordRun(f.ret)] != "inline"
    && !IsAggregateKeyword(f.ret[..WordRun(f.ret)])
  }

  /** The block of such a definition, with blanks `w` before the brace. */
  function PlainBlock(f: Form, w: string, body: string): string {
    Normalise(Definition(Heading(f, "") + w, body))
  }

  lemma NoKeyOther(h: string)
    requires !IsAggregateKeyword(h[..WordRun(h)])
    ensures AggregateKey(h, AGGREGATES).None?
  {
    forall i | 0 <= i < |AGGREGATES| ensures AfterWord(h, AGGREGATES[i]).None? {
      KeywordOf(i);
      KeywordIsAllWord(AGGREGATES[i]);
      OtherFirstWord(h, AGGREGATES[i]);
    }
    NoKey(h, AGGREGATES);
  }

  lemma KeywordIsAllWord(kw: string)
    requires IsAggregateKeyword(kw)
    ensures AllWord(kw) && kw != [] && Braceless(kw) && ';' !in kw
  {
  }

  lemma NormalHeadOf(s: string, w: string)
    requires s != [] && !IsSpace(s[|s| - 1]) && Normalise(s) == s && AllSpace(w)
    ensures Normalise(s + w) == s && NormalHead(s + w) == s + if w == [] then "" else " "
  {
    NormaliseIsWritten(s);
    NormaliseIsWritten(s + w);
    WrittenConcat(Start, s, w);
    Reflow.AfterInk(Start, s);
    WrittenBlank(Ink, w);
    assert s + "" == s;
  }

  lemma FirstWordOfHeading(f: Form, end: string)
    requires IsForm(f)
    ensures var c := Heading(f, "") + end; c[0] == f.ret[0] && c[..WordRun(c)] == f.ret[..WordRun(f.ret)]
  {
    var r := "(" + ((f.params + ")") + (f.suffix + ""));
    FunctionWord(f, r + end);
    Assoc(Prefix(f), r, end);
  }

  lemma PlainHead(f: Form, w: string)
    requires IsPlainDefinition(f) && AllSpace(w)
    ensures IsHead(Heading(f, "") + w) && Normalise(Heading(f, "") + w) == Heading(f, "")
  {
    var s := Heading(f, "");
    HeadingEnds(f);
    HeadingBraceless(f);
    assert Braceless(w);
    assert Braceless(s + w);
    NormalHeadOf(s, w);
    FirstWordOfHeading(f, "");
    assert s + "" == s;
    FirstWordOfHeading(f, if w == [] then "" else " ");
    NoKeyOther(NormalHead(s + w));
  }

  /** A definition without `inline` has the entry of the plain declaration too. */
  lemma PlainDefinitionEntry(f: Form, w: string, body: string)
    requires IsPlainDefinition(f) && AllSpace(w)
    ensures Classify(PlainBlock(f, w, body)) == EntryOf(f)
  {
    PlainHead(f, w);
    EntryOfDefinition(Heading(f, "") + w, body);
    PlainCandidateOf(f);
    HeadingEnds(f);
    MatchFunctionIff(f, " ");
  }

  lemma PlainCandidateOf(f: Form)
    requires IsPlainDefinition(f)
    ensures Normalise(WithoutInline(Heading(f, "") + " ;")) == Heading(f, "") + " ;"
  {
    HeadingEnds(f);
    FirstWordOfHeading(f, " ;");
    NotInline(Heading(f, "") + " ;");
    NormalBeforeSemicolon(Heading(f, ""));
  }

  lemma NotInline(s: string)
    requires s[..WordRun(s)] != "inline"
    ensures WithoutInline(s) == s
  {
    OtherFirstWord(s, "inline");
  }

  // ---- which edits of functions are reported ----

  lemma SignatureParts(r: string, name: string, p: string)
    requires '(' !in r && IsIdent(name)
    ensures var s := r + " " + name + "(" + p + ");"; var q := IndexOf(s, '(');
            q == |r| + 1 + |name| && s[..|r|] == r && s[q + 1..|s| - 2] == p
  {
    var pre := r + " " + name;
    assert '(' !in pre;
    assert r + " " + name + "(" + p + ");" == pre + ("(" + (p + ");"));
    ParenAt(pre, p + ");");
    assert pre[..|r|] == r && (p + ");")[..|p|] == p;
  }

  /** A signature shows the return type and the parameters: equal ones have both in common. */
  lemma SignatureShowsBoth(ret: string, params: string, ret2: string, params2: string, name: string)
    requires IsIdent(name) && '(' !in Normalise(ret) && '(' !in Normalise(ret2)
    ensures SignatureOf(ret, name, params) == SignatureOf(ret2, name, params2)
       <==> Normalise(ret) == Normalise(ret2) && Normalise(params) == Normalise(params2)
  {
    SignatureParts(Normalise(ret), name, Normalise(params));
    SignatureParts(Normalise(ret2), name, Normalise(params2));
  }

  lemma {:induction false} WrittenLacks(c: char, p: Pen, s: string)
    requires c !in s && !IsSpace(c)
    ensures c !in Written(p, s)
    decreases s
  {
    if s != [] { WrittenLacks(c, Next(p, s[0]), s[1..]); }
  }

  lemma NormalLacksParen(ret: string)
    requires IsReturn(ret)
    ensures '(' !in Normalise(ret)
  {
    NormaliseIsWritten(ret);
    WrittenLacks('(', Start, ret);
  }

  /** `s` is the block of a definition of the form, with `inline` or without. */
  ghost predicate IsDefinitionOf(s: string, f: Form) {
    || (IsDefinition(f) && exists w, body :: AllSpace(w) && s == InlineBlock(f, w, body))
    || (IsPlainDefinition(f) && exists w, body :: AllSpace(w) && s == PlainBlock(f, w, body))
  }

  /** `s` is the block of a declaration of the form or of a definition of it, with `inline` or
      without. */
  ghost predicate IsBlockOf(s: string, f: Form) {
    || (IsDeclaration(f) && s == Heading(f, ";") && Normalise(s) == s)
    || (&& IsForm(f) && '{' !in Heading(f, ";") && s == "inline" + (" " + Heading(f, ";"))
        && Normalise(Heading(f, ";")) == Heading(f, ";"))
    || IsDefinitionOf(s, f)
  }

  lemma DefinitionEntry(s: string, f: Form)
    requires IsDefinitionOf(s, f)
    ensures IsForm(f) && Classify(s) == EntryOf(f)
  {
    if w, body :| IsDefinition(f) && AllSpace(w) && s == InlineBlock(f, w, body) {
      InlineIsDeclaration(f, w, body);
    } else {
      var w, body :| AllSpace(w) && s == PlainBlock(f, w, body);
      PlainDefinitionEntry(f, w, body);
    }
  }

  lemma BlockEntry(s: string, f: Form)
    requires IsBlockOf(s, f)
    ensures IsForm(f) && Classify(s) == EntryOf(f)
  {
    if IsDeclaration(f) && s == Heading(f, ";") && Normalise(s) == s {
      FunctionEntry(f);
    } else if IsDefinitionOf(s, f) {
      DefinitionEntry(s, f);
    } else {
      InlineDeclarationEntry(f);
    }
  }

  /** For whole headers: a function that goes away is reported exactly when the gate saw it
      and nothing else answers its name as before. A function the gate does not see can be
      removed without a trace. */
  lemma FunctionRemovalIsReported(u: string, v: string, a: seq<string>, s: string, b: seq<string>, f: Form)
    requires IsBlockOf(s, f)
    requires Reflow.Normals(Cleaned(u)) == a + ([s] + b) && Reflow.Normals(Cleaned(v)) == a + b
    ensures Accepts(SurfaceOf(u), SurfaceOf(v))
       <==> !Entered(f) || SameAnswer(SurfaceOf(u), SurfaceOf(v), Function, f.name)
    ensures !Entered(f) ==> SurfaceOf(u) == SurfaceOf(v)
    ensures f.name !in SurfaceOf(v).functions ==> (Accepts(SurfaceOf(u), SurfaceOf(v)) <==> !Entered(f))
  {
    BlockEntry(s, f);
    RemovedBlock(a, s, b);
    BlocksAround(a, s, b);
    if Entered(f) { EntryStandsOrOverridden(SurfaceOfBlocks(EMPTY, a), EntryOf(f).value, SurfaceOfBlocks(EMPTY, b)); }
  }

  lemma EntryStandsOrOverridden(sa: AbiSurface, e: Entry, sb: AbiSurface)
    ensures e.name in TableOf(Merge(Record(sa, Some(e)), sb), e.kind)
  {
    RecordOf(sa, e);
    MergeOf(Record(sa, Some(e)), sb, e.kind);
  }

  /** Whatever else changed: a seen function whose name the new header does not answer is
      reported. */
  lemma LostFunctionIsReported(u: string, v: string, a: seq<string>, s: string, b: seq<string>, f: Form)
    requires IsBlockOf(s, f) && Reflow.Normals(Cleaned(u)) == a + ([s] + b)
    requires Entered(f) && f.name !in SurfaceOf(v).functions
    ensures !Accepts(SurfaceOf(u), SurfaceOf(v))
  {
    BlockEntry(s, f);
    BlocksAround(a, s, b);
    EntryStandsOrOverridden(SurfaceOfBlocks(EMPTY, a), EntryOf(f).value, SurfaceOfBlocks(EMPTY, b));
    if Accepts(SurfaceOf(u), SurfaceOf(v)) { AcceptedKeeps(SurfaceOf(u), SurfaceOf(v), Function, f.name); }
  }

  /** What the blocks `a` and then the declaration answer for its name. */
  function Answer(a: seq<string>, f: Form): Option<string>
    requires f.ret != []
  {
    if Entered(f) then Some(SignatureOf(f.ret, f.name, f.params))
    else
      var t := SurfaceOfBlocks(EMPTY, a).functions;
      if f.name in t then Some(t[f.name]) else None
  }

  lemma AnswerStands(a: seq<string>, s: string, b: seq<string>, f: Form)
    requires f.ret != [] && Classify(s) == EntryOf(f) && f.name !in SurfaceOfBlocks(EMPTY, b).functions
    ensures var t := SurfaceOfBlocks(EMPTY, a + ([s] + b)).functions;
            (f.name in t <==> Answer(a, f).Some?) && (f.name in t ==> Some(t[f.name]) == Answer(a, f))
  {
    BlocksAround(a, s, b);
    MergeOf(Record(SurfaceOfBlocks(EMPTY, a), Classify(s)), SurfaceOfBlocks(EMPTY, b), Function);
  }

  lemma RewrittenAnswer(a: seq<string>, s: string, t: string, b: seq<string>, f: Form, g: Form)
    requires f.ret != [] && g.ret != [] && Classify(s) == EntryOf(f) && Classify(t) == EntryOf(g) && f.name == g.name
    requires f.name !in SurfaceOfBlocks(EMPTY, b).functions
    ensures Accepts(SurfaceOfBlocks(EMPTY, a + ([s] + b)), SurfaceOfBlocks(EMPTY, a + ([t] + b)))
       <==> Answer(a, f).None? || Answer(a, f) == Answer(a, g)
  {
    RewrittenBlock(a, s, t, b);
    AnswerStands(a, s, b, f);
    AnswerStands(a, t, b, g);
  }

  /** One function declaration rewritten under the same name, in whole headers. The gate
      accepts exactly when the name was not answered before or is answered the same now. */
  lemma FunctionChange(u: string, v: string, a: seq<string>, s: string, t: string, b: seq<string>, f: Form, g: Form)
    requires IsBlockOf(s, f) && IsBlockOf(t, g) && f.name == g.name
    requires Reflow.Normals(Cleaned(u)) == a + ([s] + b) && Reflow.Normals(Cleaned(v)) == a + ([t] + b)
    requires f.name !in SurfaceOfBlocks(EMPTY, b).functions
    ensures f.ret != [] && g.ret != []
    ensures Accepts(SurfaceOf(u), SurfaceOf(v)) <==> Answer(a, f).None? || Answer(a, f) == Answer(a, g)
  {
    BlockEntry(s, f);
    BlockEntry(t, g);
    RewrittenAnswer(a, s, t, b, f, g);
  }

  predicate SameSignature(f: Form, g: Form) {
    Normalise(f.ret) == Normalise(g.ret) && Normalise(f.params) == Normalise(g.params)
  }

  /** The other half of the gate's promise. A seen function that stays seen is accepted
      exactly when neither its return type nor its parameters changed, blanks aside. When the
      name has no other declaration, the gate misses a change exactly when it did not see the
      function to begin with. */
  lemma FunctionChangeIsReported(u: string, v: string, a: seq<string>, s: string, t: string, b: seq<string>, f: Form,
                                 g: Form)
    requires IsBlockOf(s, f) && IsBlockOf(t, g) && f.name == g.name
    requires Reflow.Normals(Cleaned(u)) == a + ([s] + b) && Reflow.Normals(Cleaned(v)) == a + ([t] + b)
    requires f.name !in SurfaceOfBlocks(EMPTY, b).functions
    ensures f.ret != [] && g.ret != []
    ensures Entered(f) && Entered(g) ==> (Accepts(SurfaceOf(u), SurfaceOf(v)) <==> SameSignature(f, g))
    ensures f.name !in SurfaceOfBlocks(EMPTY, a).functions ==>
              (Accepts(SurfaceOf(u), SurfaceOf(v)) <==> !Entered(f) || (Entered(g) && SameSignature(f, g)))
  {
    FunctionChange(u, v, a, s, t, b, f, g);
    BlockEntry(s, f);
    BlockEntry(t, g);
    NormalLacksParen(f.ret);
    NormalLacksParen(g.ret);
    SignatureShowsBoth(f.ret, f.params, g.ret, g.params, f.name);
  }

  // ---- functions of the two headers that go unseen ----

  lemma HeadingIsNormal(f: Form, end: string)
    requires Spaced(f.ret) && (f.gap == "" || f.gap == " ") && IsIdent(f.name) && f.space == ""
    requires Spaced(f.params) && Spaced(")" + (f.suffix + end))
    ensures Normalise(Heading(f, end)) == Heading(f, end)
  {
    var r := f.suffix + end;
    SpacedWord(f.name);
    if f.gap == "" {
      assert f.ret + (f.gap + (f.name + f.space)) == f.ret + f.name;
      SpacedConcat(f.ret, f.name);
    } else {
      assert f.name + f.space == f.name;
      SpacedApart(f.ret, f.name);
    }
    SpacedConcat(f.params, ")" + r);
    SpacedConcat("(", f.params + (")" + r));
    SpacedConcat(Prefix(f), "(" + (f.params + (")" + r)));
    Assoc(f.params, ")", r);
    SpacedIsNormal(Heading(f, end));
  }

  predicate Tidy(s: string) {
    Spaced(s) && Braceless(s) && '(' !in s
  }

  lemma TidyApart(a: string, b: string)
    requires Tidy(a) && Tidy(b)
    ensures Tidy(a + (" " + b))
  {
    SpacedApart(a, b);
    assert Braceless(" " + b) && '(' !in " " + b;
  }

  lemma TidyWord(w: string)
    requires IsIdent(w)
    ensures Tidy(w)
  {
    SpacedWord(w);
  }

  /** A function of the C++ header that returns a type of a namespace. */
  const SESSION_COUNT := Form("std::size_t", " ", "session_count", "", "Router& r", "")

  /** One that is declared not to throw. */
  const ENFORCE_FIRST_AS := Form("bool", " ", "enforce_first_as", "", "Router& r", " noexcept")

  /** A function of the C header that returns a pointer to a structure. */
  const SRV6_SID_NEW := Form("struct" + (" " + ("OpaqueSrv6Sid" + (" " + "*"))), "", "lr_srv6_sid_new", "",
                             "const" + (" " + ("uint8_t" + (" " + "*octets"))), "")

  lemma UnreadableDefinition(ret: string, i: nat, name: string, params: string)
    requires Tidy(ret) && i < |ret| && !InReturnType(ret[i]) && IsIdent(name) && Tidy(params)
    ensures var f := Form(ret, " ", name, "", params, ""); IsDefinition(f) && !Entered(f)
  {
    var f := Form(ret, " ", name, "", params, "");
    assert ")" + ("" + "") == ")";
    HeadingIsNormal(f, "");
  }

  predicate IsSuffix(x: string) {
    Braceless(x) && ')' !in x && ';' !in x && Spaced(")" + x) && !AllSpace(x)
  }

  lemma SuffixedDefinition(ret: string, name: string, params: string, x: string)
    requires Tidy(ret) && IsIdent(name) && Tidy(params) && IsSuffix(x)
    ensures var f := Form(ret, " ", name, "", params, x); IsDefinition(f) && !Entered(f)
  {
    var f, t := Form(ret, " ", name, "", params, x), ")" + x;
    assert x + "" == x && x[|x| - 1] == t[|t| - 1];
    HeadingIsNormal(f, "");
  }

  lemma StructWord(r: string)
    ensures var s := "struct" + (" " + r); s[..WordRun(s)] == "struct"
  {
    WordRunConcat("struct", " " + r);
    assert ("struct" + (" " + r))[..6] == "struct";
  }

  lemma PointerForm(f: Form)
    requires Tidy(f.ret) && f.ret[|f.ret| - 1] == '*' && f.ret[..WordRun(f.ret)] == "struct" && f.ret[0] != '#'
    requires f.gap == "" && IsIdent(f.name) && f.space == "" && Tidy(f.params) && f.suffix == ""
    ensures IsDeclaration(f) && !Entered(f)
  {
  }

  lemma PointerDeclaration(ret: string, name: string, params: string)
    requires Tidy(ret) && ret[|ret| - 1] == '*' && ret[..WordRun(ret)] == "struct" && ret[0] != '#'
    requires IsIdent(name) && Tidy(params)
    ensures var f := Form(ret, "", name, "", params, "");
            IsDeclaration(f) && !Entered(f) && Normalise(Heading(f, ";")) == Heading(f, ";")
  {
    var f := Form(ret, "", name, "", params, "");
    PointerForm(f);
    assert ")" + ("" + ";") == ");";
    HeadingIsNormal(f, ";");
  }

  lemma TidyStd()
    ensures var ret := "std::size_t"; Tidy(ret) && !InReturnType(ret[3])
  {
  }

  lemma TidyRouter()
    ensures Tidy("Router& r")
  {
  }

  lemma NoexceptIsSuffix()
    ensures IsSuffix(" noexcept")
  {
    assert " noexcept"[1] == 'n';
  }

  lemma SessionCountForm()
    ensures IsDefinition(SESSION_COUNT) && !Entered(SESSION_COUNT)
  {
    TidyStd();
    TidyRouter();
    UnreadableDefinition("std::size_t", 3, "session_count", "Router& r");
  }

  lemma EnforceFirstAsForm()
    ensures IsDefinition(ENFORCE_FIRST_AS) && !Entered(ENFORCE_FIRST_AS)
  {
    TidyWord("bool");
    TidyRouter();
    NoexceptIsSuffix();
    SuffixedDefinition("bool", "enforce_first_as", "Router& r", " noexcept");
  }

  lemma TidySid()
    ensures var r := "OpaqueSrv6Sid" + (" " + "*"); Tidy("struct" + (" " + r))
  {
    TidyWord("struct");
    TidyWord("OpaqueSrv6Sid");
    TidyApart("OpaqueSrv6Sid", "*");
    TidyApart("struct", "OpaqueSrv6Sid" + (" " + "*"));
  }

  lemma TidyOctets()
    ensures Tidy("const" + (" " + ("uint8_t" + (" " + "*octets"))))
  {
    TidyWord("const");
    TidyWord("uint8_t");
    TidyApart("uint8_t", "*octets");
    TidyApart("const", "uint8_t" + (" " + "*octets"));
  }

  lemma Srv6SidNewForm()
    ensures IsDeclaration(SRV6_SID_NEW) && !Entered(SRV6_SID_NEW)
    ensures Normalise(Heading(SRV6_SID_NEW, ";")) == Heading(SRV6_SID_NEW, ";")
  {
    TidySid();
    TidyOctets();
    StructWord("OpaqueSrv6Sid" + (" " + "*"));
    PointerDeclaration(SRV6_SID_NEW.ret, SRV6_SID_NEW.name, SRV6_SID_NEW.params);
  }

  /** The gate promises to report removed functions. It does not report these three: every
      header that has one of them loses it without any change of the surface. */
  lemma UnseenFunctions(u: string, v: string, a: seq<string>, s: string, b: seq<string>, w: string, body: string)
    requires AllSpace(w)
    requires s == InlineBlock(SESSION_COUNT, w, body) || s == InlineBlock(ENFORCE_FIRST_AS, w, body)
            || s == Heading(SRV6_SID_NEW, ";")
    requires Reflow.Normals(Cleaned(u)) == a + ([s] + b) && Reflow.Normals(Cleaned(v)) == a + b
    ensures SurfaceOf(u) == SurfaceOf(v) && Accepts(SurfaceOf(u), SurfaceOf(v))
  {
    SessionCountForm();
    EnforceFirstAsForm();
    Srv6SidNewForm();
    if s == InlineBlock(SESSION_COUNT, w, body) {
      FunctionRemovalIsReported(u, v, a, s, b, SESSION_COUNT);
    } else if s == InlineBlock(ENFORCE_FIRST_AS, w, body) {
      FunctionRemovalIsReported(u, v, a, s, b, ENFORCE_FIRST_AS);
    } else {
      FunctionRemovalIsReported(u, v, a, s, b, SRV6_SID_NEW);
    }
  }

  /** Text of one line without slashes or a word that starts with `n`. */
  predicate Simple(s: string) {
    Reflow.Breakless(s) && '/' !in s && Namespaces.NoWordOn('n', s)
  }

  lemma SimpleConcat(a: string, b: string)
    requires Simple(a) && Simple(b)
    ensures Simple(a + b)
  {
  }

  lemma SimpleWord(w: string)
    requires AllWord(w) && (w == [] || w[0] != 'n')
    ensures Simple(w)
  {
  }

  lemma SimpleApart(a: string, b: string)
    requires Simple(a) && Simple(b)
    ensures Simple(a + (" " + b))
  {
    SimpleConcat(" ", b);
    SimpleConcat(a, " " + b);
  }

  lemma SimpleReturn()
    ensures Simple(SRV6_SID_NEW.ret)
  {
    SimpleWord("struct");
    SimpleWord("OpaqueSrv6Sid");
    SimpleApart("OpaqueSrv6Sid", "*");
    SimpleApart("struct", "OpaqueSrv6Sid" + (" " + "*"));
  }

  lemma SimpleParameters()
    ensures Simple(SRV6_SID_NEW.params)
  {
    SimpleWord("const");
    SimpleWord("uint8_t");
    SimpleApart("uint8_t", "*octets");
    SimpleApart("const", "uint8_t" + (" " + "*octets"));
  }

  lemma SimpleHeading(f: Form)
    requires Simple(f.ret) && Simple(f.gap) && Simple(f.name) && Simple(f.space) && Simple(f.params) && Simple(f.suffix)
    ensures Simple(Heading(f, ";")) && Plain(Heading(f, ";"))
  {
    SimpleConcat(f.name, f.space);
    SimpleConcat(f.gap, f.name + f.space);
    SimpleConcat(f.ret, f.gap + (f.name + f.space));
    SimpleConcat(f.suffix, ";");
    SimpleConcat(f.params, ")");
    SimpleConcat(f.params + ")", f.suffix + ";");
    SimpleConcat("(", (f.params + ")") + (f.suffix + ";"));
    SimpleConcat(Prefix(f), "(" + ((f.params + ")") + (f.suffix + ";")));
    SimpleIsClean(Heading(f, ";"));
  }

  /** A header of one declaration. */
  lemma DeclarationIsOneLine(f: Form)
    requires IsDeclaration(f) && BracelessForm(f) && Plain(Heading(f, ";"))
    ensures IsOneLine(Heading(f, ";"))
  {
    HeadingLacks('{', f, ";");
    HeadingLacks('}', f, ";");
    NetBraceless(Heading(f, ";"));
    HeadingCloses(f);
  }

  lemma OneBlockSurface(text: string, s: string)
    requires Reflow.Normals(Cleaned(text)) == [s]
    ensures SurfaceOf(text) == Record(EMPTY, Classify(s))
  {
    assert [s][1..] == [];
  }

  lemma DeclarationHeader(f: Form)
    requires IsDeclaration(f) && BracelessForm(f) && Plain(Heading(f, ";"))
    requires Normalise(Heading(f, ";")) == Heading(f, ";")
    ensures SurfaceOf(Heading(f, ";")) == Record(EMPTY, EntryOf(f))
  {
    DeclarationIsOneLine(f);
    OneLineHeader(Heading(f, ";"));
    FunctionEntry(f);
    OneBlockSurface(Heading(f, ";"), Heading(f, ";"));
  }

  lemma HeadingCloses(f: Form)
    requires IsForm(f)
    ensures var s := Heading(f, ";"); s != [] && s[0] == f.ret[0] && s[|s| - 1] == ';'
  {
    var r := (f.params + ")") + (f.suffix + ";");
    assert r[|r| - 1] == ';';
  }

  /** The header that declares only this function has an empty surface. */
  lemma SidHeaderIsEmpty()
    ensures SurfaceOf(Heading(SRV6_SID_NEW, ";")) == EMPTY
  {
    Srv6SidNewForm();
    SidIsPlain();
    SidIsBraceless();
    DeclarationHeader(SRV6_SID_NEW);
  }

  lemma SidIsPlain()
    ensures Plain(Heading(SRV6_SID_NEW, ";"))
  {
    SimpleReturn();
    SimpleParameters();
    SimpleWord("lr_srv6_sid_new");
    SimpleHeading(SRV6_SID_NEW);
  }

  lemma SidIsBraceless()
    ensures BracelessForm(SRV6_SID_NEW)
  {
    TidySid();
    TidyOctets();
  }
}
