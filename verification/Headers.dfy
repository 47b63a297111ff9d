/** Whole headers written out: what the gate sees of headers whose lines are given. */
module Headers {
  import opened Text
  import opened Braces
  import opened Comments
  import opened Namespaces
  import opened Blocks
  import opened Reflow
  import opened Surface
  import opened Gate
  import opened Promises
  import opened Forms

  // ---- one declaration a line ----

  /** A line of a header: a directive, which starts with `#`, or a declaration or definition that
      ends with `;` or `}` and closes the braces it opens. */
  ghost predicate IsHeaderLine(l: string) {
    && Plain(l) && l != [] && !IsSpace(l[0]) && !IsSpace(l[|l| - 1])
    && (l[0] == '#' || ((l[|l| - 1] == ';' || l[|l| - 1] == '}') && Net(l) == 0))
  }

  ghost predicate AreHeaderLines(ls: seq<string>) {
    forall i :: 0 <= i < |ls| ==> IsHeaderLine(ls[i])
  }

  function HeaderOf(ls: seq<string>): string {
    Join(ls, "\n")
  }

  lemma LineMakes(l: string)
    requires IsHeaderLine(l)
    ensures Made(BLANK, l) == [Normalise(l)] && Moved(BLANK, l) == BLANK
  {
    if l[0] == '#' {
      DirectiveMoves(BLANK, l);
    } else {
      PieceMoves(BLANK, l);
      FirstPiece(l);
    }
  }

  lemma FirstLineMakes(l: string, rest: string)
    requires IsHeaderLine(l)
    ensures MadeBy(BLANK, l + ("\n" + rest)) == [Normalise(l)] + MadeBy(BLANK, rest)
    ensures MovedBy(BLANK, l + ("\n" + rest)) == MovedBy(BLANK, rest)
  {
    LineMakes(l);
    OneLine(BLANK, l, "\n" + rest);
    assert PastBreak("\n" + rest) == rest;
  }

  lemma LastLineMakes(l: string)
    requires IsHeaderLine(l)
    ensures MadeBy(BLANK, l) == [Normalise(l)] && MovedBy(BLANK, l) == BLANK
  {
    LineMakes(l);
    OneLine(BLANK, l, "");
    assert l + "" == l && [Normalise(l)] + [] == [Normalise(l)];
  }

  lemma JoinFirst(ls: seq<string>)
    requires |ls| > 1
    ensures HeaderOf(ls) == ls[0] + ("\n" + HeaderOf(ls[1..]))
  {
    Assoc(ls[0], "\n", HeaderOf(ls[1..]));
  }

  lemma {:induction false} LinesMake(ls: seq<string>)
    requires AreHeaderLines(ls)
    ensures MadeBy(BLANK, HeaderOf(ls)) == NormaliseAll(ls) && MovedBy(BLANK, HeaderOf(ls)) == BLANK
  {
    if |ls| == 1 {
      LastLineMakes(ls[0]);
      assert ls[1..] == [];
      assert [Normalise(ls[0])] + [] == [Normalise(ls[0])];
    } else if |ls| > 1 {
      assert forall i :: 0 <= i < |ls[1..]| ==> ls[1..][i] == ls[i + 1];
      LinesMake(ls[1..]);
      JoinFirst(ls);
      FirstLineMakes(ls[0], HeaderOf(ls[1..]));
    }
  }

  lemma {:induction false} HeaderIsClean(ls: seq<string>)
    requires AreHeaderLines(ls)
    ensures IsClean(HeaderOf(ls))
  {
    if ls == [] {
      SimpleIsClean("");
    } else if |ls| > 1 {
      assert forall i :: 0 <= i < |ls[1..]| ==> ls[1..][i] == ls[i + 1];
      HeaderIsClean(ls[1..]);
      JoinFirst(ls);
      SimpleIsClean("\n");
      CleanConcat("\n", HeaderOf(ls[1..]));
      CleanConcat(ls[0], "\n" + HeaderOf(ls[1..]));
    }
  }

  /** Each line of a header is one block, so the surface records the lines in their order. */
  lemma LinesAreBlocks(ls: seq<string>)
    requires AreHeaderLines(ls)
    ensures Normals(Cleaned(HeaderOf(ls))) == NormaliseAll(ls)
    ensures SurfaceOf(HeaderOf(ls)) == SurfaceOfBlocks(EMPTY, NormaliseAll(ls))
  {
    HeaderIsClean(ls);
    CleanStays(HeaderOf(ls));
    LinesMake(ls);
    assert NormaliseAll(ls) + [] == NormaliseAll(ls);
  }

  // ---- inside a namespace ----

  ghost predicate IsBalancedHeader(ls: seq<string>) {
    AreHeaderLines(ls) && Balanced(HeaderOf(ls))
  }

  /** The lines in a `namespace` wrapper with the given text between the word and its brace. */
  function Wrapped(t: string, ls: seq<string>): string {
    Wrapper("namespace", t, "\n" + (HeaderOf(ls) + "\n"), "")
  }

  lemma BalancedBetweenBreaks(s: string)
    requires Balanced(s)
    ensures Balanced("\n" + (s + "\n"))
  {
    NetBraceless("\n");
    StaysBraceless(0, "\n");
    NetConcat(s, "\n");
    NetConcat("\n", s + "\n");
    StaysConcat(0, s, "\n");
    StaysConcat(0, "\n", s + "\n");
  }

  lemma FreeParts(t: string, x: string)
    requires CommentFree(t) && CommentFree(x)
    ensures CommentFree("namespace" + t) && CommentFree("{" + (x + "}"))
  {
    assert forall k :: 0 <= k < 9 ==> "namespace"[k] != '/';
    forall k ensures !OpensAt("namespace" + t, k) { assert !OpensAt(t, k - 9); }
    assert CommentFree("}") && CommentFree("{");
    CommentFreeConcat(x, "}");
    CommentFreeConcat("{", x + "}");
  }

  lemma WrappedIsFree(t: string, x: string)
    requires CommentFree(t) && CommentFree(x)
    ensures CommentFree(Wrapper("namespace", t, x, ""))
  {
    FreeParts(t, x);
    assert "}" + "" == "}";
    CommentFreeConcat("namespace" + t, "{" + (x + "}"));
  }

  lemma CleanedWrapped(t: string, x: string)
    requires '{' !in t && CommentFree(t) && CommentFree(x) && Balanced(x)
    ensures Cleaned(Wrapper("namespace", t, x, "")) == Blanks(9 + |t| + 1) + (x + "\n")
  {
    WrappedIsFree(t, x);
    StrippedOfCommentFree(Wrapper("namespace", t, x, ""));
    WrapperAtStart(t, x, "");
    assert "\n" + "" == "\n";
  }

  lemma BlankLine(v: View, w: string, rest: string)
    requires AllSpace(w) && Breakless(w)
    ensures MadeBy(v, w + ("\n" + rest)) == MadeBy(v, rest) && MovedBy(v, w + ("\n" + rest)) == MovedBy(v, rest)
  {
    RStripFacts(w);
    OneLine(v, w, "\n" + rest);
    assert PastBreak("\n" + rest) == rest;
    assert [] + MadeBy(v, rest) == MadeBy(v, rest);
  }

  lemma {:induction false} LinesMakeMore(ls: seq<string>, rest: string)
    requires AreHeaderLines(ls) && ls != []
    ensures MadeBy(BLANK, HeaderOf(ls) + ("\n" + rest)) == NormaliseAll(ls) + MadeBy(BLANK, rest)
    ensures MovedBy(BLANK, HeaderOf(ls) + ("\n" + rest)) == MovedBy(BLANK, rest)
    decreases ls
  {
    FirstLineMakes(ls[0], rest);
    if |ls| == 1 {
      assert ls[1..] == [];
      assert NormaliseAll(ls) == [Normalise(ls[0])];
    } else {
      assert forall i :: 0 <= i < |ls[1..]| ==> ls[1..][i] == ls[i + 1];
      LinesMakeMore(ls[1..], rest);
      JoinFirst(ls);
      Assoc("\n", HeaderOf(ls[1..]), "\n" + rest);
      Assoc(ls[0], "\n" + HeaderOf(ls[1..]), "\n" + rest);
      FirstLineMakes(ls[0], HeaderOf(ls[1..]) + ("\n" + rest));
      Assoc([Normalise(ls[0])], NormaliseAll(ls[1..]), MadeBy(BLANK, rest));
    }
  }

  lemma WrappedNormals(w: string, ls: seq<string>)
    requires AllSpace(w) && Breakless(w) && AreHeaderLines(ls) && ls != []
    ensures Normals(w + (("\n" + (HeaderOf(ls) + "\n")) + "\n")) == NormaliseAll(ls)
  {
    var h := HeaderOf(ls);
    Assoc("\n", h + "\n", "\n");
    Assoc(h, "\n", "\n");
    BlankLine(BLANK, w, h + ("\n" + "\n"));
    LinesMakeMore(ls, "\n");
    assert PastBreak("\n") == "";
    EmptyLine(BLANK, "\n");
    assert NormaliseAll(ls) + [] == NormaliseAll(ls);
  }

  /** Declarations inside a `namespace` have the entries they have outside. */
  lemma NamespaceIsTransparent(t: string, ls: seq<string>)
    requires '{' !in t && CommentFree(t) && IsBalancedHeader(ls) && ls != []
    ensures SurfaceOf(Wrapped(t, ls)) == SurfaceOf(HeaderOf(ls)) == SurfaceOfBlocks(EMPTY, NormaliseAll(ls))
  {
    var x := "\n" + (HeaderOf(ls) + "\n");
    HeaderIsClean(ls);
    SimpleIsClean("\n");
    CommentFreeConcat(HeaderOf(ls), "\n");
    CommentFreeConcat("\n", HeaderOf(ls) + "\n");
    BalancedBetweenBreaks(HeaderOf(ls));
    CleanedWrapped(t, x);
    WrappedNormals(Blanks(9 + |t| + 1), ls);
    LinesAreBlocks(ls);
  }

  // ---- one entry of each kind ----

  lemma OneLineSurface(l: string)
    requires IsHeaderLine(l) && Normalise(l) == l
    ensures SurfaceOf(l) == Record(EMPTY, Classify(l))
  {
    LinesAreBlocks([l]);
    assert HeaderOf([l]) == l;
    assert [l][1..] == [];
    assert NormaliseAll([l]) == [l] && [l] + [] == [l];
  }

  lemma RecordOne(name: string, sig: string)
    ensures Record(EMPTY, Some(Entry(Define, name, sig))) == AbiSurface(map[name := sig], map[], map[], map[])
    ensures Record(EMPTY, Some(Entry(Typedef, name, sig))) == AbiSurface(map[], map[name := sig], map[], map[])
    ensures Record(EMPTY, Some(Entry(Aggregate, name, sig))) == AbiSurface(map[], map[], map[name := sig], map[])
    ensures Record(EMPTY, Some(Entry(Function, name, sig))) == AbiSurface(map[], map[], map[], map[name := sig])
  {
  }

  lemma LineSurface(l: string, e: Entry)
    requires IsHeaderLine(l) && Normalise(l) == l && Classify(l) == Some(e)
    ensures SurfaceOf(l) == Record(EMPTY, Some(e))
  {
    OneLineSurface(l);
  }

  /** A header that defines one constant has that constant and nothing else. */
  lemma ConstantHeader(name: string, value: string)
    requires IsIdent(name) && Normalise(value) == value && (value == [] || !IsSpace(value[0]))
    requires var l := "#define" + (" " + (name + (" " + value))); IsHeaderLine(l) && Normalise(l) == l
    ensures SurfaceOf("#define" + (" " + (name + (" " + value)))) == AbiSurface(map[name := value], map[], map[], map[])
  {
    DefineEntry(name, value);
    LineSurface("#define" + (" " + (name + (" " + value))), Entry(Define, name, value));
    RecordOne(name, value);
  }

  /** A header of one alias has that alias and nothing else. */
  lemma AliasHeader(t: string, alias: string)
    requires t != [] && !IsSpace(t[0]) && !IsWord(t[|t| - 1]) && IsIdent(alias)
    requires var l := "typedef" + (" " + (t + (alias + ";"))); IsHeaderLine(l) && Normalise(l) == l
    ensures var l := "typedef" + (" " + (t + (alias + ";")));
            SurfaceOf(l) == AbiSurface(map[], map[alias := l], map[], map[])
  {
    var l := "typedef" + (" " + (t + (alias + ";")));
    TypedefEntry(t, alias);
    LineSurface(l, Entry(Typedef, alias, l));
    RecordOne(alias, l);
  }

  /** An aggregate in any layout: keyword, blanks, tag, what stands before the brace, the body
      and what ends it. */
  function AggregateText(kw: string, w: string, tag: string, mid: string, body: string, end: string): string {
    Definition(kw + (w + (tag + mid)), body) + end
  }

  predicate IsAggregateText(kw: string, w: string, tag: string, mid: string, body: string, end: string) {
    && IsAggregateKeyword(kw) && w != [] && AllSpace(w) && IsIdent(tag)
    && (kw == "enum" ==> tag != "class" && tag != "struct")
    && AfterTag(mid) && '}' !in mid && ';' !in mid && Balanced(body) && (end == "" || end == ";")
    && NoDirective(AggregateText(kw, w, tag, mid, body, end))
  }

  /** What stands between the tag and the brace in normal form. */
  function NormalMid(mid: string): string {
    Written(Ink, mid) + Owed(After(Ink, mid))
  }

  lemma NormalMidAfterTag(mid: string)
    requires AfterTag(mid) && Braceless(mid)
    ensures AfterTag(NormalMid(mid))
  {
    WrittenBraceless(Ink, mid);
    if mid != [] && IsSpace(mid[0]) {
      assert Written(Ink, mid) == "" + Written(Gap, mid[1..]);
      GapLeads(mid[1..]);
    }
  }

  lemma {:induction false} GapLeads(s: string)
    ensures var r := Written(Gap, s) + Owed(After(Gap, s)); r != [] && r[0] == ' '
  {
    if s != [] && IsSpace(s[0]) { GapLeads(s[1..]); }
  }

  lemma NormalAggregateHead(kw: string, w: string, tag: string, mid: string)
    requires AllWord(kw) && kw != [] && w != [] && AllSpace(w) && IsIdent(tag)
    ensures NormalHead(kw + (w + (tag + mid))) == kw + (" " + (tag + NormalMid(mid)))
  {
    WrittenConcat(Start, kw, w + (tag + mid));
    WrittenWord(kw, Start);
    WrittenConcat(Ink, w, tag + mid);
    WrittenBlank(Ink, w);
    WrittenAfterGap(tag + mid);
    WrittenConcat(Start, tag, mid);
    WrittenWord(tag, Start);
    WrittenConcat(Gap, tag, mid);
    AfterInk(Gap, tag);
    HeadTail(kw, tag, Written(Ink, mid), Owed(After(Ink, mid)));
  }

  lemma HeadTail(kw: string, tag: string, x: string, y: string)
    ensures (kw + ("" + (" " + (tag + x)))) + y == kw + (" " + (tag + (x + y)))
  {
    assert "" + (" " + (tag + x)) == " " + (tag + x);
    Assoc(tag, x, y);
    Assoc(" ", tag + x, y);
    Assoc(kw, " " + (tag + x), y);
  }

  lemma AggregateHeadIsBraceless(kw: string, w: string, tag: string, mid: string)
    requires IsAggregateKeyword(kw) && AllSpace(w) && IsIdent(tag) && AfterTag(mid) && '}' !in mid && ';' !in mid
    ensures var h := kw + (w + (tag + mid)); Braceless(h) && ';' !in h
  {
    KeywordIsAllWord(kw);
    assert Braceless(tag + mid) && ';' !in tag + mid;
    assert Braceless(w + (tag + mid)) && ';' !in w + (tag + mid);
  }

  lemma NormalEnd(t: string, end: string)
    requires t != [] && !IsSpace(t[|t| - 1]) && (end == "" || end == ";")
    ensures Normalise(t + end) == Normalise(t) + end
  {
    NormaliseIsWritten(t);
    NormaliseIsWritten(t + end);
    WrittenConcat(Start, t, end);
    AfterInk(Start, t);
    if end == ";" { assert ";"[1..] == ""; }
  }

  lemma AggregateClassified(kw: string, w: string, tag: string, mid: string, body: string, end: string)
    requires IsAggregateText(kw, w, tag, mid, body, end)
    ensures var s := Normalise(AggregateText(kw, w, tag, mid, body, end));
            Classify(s) == Some(Entry(Aggregate, kw + " " + tag, s))
  {
    var h := kw + (w + (tag + mid));
    AggregateHeadIsBraceless(kw, w, tag, mid);
    KeywordIsAllWord(kw);
    var r := NormalDefinition(h, body);
    NormalAggregateHead(kw, w, tag, mid);
    NormalEnd(Definition(h, body), end);
    Assoc("{", r, end);
    Assoc(NormalHead(h), "{" + r, end);
    NormalMidAfterTag(mid);
    AggregateEntry(kw, tag, NormalMid(mid), r + end);
  }

  lemma AggregateShape(kw: string, w: string, tag: string, mid: string, body: string, end: string)
    requires IsAggregateText(kw, w, tag, mid, body, end)
    ensures var s := AggregateText(kw, w, tag, mid, body, end); Terminal(s) && Net(s) == 0 && Quiet(0, true, s)
  {
    var h := kw + (w + (tag + mid));
    AggregateHeadIsBraceless(kw, w, tag, mid);
    DefinitionShape(h, body);
    NetConcat(Definition(h, body), end);
    NetBraceless(end);
    QuietConcat(0, true, Definition(h, body), end);
    if end == ";" { assert ";"[1..] == ""; }
  }

  lemma OneChunk(s: string)
    requires IsClean(s) && Terminal(s) && Net(s) == 0 && Quiet(0, true, s) && NoDirective(s)
    ensures Normals(Cleaned(s)) == [Normalise(s)]
  {
    CleanStays(s);
    ChunkMakesOneBlock(BLANK, true, s, "");
    NormaliseIsWritten(s);
    assert s + "" == s && "" + Written(Start, s) == Written(Start, s);
    assert [Normalise(s)] + [] == [Normalise(s)];
  }

  /** A header of one structure, union, class or enumeration has that entry and nothing else,
      however it is laid out. */
  lemma AggregateHeader(kw: string, w: string, tag: string, mid: string, body: string, end: string)
    requires IsAggregateText(kw, w, tag, mid, body, end) && IsClean(AggregateText(kw, w, tag, mid, body, end))
    ensures var s := AggregateText(kw, w, tag, mid, body, end);
            SurfaceOf(s) == AbiSurface(map[], map[], map[kw + " " + tag := Normalise(s)], map[])
  {
    var s := AggregateText(kw, w, tag, mid, body, end);
    AggregateShape(kw, w, tag, mid, body, end);
    OneChunk(s);
    AggregateClassified(kw, w, tag, mid, body, end);
    OneBlockSurface(s, Normalise(s));
    RecordOne(kw + " " + tag, Normalise(s));
  }

  /** Two such headers of one tag: the gate accepts exactly when they are the same but for blanks. */
  lemma AggregateHeaderEdit(kw: string, tag: string, w: string, mid: string, body: string, end: string,
                            w2: string, mid2: string, body2: string, end2: string)
    requires IsAggregateText(kw, w, tag, mid, body, end) && IsClean(AggregateText(kw, w, tag, mid, body, end))
    requires IsAggregateText(kw, w2, tag, mid2, body2, end2) && IsClean(AggregateText(kw, w2, tag, mid2, body2, end2))
    ensures var s, t := AggregateText(kw, w, tag, mid, body, end), AggregateText(kw, w2, tag, mid2, body2, end2);
            Accepts(SurfaceOf(s), SurfaceOf(t)) <==> Normalise(s) == Normalise(t)
  {
    var s, t := AggregateText(kw, w, tag, mid, body, end), AggregateText(kw, w2, tag, mid2, body2, end2);
    AggregateHeader(kw, w, tag, mid, body, end);
    AggregateHeader(kw, w2, tag, mid2, body2, end2);
    OneEntry(kw + " " + tag, Normalise(s), Normalise(t));
  }

  lemma OneEntry(key: string, x: string, y: string)
    ensures Accepts(AbiSurface(map[], map[], map[key := x], map[]), AbiSurface(map[], map[], map[key := y], map[]))
       <==> x == y
  {
    assert key in map[key := x] && map[key := x][key] == x && map[key := y][key] == y;
    assert map[key := x] != map[];
  }

  /** A tidy declaration the gate sees. */
  predicate IsSeen(f: Form) {
    && Tidy(f.ret) && Readable(f.ret) && f.ret[..WordRun(f.ret)] != "inline" && IsIdent(f.name)
    && (f.gap == " " || (f.gap == "" && f.ret[|f.ret| - 1] == '*')) && f.space == "" && f.suffix == ""
    && Tidy(f.params) && ';' !in f.params
  }

  lemma SeenForm(f: Form)
    requires IsSeen(f)
    ensures IsDeclaration(f) && Entered(f) && BracelessForm(f)
  {
  }

  lemma SeenIsNormal(f: Form)
    requires IsSeen(f)
    ensures Normalise(Heading(f, ";")) == Heading(f, ";")
  {
    assert ")" + ("" + ";") == ");";
    HeadingIsNormal(f, ";");
  }

  lemma SeenEntry(f: Form)
    requires IsSeen(f)
    ensures f.ret != [] && EntryOf(f) == Some(Entry(Function, f.name, f.ret + " " + f.name + "(" + f.params + ");"))
  {
    SeenForm(f);
    SpacedIsNormal(f.ret);
    SpacedIsNormal(f.params);
  }

  /** A header of one function has that function and nothing else: return type, name and
      parameters. */
  lemma FunctionHeader(f: Form)
    requires IsSeen(f) && Plain(Heading(f, ";"))
    ensures SurfaceOf(Heading(f, ";"))
         == AbiSurface(map[], map[], map[], map[f.name := f.ret + " " + f.name + "(" + f.params + ");"])
  {
    SeenForm(f);
    SeenIsNormal(f);
    SeenEntry(f);
    DeclarationHeader(f);
    RecordOne(f.name, f.ret + " " + f.name + "(" + f.params + ");");
  }

  // ---- a function of the C header that returns a pointer ----

  const CHAR_POINTER := "const" + (" " + ("char" + (" " + "*")))

  const TYPE_NAME := Form(CHAR_POINTER, "", "lr_bgp_message_type_name", "", "uint8_t v", "")

  lemma CharPointer()
    ensures Tidy(CHAR_POINTER) && CHAR_POINTER[|CHAR_POINTER| - 1] == '*'
  {
    TidyWord("const");
    TidyWord("char");
    TidyApart("char", "*");
    TidyApart("const", "char" + (" " + "*"));
  }

  lemma ReadableWords(a: string, b: string)
    requires IsIdent(a) && !IsKindKeyword(a) && a != "inline" && forall i :: 0 <= i < |b| ==> InReturn(b[i])
    ensures var r := a + (" " + b); Readable(r) && r[..WordRun(r)] != "inline"
  {
    WordRunConcat(a, " " + b);
    assert (a + (" " + b))[..|a|] == a;
  }

  lemma CharPointerIsReadable()
    ensures Readable(CHAR_POINTER) && CHAR_POINTER[..WordRun(CHAR_POINTER)] != "inline"
  {
    assert "const"[0] == 'c' && "const"[1] == 'o';
    ReadableWords("const", "char" + (" " + "*"));
  }

  lemma SimpleParts()
    ensures Simple(CHAR_POINTER) && Simple("uint8_t v")
  {
    SimpleWord("const");
    SimpleWord("char");
    SimpleApart("char", "*");
    SimpleApart("const", "char" + (" " + "*"));
    SimpleWord("uint8_t");
    SimpleWord("v");
    SimpleApart("uint8_t", "v");
    assert "uint8_t" + (" " + "v") == "uint8_t v";
  }

  lemma TypeNameIsPlain()
    ensures Plain(Heading(TYPE_NAME, ";"))
  {
    SimpleParts();
    SimpleWord("lr_bgp_message_type_name");
    SimpleHeading(TYPE_NAME);
  }

  lemma TypeNameParameter()
    ensures Tidy("uint8_t v") && ';' !in "uint8_t v"
  {
  }

  /** The header with only this declaration has exactly its entry. */
  lemma TypeNameHeader()
    ensures SurfaceOf(Heading(TYPE_NAME, ";"))
         == AbiSurface(map[], map[], map[],
                       map["lr_bgp_message_type_name" :=
                           CHAR_POINTER + " " + "lr_bgp_message_type_name" + "(" + "uint8_t v" + ");"])
  {
    TypeNameIsSeen();
    TypeNameIsPlain();
    FunctionHeader(TYPE_NAME);
  }

  lemma PointerIsSeen(ret: string, name: string, params: string)
    requires Tidy(ret) && Readable(ret) && ret[..WordRun(ret)] != "inline" && IsIdent(name) && ret[|ret| - 1] == '*'
    requires Tidy(params) && ';' !in params
    ensures IsSeen(Form(ret, "", name, "", params, ""))
  {
  }

  lemma TypeNameIsSeen()
    ensures IsSeen(TYPE_NAME)
  {
    CharPointer();
    CharPointerIsReadable();
    TypeNameParameter();
    TypeNameIsIdent();
    PointerIsSeen(CHAR_POINTER, "lr_bgp_message_type_name", "uint8_t v");
  }

  lemma TypeNameIsIdent()
    ensures IsIdent("lr_bgp_message_type_name")
  {
  }

  // ---- lines that are no block of their own ----

  /** A line without breaks that starts and ends with ink and is no directive. */
  predicate IsPiece(l: string) {
    Breakless(l) && l != [] && !IsSpace(l[0]) && !IsSpace(l[|l| - 1]) && l[0] != '#'
  }

  predicate IsDirectiveLine(d: string) {
    Breakless(d) && d != [] && d[0] == '#' && !IsSpace(d[|d| - 1])
  }

  lemma PieceMoves(v: View, l: string)
    requires IsPiece(l)
    ensures if v.depth + Net(l) == 0 && (l[|l| - 1] == ';' || l[|l| - 1] == '}')
            then Made(v, l) == [Append(v, l).ink] && Moved(v, l) == BLANK
            else Made(v, l) == [] && Moved(v, l) == Append(v, l)
  {
    assert RStrip(l) == l;
    PlainLine(v, l, l);
  }

  lemma FirstPiece(l: string)
    requires IsPiece(l)
    ensures Append(BLANK, l) == View(false, Normalise(l), Ink, Net(l))
  {
    NormaliseIsWritten(l);
    AfterInk(Start, l);
    assert "" + Written(Start, l) == Written(Start, l);
  }

  lemma TwoPieces(l: string, r: string)
    requires IsPiece(l) && r != []
    ensures Append(Append(BLANK, l), r).ink == Normalise(l + (" " + r))
    ensures Append(Append(BLANK, l), r).depth == Net(l) + Net(r)
  {
    assert RStrip(l) == l;
    AppendSplit(BLANK, l, ' ', r);
    NormaliseIsWritten(l + (" " + r));
    assert "" + Written(Start, l + (" " + r)) == Written(Start, l + (" " + r));
  }

  lemma LineThen(v: View, l: string, rest: string)
    requires Breakless(l)
    ensures MadeBy(v, l + ("\n" + rest)) == Made(v, l) + MadeBy(Moved(v, l), rest)
    ensures MovedBy(v, l + ("\n" + rest)) == MovedBy(Moved(v, l), rest)
  {
    OneLine(v, l, "\n" + rest);
    assert PastBreak("\n" + rest) == rest;
  }

  lemma LineEnds(v: View, l: string)
    requires Breakless(l)
    ensures MadeBy(v, l) == Made(v, l) && MovedBy(v, l) == Moved(v, l)
  {
    OneLine(v, l, "");
    assert l + "" == l && Made(v, l) + [] == Made(v, l);
  }

  /** What is left at the end is a block, finished or not. */
  lemma LeftoverIsBlock(l: string)
    requires IsPiece(l)
    ensures Normals(l) == [Normalise(l)]
  {
    PieceMoves(BLANK, l);
    FirstPiece(l);
    LineEnds(BLANK, l);
    assert [] + [Normalise(l)] == [Normalise(l)] && [Normalise(l)] + [] == [Normalise(l)];
  }

  /** The last line of a text completes the pending block, or is left over with it. */
  lemma LastPiece(v: View, r: string)
    requires IsPiece(r)
    ensures MadeBy(v, r) + Last(MovedBy(v, r)) == [Append(v, r).ink]
  {
    PieceMoves(v, r);
    LineEnds(v, r);
  }

  /** A line that does not end a block is joined with the next one by a space. */
  lemma LinesJoin(l: string, r: string)
    requires IsPiece(l) && IsPiece(r) && !(Net(l) == 0 && (l[|l| - 1] == ';' || l[|l| - 1] == '}'))
    ensures Normals(l + ("\n" + r)) == [Normalise(l + (" " + r))]
  {
    PieceMoves(BLANK, l);
    UnfinishedThen(BLANK, l, r);
    LastPiece(Append(BLANK, l), r);
    TwoPieces(l, r);
  }

  lemma DirectiveThen(v: View, d: string, rest: string)
    requires IsDirectiveLine(d)
    ensures MadeBy(v, d + ("\n" + rest)) == (if v.depth == 0 && !v.empty then [v.ink, Normalise(d)] else [Normalise(d)])
                                           + MadeBy(if v.depth == 0 then BLANK else v, rest)
    ensures MovedBy(v, d + ("\n" + rest)) == MovedBy(if v.depth == 0 then BLANK else v, rest)
  {
    LineThen(v, d, rest);
    DirectiveMoves(v, d);
  }

  lemma DirectiveMoves(v: View, d: string)
    requires IsDirectiveLine(d)
    ensures Made(v, d) == if v.depth == 0 && !v.empty then [v.ink, Normalise(d)] else [Normalise(d)]
    ensures Moved(v, d) == if v.depth == 0 then BLANK else v
  {
    assert RStrip(d) == d;
    assert [v.ink] + [Normalise(d)] == [v.ink, Normalise(d)] && [] + [Normalise(d)] == [Normalise(d)];
  }

  lemma UnfinishedThen(v: View, l: string, rest: string)
    requires Breakless(l) && Made(v, l) == []
    ensures MadeBy(v, l + ("\n" + rest)) == MadeBy(Moved(v, l), rest)
    ensures MovedBy(v, l + ("\n" + rest)) == MovedBy(Moved(v, l), rest)
  {
    LineThen(v, l, rest);
    NothingBefore(MadeBy(v, l + ("\n" + rest)), Made(v, l), MadeBy(Moved(v, l), rest));
  }

  lemma NothingBefore(a: seq<string>, b: seq<string>, c: seq<string>)
    requires a == b + c && b == []
    ensures a == c
  {
  }

  lemma PieceThen(l: string, rest: string)
    requires IsPiece(l) && !(Net(l) == 0 && (l[|l| - 1] == ';' || l[|l| - 1] == '}'))
    ensures var v := View(false, Normalise(l), Ink, Net(l));
            MadeBy(BLANK, l + ("\n" + rest)) == MadeBy(v, rest) && MovedBy(BLANK, l + ("\n" + rest)) == MovedBy(v, rest)
  {
    FirstPiece(l);
    PieceMoves(BLANK, l);
    UnfinishedThen(BLANK, l, rest);
  }

  lemma PendingPiece(l: string, r: string, v: View)
    requires IsPiece(l) && IsPiece(r) && v == View(false, Normalise(l), Ink, Net(l))
    ensures MadeBy(v, r) + Last(MovedBy(v, r)) == [Normalise(l + (" " + r))]
  {
    LastPiece(v, r);
    FirstPiece(l);
    TwoPieces(l, r);
  }

  /** A directive ends a declaration that is pending outside braces. */
  lemma DirectiveFlushes(l: string, d: string, rest: string)
    requires IsPiece(l) && IsDirectiveLine(d) && Net(l) == 0 && l[|l| - 1] != ';' && l[|l| - 1] != '}'
    ensures Normals(l + ("\n" + (d + ("\n" + rest)))) == [Normalise(l), Normalise(d)] + Normals(rest)
  {
    PieceThen(l, d + ("\n" + rest));
    DirectiveThen(View(false, Normalise(l), Ink, Net(l)), d, rest);
    Assoc([Normalise(l), Normalise(d)], MadeBy(BLANK, rest), Last(MovedBy(BLANK, rest)));
  }

  /** Between braces it stands for itself, and the declaration goes on behind it. */
  lemma DirectiveInBraces(l: string, d: string, r: string)
    requires IsPiece(l) && IsDirectiveLine(d) && IsPiece(r) && Net(l) > 0
    ensures Normals(l + ("\n" + (d + ("\n" + r)))) == [Normalise(d)] + [Normalise(l + (" " + r))]
  {
    var v := View(false, Normalise(l), Ink, Net(l));
    PieceThen(l, d + ("\n" + r));
    DirectiveThen(v, d, r);
    PendingPiece(l, r, v);
    Assoc([Normalise(d)], MadeBy(v, r), Last(MovedBy(v, r)));
  }
}
