/** What the freeze gate promises about whole headers: comments, layout and inline bodies do
    not matter, and additions pass. */
module Promises {
  import opened Text
  import opened Braces
  import opened Comments
  import opened Namespaces
  import opened Blocks
  import opened Reflow
  import opened Surface
  import opened Gate

  // ---- comments ----

  lemma SpareBlank(u: string, x: string, w: char, y: string)
    requires u == x + ([w] + y) && Spare(w, y)
    ensures Normals(u) == Normals(x + y)
  {
    LineStartSplits(x);
    var p, l := x[..LineStart(x)], x[LineStart(x)..];
    assert x == p + l;
    SpareKeepsBlocks(p, l, w, y);
    Assoc(p, l, [w] + y);
    Assoc(p, l, y);
  }

  predicate SparePair(w: char, c: char) {
    (w == ' ' && c == ' ') || (w == ' ' && c == '\n') || (w == '\n' && c == '\n')
  }

  lemma SpareNormals(u: string, v: string, x: string, y: string, w: char, c: char)
    requires OneMoreAt(u, v, x, y, w, c) && SparePair(w, c)
    ensures Normals(u) == Normals(v)
  {
    if u == x + ([w] + ([c] + y)) && v == x + ([c] + y) {
      SpareBlank(u, x, w, [c] + y);
    } else {
      SpareBlank(u, x, ' ', " " + y);
    }
  }

  lemma StrippedBlank(c: char, b: string)
    requires c != '/'
    ensures Stripped([c] + b) == [c] + Stripped(b)
  {
    assert ([c] + b)[1..] == b;
  }

  lemma CleanedOneMore(a: string, w: char, c: char, b: string) returns (x: string, y: string)
    requires Ends(Code, a) == Code && SparePair(w, c)
    ensures OneMoreAt(Cleaned(a + ([w] + ([c] + b))), Cleaned(a + ([c] + b)), x, y, w, c)
  {
    StrippedAround(a, w, [c] + b);
    StrippedBlank(c, b);
    StrippedAround(a, c, b);
    x, y := UnwrapOneMore(KEYWORD, 0, true, Stripped(a), w, c, Stripped(b));
  }

  /** A space before a space or a newline, or a second newline, can be taken out anywhere
      outside comments. */
  lemma SpareBlankKeepsSurface(a: string, w: char, c: char, b: string)
    requires Ends(Code, a) == Code && SparePair(w, c)
    ensures SurfaceOf(a + ([w] + ([c] + b))) == SurfaceOf(a + ([c] + b))
  {
    var x, y := CleanedOneMore(a, w, c, b);
    SpareNormals(Cleaned(a + ([w] + ([c] + b))), Cleaned(a + ([c] + b)), x, y, w, c);
  }

  /** Rewriting any block comment, or replacing it by a space, keeps the surface. */
  lemma BlockCommentEdit(a: string, x: string, y: string, b: string)
    requires Ends(Code, a) == Code && Find(x, "*/").None? && Find(y, "*/").None?
    ensures SurfaceOf(a + ("/*" + x + "*/" + b)) == SurfaceOf(a + ("/*" + y + "*/" + b)) == SurfaceOf(a + (" " + b))
  {
    BlockCommentIsSpace(a, x, b);
    BlockCommentIsSpace(a, y, b);
  }

  /** So does rewriting any line comment or removing it. */
  lemma LineCommentEdit(a: string, x: string, y: string, b: string)
    requires Ends(Code, a) == Code && '\n' !in x && '\n' !in y
    ensures SurfaceOf(a + ("//" + x + "\n" + b)) == SurfaceOf(a + ("//" + y + "\n" + b)) == SurfaceOf(a + ("\n" + b))
    ensures SurfaceOf(a + ("//" + x)) == SurfaceOf(a)
  {
    LineCommentIsNewline(a, x, b);
    LineCommentIsNewline(a, y, b);
    SpareBlankKeepsSurface(a, '\n', '\n', b);
    LastLineComment(a, x);
  }

  /** A block comment beside a space, or at the end of a line, can also be removed. */
  lemma BlockCommentRemoval(a: string, x: string, b: string)
    requires Ends(Code, a) == Code && Find(x, "*/").None?
    ensures SurfaceOf(a + ("/*" + x + "*/" + (" " + b))) == SurfaceOf(a + (" " + b))
    ensures SurfaceOf(a + ("/*" + x + "*/" + ("\n" + b))) == SurfaceOf(a + ("\n" + b))
    ensures SurfaceOf((a + " ") + ("/*" + x + "*/" + b)) == SurfaceOf(a + (" " + b))
  {
    BlockCommentIsSpace(a, x, " " + b);
    BlockCommentIsSpace(a, x, "\n" + b);
    SpareBlankKeepsSurface(a, ' ', ' ', b);
    SpareBlankKeepsSurface(a, ' ', '\n', b);
    ScanConcat(Code, a, " ");
    assert " "[1..] == "";
    BlockCommentIsSpace(a + " ", x, b);
    Assoc(a, " ", " " + b);
  }

  // ---- layout ----

  /** The index where the last line of `s` starts. */
  function LineStart(s: string): (n: nat)
    ensures n <= |s|
  {
    if s == [] || IsBreak(s[|s| - 1]) then |s| else LineStart(s[..|s| - 1])
  }

  /** Whether the cleaned text may be broken at the blank at index `k`. */
  predicate MayBreakAt(text: string, k: nat) {
    k < |text| ==>
      var a, b := text[..k], text[k + 1..];
      MayBreak(MovedBy(BLANK, a[..LineStart(a)]).depth, a[LineStart(a)..], FirstLine(b))
  }

  lemma {:induction false} LineStartSplits(s: string)
    ensures EndsWithBreak(s[..LineStart(s)]) && Breakless(s[LineStart(s)..])
  {
    if s != [] && !IsBreak(s[|s| - 1]) {
      var t := s[..|s| - 1];
      LineStartSplits(t);
      assert s[..LineStart(s)] == t[..LineStart(t)];
      assert s[LineStart(s)..] == t[LineStart(t)..] + [s[|s| - 1]];
    }
  }

  lemma FirstLineSplits(b: string)
    ensures b == FirstLine(b) + b[BreakAt(b)..] && Breakless(FirstLine(b)) && StartsWithBreak(b[BreakAt(b)..])
  {
    BeforeBreak(b);
  }

  lemma RejoinBroken(u: string, v: string, k: nat, w: char, p: string, l: string, r: string, q: string)
    requires BrokenAt(u, v, k, w) && u[..k] == p + l && u[k + 1..] == r + q
    ensures u == p + (l + ([w] + r) + q)
    ensures v == p + (l + ("\n" + (r + q)))
  {
    assert u == u[..k] + ([w] + u[k + 1..]);
    assert v == u[..k] + ("\n" + u[k + 1..]);
    Assoc(p, l, [w] + (r + q));
    Assoc(p, l, "\n" + (r + q));
    Assoc([w], r, q);
    Assoc(l, [w] + r, q);
  }

  lemma CleanBreak(u: string, v: string, k: nat, w: char)
    requires BrokenAt(u, v, k, w) && IsSpace(w) && !IsBreak(w) && MayBreakAt(u, k)
    ensures Normals(u) == Normals(v)
  {
    var a, b := u[..k], u[k + 1..];
    LineStartSplits(a);
    FirstLineSplits(b);
    var p, l := a[..LineStart(a)], a[LineStart(a)..];
    var r, q := FirstLine(b), b[BreakAt(b)..];
    assert a == p + l;
    RejoinBroken(u, v, k, w, p, l, r, q);
    ReflowKeepsBlocks(p, l, w, r, q);
  }

  lemma StrippedAround(a: string, c: char, b: string)
    requires Ends(Code, a) == Code && c != '/'
    ensures Stripped(a + ([c] + b)) == Stripped(a) + ([c] + Stripped(b))
  {
    ScanConcat(Code, a, [c] + b);
    assert ([c] + b)[1..] == b;
  }

  lemma CleanedBroken(a: string, w: char, b: string)
    requires Ends(Code, a) == Code && (w == ' ' || w == '\t')
    ensures SameOrBroken(Cleaned(a + ([w] + b)), Cleaned(a + ("\n" + b)), |Stripped(a)|, w)
  {
    StrippedAround(a, w, b);
    StrippedAround(a, '\n', b);
    UnwrapBroken(KEYWORD, 0, true, Stripped(a), w, Stripped(b));
  }

  /** Breaking a line at a space or tab outside comments keeps the surface, unless the break
      ends a block early or turns the rest of the line into a directive. */
  lemma ReflowKeepsSurface(a: string, w: char, b: string)
    requires Ends(Code, a) == Code && (w == ' ' || w == '\t')
    requires MayBreakAt(Cleaned(a + ([w] + b)), |Stripped(a)|)
    ensures SurfaceOf(a + ([w] + b)) == SurfaceOf(a + ("\n" + b))
  {
    CleanedBroken(a, w, b);
    var u, v := Cleaned(a + ([w] + b)), Cleaned(a + ("\n" + b));
    if u != v {
      CleanBreak(u, v, |Stripped(a)|, w);
    }
  }

  // ---- additions ----

  lemma {:induction false} ScanEndsLine(m: Mode, s: string)
    requires EndsLine(s) && Ends(m, s) == Code
    ensures s != [] ==> Scan(m, s) != []
    ensures m == Code || s != [] ==> EndsLine(Scan(m, s))
    decreases s
  {
    if |s| == 1 {
      assert s[1..] == [];
    } else if |s| > 1 {
      ScanEndsLine(Step(m, s[0]), s[1..]);
    }
  }

  lemma {:induction false} UnwrapEndsLine(kw: string, d: nat, sep: bool, s: string)
    requires EndsLine(s) && Standing(kw, d, sep, s).Some?
    ensures EndsLine(Unwrap(kw, d, sep, s)) && (s != [] ==> Unwrap(kw, d, sep, s) != [])
    decreases |s|
  {
    if s == [] {
    } else if AtHead(kw, d, sep, s) {
      var j := IndexOf(s, '{');
      IndexOfFinds(s, '{');
      UnwrapEndsLine(kw, 1, false, s[j + 1..]);
    } else {
      UnwrapEndsLine(kw, NextDepth(d, s[0]), NextSep(d, s[0]), s[1..]);
    }
  }

  /** Where the gate stands after whole lines `a` of a header, outside comments: the
      namespace state. */
  function StandingAfter(a: string): Option<(nat, bool)> {
    Standing(KEYWORD, 0, true, Stripped(a))
  }

  /** What whole lines `x` clean to when the namespace state is `st`. */
  function CleanedFrom(st: (nat, bool), x: string): string {
    Unwrap(KEYWORD, st.0, st.1, Stripped(x))
  }

  /** `a` is a run of whole lines that leaves no comment open, no namespace head waiting for
      its brace and no block pending. */
  predicate Complete(a: string) {
    && EndsLine(a) && Ends(Code, a) == Code
    && StandingAfter(a).Some? && MovedBy(BLANK, Cleaned(a)) == BLANK
  }

  /** `x` is a run of whole lines that, put where the namespace state is `st`, returns to
      that state and leaves nothing open. */
  predicate SelfContained(st: (nat, bool), x: string) {
    && EndsLine(x) && Ends(Code, x) == Code
    && Standing(KEYWORD, st.0, st.1, Stripped(x)) == Some(st)
    && MovedBy(BLANK, CleanedFrom(st, x)) == BLANK
  }

  lemma UnwrapParts(kw: string, st: (nat, bool), x: string, y: string)
    requires IsKeyword(kw) && EndsLine(x) && Standing(kw, st.0, st.1, x).Some?
    ensures var after := Standing(kw, st.0, st.1, x).value;
            Unwrap(kw, st.0, st.1, x + y) == Unwrap(kw, st.0, st.1, x) + Unwrap(kw, after.0, after.1, y)
    ensures EndsLine(Unwrap(kw, st.0, st.1, x))
  {
    UnwrapConcat(kw, st.0, st.1, x, y);
    UnwrapEndsLine(kw, st.0, st.1, x);
  }

  lemma StrippedParts(a: string, b: string)
    requires EndsLine(a) && Ends(Code, a) == Code
    ensures Stripped(a + b) == Stripped(a) + Stripped(b) && EndsLine(Stripped(a))
  {
    ScanConcat(Code, a, b);
    ScanEndsLine(Code, a);
  }

  lemma CleanedConcat(a: string, b: string)
    requires EndsLine(a) && Ends(Code, a) == Code && StandingAfter(a).Some?
    ensures Cleaned(a + b) == Cleaned(a) + CleanedFrom(StandingAfter(a).value, b)
    ensures EndsWithBreak(Cleaned(a))
  {
    StrippedParts(a, b);
    UnwrapParts(KEYWORD, (0, true), Stripped(a), Stripped(b));
  }

  lemma CleanedFromConcat(st: (nat, bool), x: string, b: string)
    requires SelfContained(st, x)
    ensures CleanedFrom(st, x + b) == CleanedFrom(st, x) + CleanedFrom(st, b)
    ensures EndsWithBreak(CleanedFrom(st, x))
  {
    StrippedParts(x, b);
    UnwrapParts(KEYWORD, st, Stripped(x), Stripped(b));
  }

  lemma NormalsAfterComplete(a: string, b: string)
    requires EndsWithBreak(a) && MovedBy(BLANK, a) == BLANK
    ensures Normals(a + b) == MadeBy(BLANK, a) + Normals(b)
  {
    MadeConcat(BLANK, a, b);
    Assoc(MadeBy(BLANK, a), MadeBy(BLANK, b), Last(MovedBy(BLANK, b)));
  }

  /** The surface of the inserted lines alone. */
  function Added(st: (nat, bool), x: string): AbiSurface {
    SurfaceOfBlocks(EMPTY, MadeBy(BLANK, CleanedFrom(st, x)))
  }

  /** Additive growth: declarations with new names, inserted as whole lines anywhere a block
      may start (inside a namespace too), only add to the surface, and the gate accepts. */
  lemma AdditionsPass(a: string, x: string, b: string)
    requires Complete(a) && SelfContained(StandingAfter(a).value, x)
    requires Apart(SurfaceOf(a + b), Added(StandingAfter(a).value, x))
    ensures SurfaceOf(a + (x + b)) == Merge(SurfaceOf(a + b), Added(StandingAfter(a).value, x))
    ensures Accepts(SurfaceOf(a + b), SurfaceOf(a + (x + b)))
  {
    var st := StandingAfter(a).value;
    var ca, cx, cb := Cleaned(a), CleanedFrom(st, x), CleanedFrom(st, b);
    CleanedConcat(a, b);
    CleanedConcat(a, x + b);
    CleanedFromConcat(st, x, b);
    NormalsAfterComplete(ca, cb);
    NormalsAfterComplete(ca, cx + cb);
    NormalsAfterComplete(cx, cb);
    InsertedBlocks(MadeBy(BLANK, ca), MadeBy(BLANK, cx), Normals(cb));
  }

  // ---- one block ----

  /** A block that goes away: accepted exactly when it has no entry, or the rest of the header
      answers its name as before. */
  lemma BlockRemoval(u: string, v: string, a: seq<string>, s: string, b: seq<string>)
    requires Normals(Cleaned(u)) == a + ([s] + b) && Normals(Cleaned(v)) == a + b
    ensures Accepts(SurfaceOf(u), SurfaceOf(v)) <==>
              || Classify(s).None?
              || SameAnswer(SurfaceOf(u), SurfaceOf(v), Classify(s).value.kind, Classify(s).value.name)
    ensures Classify(s).None? ==> SurfaceOf(u) == SurfaceOf(v)
  {
    RemovedBlock(a, s, b);
  }

  /** A block that is rewritten: accepted exactly when the name it was about and the name it is
      about now are answered as before. */
  lemma BlockRewrite(u: string, v: string, a: seq<string>, s: string, t: string, b: seq<string>)
    requires Normals(Cleaned(u)) == a + ([s] + b) && Normals(Cleaned(v)) == a + ([t] + b)
    ensures Accepts(SurfaceOf(u), SurfaceOf(v)) <==>
              Kept(SurfaceOf(u), SurfaceOf(v), Classify(s)) && Kept(SurfaceOf(u), SurfaceOf(v), Classify(t))
  {
    RewrittenBlock(a, s, t, b);
  }

  /** A block that is added: accepted exactly when the name it is about was not answered, or is
      answered as before. */
  lemma BlockAddition(u: string, v: string, a: seq<string>, s: string, b: seq<string>)
    requires Normals(Cleaned(u)) == a + b && Normals(Cleaned(v)) == a + ([s] + b)
    ensures Accepts(SurfaceOf(u), SurfaceOf(v)) <==> Kept(SurfaceOf(u), SurfaceOf(v), Classify(s))
  {
    AddedBlock(a, s, b);
  }

  // ---- inline bodies ----

  /** An inline definition with head `h` and body `x`. */
  function Definition(h: string, x: string): string {
    h + ("{" + (x + "}"))
  }

  lemma {:induction false} QuietWhileClean(d: int, s: string)
    requires Clean(s)
    ensures Quiet(d, true, s)
    decreases s
  {
    if s != [] {
      assert forall i :: 0 <= i < |s[1..]| ==> s[1..][i] == s[i + 1];
      QuietWhileClean(d + Weight(s[0]), s[1..]);
    }
  }

  lemma {:induction false} QuietWhileDeep(d: int, clean: bool, s: string)
    requires Stays(d - 1, s)
    ensures Quiet(d, clean, s)
    decreases s
  {
    if s != [] { QuietWhileDeep(d + Weight(s[0]), clean && !Closes(s[0]), s[1..]); }
  }

  lemma DefinitionShape(h: string, x: string)
    requires Braceless(h) && ';' !in h && Balanced(x)
    ensures Quiet(0, true, Definition(h, x)) && Net(Definition(h, x)) == 0
    ensures var t := Definition(h, x); t[|t| - 1] == '}'
  {
    var b := x + "}";
    QuietConcat(0, true, h, "{" + b);
    NetConcat(h, "{" + b);
    NetBraceless(h);
    QuietWhileClean(0, h);
    assert ("{" + b)[1..] == b;
    NetConcat(x, "}");
    assert "}"[1..] == "";
    QuietConcat(1, true, x, "}");
    QuietWhileDeep(1, true, x);
  }

  lemma {:induction false} WrittenBraceless(p: Pen, s: string)
    requires Braceless(s)
    ensures Braceless(Written(p, s))
    decreases s
  {
    if s != [] { WrittenBraceless(Next(p, s[0]), s[1..]); }
  }

  lemma {:induction false} FirstBrace(a: string, r: string)
    requires Braceless(a)
    ensures BodyStart(0, a + ("{" + r)) == IndexOf(a + ("{" + r), '{') == |a|
  {
    if a == [] {
      assert a + ("{" + r) == "{" + r;
    } else {
      DropConcat(a, "{" + r, 1);
      FirstBrace(a[1..], r);
    }
  }

  /** The head text up to the brace: the normalised head, with a space when the source had
      a blank before the brace. */
  function NormalHead(h: string): string {
    Written(Start, h) + Owed(After(Start, h))
  }

  lemma WrittenBrace(p: Pen, b: string)
    ensures Written(p, "{" + b) == Owed(p) + ("{" + Written(Ink, b))
  {
    assert ("{" + b)[1..] == b;
    Assoc(Owed(p), "{", Written(Ink, b));
  }

  lemma {:induction false} WrittenLast(p: Pen, s: string)
    requires s != [] && !IsSpace(s[|s| - 1])
    ensures var r := Written(p, s); r != [] && r[|r| - 1] == s[|s| - 1]
    decreases s
  {
    if |s| == 1 {
      assert s[1..] == [];
    } else {
      WrittenLast(Next(p, s[0]), s[1..]);
    }
  }

  lemma NormalDefinition(h: string, x: string) returns (r: string)
    requires Braceless(h)
    ensures Normalise(Definition(h, x)) == NormalHead(h) + ("{" + r)
    ensures r != [] && r[|r| - 1] == '}'
  {
    var p, b := After(Start, h), x + "}";
    r := Written(Ink, b);
    WrittenLast(Ink, b);
    NormaliseIsWritten(Definition(h, x));
    WrittenConcat(Start, h, "{" + b);
    WrittenBrace(p, b);
    Assoc(Written(Start, h), Owed(p), "{" + r);
  }

  lemma NormalHeadFacts(h: string)
    requires Braceless(h)
    ensures Braceless(NormalHead(h)) && RStrip(NormalHead(h)) == Normalise(h)
    ensures IsDirective(NormalHead(h)) <==> IsDirective(Normalise(h))
  {
    WrittenBraceless(Start, h);
    NormaliseIsWritten(h);
    WrittenEnds(Start, h);
    StripTrailing(Written(Start, h), Owed(After(Start, h)));
  }

  lemma BraceIndex(block: string, a: string, r: string)
    requires block == a + ("{" + r) && Braceless(a)
    ensures |a| < |block| && BodyStart(0, block) == IndexOf(block, '{') == |a| && block[..|a|] == a
    ensures block[0] == '#' <==> IsDirective(a)
  {
    FirstBrace(a, r);
  }

  lemma NoTypedef(block: string)
    requires block != [] && block[|block| - 1] == '}'
    ensures MatchTypedef(block).None?
  {
    assert RStrip(block) == block;
  }

  lemma NoDefine(block: string)
    requires block != [] && block[0] != '#'
    ensures MatchDefine(block).None?
  {
    assert "#define"[0] == '#';
    if |block| >= 7 { assert block[0..7][0] == block[0]; }
  }

  /** A head that is neither a directive nor the head of an aggregate. */
  predicate IsHead(h: string) {
    Braceless(h) && !IsDirective(Normalise(h)) && AggregateKey(NormalHead(h), AGGREGATES).None?
  }

  /** One that no semicolon ends early. */
  predicate IsFunctionHead(h: string) {
    IsHead(h) && ';' !in h
  }

  /** The entry of a definition depends on its head alone. */
  lemma EntryOfDefinition(h: string, x: string)
    requires IsHead(h)
    ensures Classify(Normalise(Definition(h, x))) == MatchFunction(Normalise(WithoutInline(Normalise(h) + " ;")))
  {
    var r := NormalDefinition(h, x);
    var block := Normalise(Definition(h, x));
    NormalHeadFacts(h);
    BraceIndex(block, NormalHead(h), r);
    NoTypedef(block);
    NoDefine(block);
  }

  lemma BlocksOfDefinition(p: string, h: string, x: string, q: string)
    requires EndsWithBreak(p) && MovedBy(BLANK, p) == BLANK && StartsWithBreak(q)
    requires IsFunctionHead(h) && Balanced(x) && NoDirective(Definition(h, x))
    ensures Normals(p + (Definition(h, x) + q))
         == MadeBy(BLANK, p) + ([Normalise(Definition(h, x))] + Normals(PastBreak(q)))
  {
    var t := Definition(h, x);
    DefinitionShape(h, x);
    ChunkMakesOneBlock(BLANK, true, t, q);
    NormaliseIsWritten(t);
    assert Absorb(BLANK, t) == Written(Start, t);
    NormalsAfterComplete(p, t + q);
    Assoc([Normalise(t)], MadeBy(BLANK, PastBreak(q)), Last(MovedBy(BLANK, PastBreak(q))));
  }

  /** Replacing the balanced body of an inline definition by another keeps the surface: the
      block boundary and the extracted signature stay the same. */
  lemma InlineBodyEdit(u: string, v: string, p: string, h: string, x: string, y: string, q: string)
    requires Cleaned(u) == p + (Definition(h, x) + q) && Cleaned(v) == p + (Definition(h, y) + q)
    requires EndsWithBreak(p) && MovedBy(BLANK, p) == BLANK && StartsWithBreak(q)
    requires IsFunctionHead(h) && Balanced(x) && Balanced(y)
    requires NoDirective(Definition(h, x)) && NoDirective(Definition(h, y))
    ensures SurfaceOf(u) == SurfaceOf(v)
  {
    BlocksOfDefinition(p, h, x, q);
    BlocksOfDefinition(p, h, y, q);
    EntryOfDefinition(h, x);
    EntryOfDefinition(h, y);
    SameEntry(MadeBy(BLANK, p), Normalise(Definition(h, x)), Normalise(Definition(h, y)), Normals(PastBreak(q)));
  }

  // ---- aggregates ----

  /** An aggregate is not silent about anything: the whole block is its signature, so the
      gate accepts an edited one exactly when its normalised text did not change. */
  lemma AggregateEdit(u: string, v: string, a: seq<string>, s: string, t: string, b: seq<string>, key: string)
    requires Normals(Cleaned(u)) == a + ([s] + b) && Normals(Cleaned(v)) == a + ([t] + b)
    requires Classify(s) == Some(Entry(Aggregate, key, s)) && Classify(t) == Some(Entry(Aggregate, key, t))
    requires key !in SurfaceOfBlocks(EMPTY, b).structs
    ensures Accepts(SurfaceOf(u), SurfaceOf(v)) <==> s == t
  {
    ChangeIsReported(a, s, t, b, Entry(Aggregate, key, s), Entry(Aggregate, key, t));
  }

  /** Text that cleaning leaves alone: no comment opens in it and no wrapper. */
  ghost predicate IsClean(s: string) {
    CommentFree(s) && NoHead(s)
  }

  /** Such text of one line. */
  ghost predicate Plain(s: string) {
    Breakless(s) && IsClean(s)
  }

  /** A character that is part of neither a comment opener nor the word `namespace`. */
  predicate Parts(c: char) {
    c !in "namespace" && c != '/' && c != '*'
  }

  lemma CleanConcat(a: string, b: string)
    requires IsClean(a) && IsClean(b) && (a == [] || b == [] || Parts(a[|a| - 1]) || Parts(b[0]))
    ensures IsClean(a + b)
  {
    NoHeadConcat(a, b);
    CommentFreeConcat(a, b);
  }

  lemma CommentFreeConcat(a: string, b: string)
    requires CommentFree(a) && CommentFree(b) && (a == [] || b == [] || Parts(a[|a| - 1]) || Parts(b[0]))
    ensures CommentFree(a + b)
  {
    forall k ensures !OpensAt(a + b, k) {
      assert !OpensAt(a, k) && !OpensAt(b, k - |a|);
    }
  }

  /** Text without slashes or a word that starts with `n` is clean. */
  lemma SimpleIsClean(s: string)
    requires '/' !in s && NoWordOn('n', s)
    ensures IsClean(s)
  {
    NoWordNoHead(s);
  }

  /** A header of one such line that ends a block and is no directive. */
  ghost predicate IsOneLine(s: string) {
    Plain(s) && Terminal(s) && !IsSpace(s[|s| - 1]) && !IsDirective(s) && Net(s) == 0
  }

  lemma CleanStays(s: string)
    requires IsClean(s)
    ensures Cleaned(s) == s
  {
    StrippedOfCommentFree(s);
    UnwrappedWithoutHead(s);
  }

  lemma OneLineHeader(s: string)
    requires IsOneLine(s)
    ensures Normals(Cleaned(s)) == [Normalise(s)]
  {
    CleanStays(s);
    OneLine(BLANK, s, "");
    assert s + "" == s && RStrip(s) == s;
    PlainLine(BLANK, s, s);
    NormaliseIsWritten(s);
    assert MadeBy(BLANK, "") == [] && MovedBy(BLANK, "") == BLANK;
    assert "" + Written(Start, s) == Written(Start, s);
  }

  lemma StructKey()
    ensures AggregateKey("struct P ", AGGREGATES) == Some("struct P")
  {
    var head := "struct P ";
    assert head[0..6] == "struct" && head[6..] == " P " && " P "[1..] == "P " && "P "[1..] == " " && "P "[..1] == "P";
    assert SpaceRun(" P ") == 1 && WordRun("P ") == 1;
    assert AfterWord(head, "struct") == Some("P ");
    assert TagAfter("struct", "P ") == Some("P");
    assert "struct" + " " + "P" == "struct P";
    assert AGGREGATES[0] == "struct";
  }

  /** A structure with the given fields on one line. */
  function StructText(fields: string): string {
    "struct P " + ("{" + (" " + (fields + " };")))
  }

  lemma StructEntry(fields: string)
    ensures var s := StructText(fields); Classify(s) == Some(Entry(Aggregate, "struct P", s))
  {
    var s, rest := StructText(fields), " " + (fields + " };");
    NoDefine(s);
    BraceIndex(s, "struct P ", rest);
    StructKey();
  }

  lemma StructIsNormal(fields: string)
    requires Spaced(fields)
    ensures Spaced(StructText(fields))
  {
    var body := fields + (" " + "};");
    SpacedApart(fields, "};");
    assert " " + "};" == " };";
    SpacedApart("{", body);
    SpacedWord("struct");
    SpacedApart("struct", "P");
    assert "struct" + (" " + "P") == "struct P";
    SpacedApart("struct P", "{" + (" " + body));
    assert "struct P" + " " == "struct P ";
    Assoc("struct P", " ", "{" + (" " + body));
  }

  lemma NetClose()
    ensures Net(" };") == -1
  {
    assert " };"[1..] == "};" && "};"[1..] == ";" && ";"[1..] == "";
  }

  lemma StructNet(fields: string)
    requires Braceless(fields)
    ensures Net(StructText(fields)) == 0
  {
    var body := fields + " };";
    NetConcat("struct P ", "{" + (" " + body));
    NetBraceless("struct P ");
    NetOpened(" " + body);
    NetConcat(" ", body);
    NetBraceless(" ");
    NetConcat(fields, " };");
    NetBraceless(fields);
    NetClose();
  }

  lemma NetOpened(t: string)
    ensures Net("{" + t) == 1 + Net(t)
  {
    assert ("{" + t)[1..] == t;
  }

  lemma PlainConcat(a: string, b: string)
    requires Plain(a) && Plain(b) && (a == [] || b == [] || Parts(a[|a| - 1]) || Parts(b[0]))
    ensures Plain(a + b)
  {
    CleanConcat(a, b);
  }

  lemma StructFrame()
    ensures Plain("struct P ") && Plain("{") && Plain(" ") && Plain(" };")
  {
    SimpleIsClean("struct P ");
    SimpleIsClean("{");
    SimpleIsClean(" ");
    SimpleIsClean(" };");
  }

  lemma StructPlain(fields: string)
    requires Plain(fields)
    ensures Plain(StructText(fields))
  {
    StructFrame();
    PlainConcat(fields, " };");
    PlainConcat(" ", fields + " };");
    PlainConcat("{", " " + (fields + " };"));
    PlainConcat("struct P ", "{" + (" " + (fields + " };")));
  }

  lemma StructBlocks(fields: string)
    requires Spaced(fields) && Braceless(fields) && Plain(fields)
    ensures Normals(Cleaned(StructText(fields))) == [StructText(fields)]
  {
    var s := StructText(fields);
    StructIsNormal(fields);
    StructNet(fields);
    StructPlain(fields);
    OneLineHeader(s);
    SpacedIsNormal(s);
  }

  /** In a structure of one header any edit of the fields is reported, a new field included. */
  lemma StructShowsFields(x: string, y: string)
    ensures StructText(x) == StructText(y) <==> x == y
  {
    var s, t := StructText(x), StructText(y);
    assert s[11..|s| - 3] == x && t[11..|t| - 3] == y;
  }

  ghost predicate IsFields(x: string) {
    Spaced(x) && Braceless(x) && Plain(x)
  }

  /** In a structure of one header any edit of the fields is reported, a new field included. */
  lemma FieldEdit(x: string, y: string)
    requires IsFields(x) && IsFields(y)
    ensures Accepts(SurfaceOf(StructText(x)), SurfaceOf(StructText(y))) <==> x == y
  {
    var s, t := StructText(x), StructText(y);
    StructBlocks(x);
    StructBlocks(y);
    StructEntry(x);
    StructEntry(y);
    assert [] + ([s] + []) == [s] && [] + ([t] + []) == [t];
    AggregateEdit(s, t, [], s, t, [], "struct P");
    StructShowsFields(x, y);
  }

  lemma OneField()
    ensures IsFields("int x;")
  {
    SimpleIsClean("int x;");
  }

  lemma OtherField()
    ensures IsFields("int y;")
  {
    SimpleIsClean("int y;");
  }

  lemma FieldsApart(x: string, y: string)
    requires IsFields(x) && IsFields(y)
    ensures IsFields(x + (" " + y))
  {
    SpacedApart(x, y);
    StructFrame();
    PlainConcat(" ", y);
    PlainConcat(x, " " + y);
    assert Braceless(" " + y);
  }

  lemma TwoFields()
    ensures IsFields("int x; int y;")
  {
    OneField();
    OtherField();
    FieldsApart("int x;", "int y;");
    assert "int x;" + (" " + "int y;") == "int x; int y;";
  }

  /** A new field, which the documentation calls silent, is reported. */
  lemma NewFieldIsReported()
    ensures !Accepts(SurfaceOf(StructText("int x;")), SurfaceOf(StructText("int x; int y;")))
  {
    OneField();
    TwoFields();
    FieldEdit("int x;", "int x; int y;");
    assert |"int x;"| != |"int x; int y;"|;
  }

  // ---- both headers ----

  /** The surface of the C header and the C++ header; the latter overrides the former. */
  function Collected(c: string, cpp: string): AbiSurface {
    Merge(SurfaceOf(c), SurfaceOf(cpp))
  }

  method Collect(c: string, cpp: string) returns (surf: AbiSurface)
    ensures surf == Collected(c, cpp)
  {
    var headers := [c, cpp];
    var parts: seq<AbiSurface> := [];
    for i := 0 to 2
      invariant |parts| == i && forall j :: 0 <= j < i ==> parts[j] == SurfaceOf(headers[j])
    {
      var part := EMPTY;
      if headers[i] != "" {
        part := ExtractSurface(headers[i]);
      }
      parts := parts + [part];
    }
    surf := Merge(parts[0], parts[1]);
  }

  /** A name in both headers has the entry of the C++ header. */
  lemma LaterHeaderWins(c: string, cpp: string, kind: Kind, name: string)
    ensures var one, two := TableOf(SurfaceOf(c), kind), TableOf(SurfaceOf(cpp), kind);
            var both := TableOf(Collected(c, cpp), kind);
            && (name in both <==> name in one || name in two)
            && (name in two ==> both[name] == two[name]) && (name in one && name !in two ==> both[name] == one[name])
  {
    MergeOf(SurfaceOf(c), SurfaceOf(cpp), kind);
  }

  /** An addition to either header passes the gate over both, when its names are new in
      both. */
  lemma AdditionToEitherHeaderPasses(a: string, x: string, b: string, other: string)
    requires Complete(a) && SelfContained(StandingAfter(a).value, x)
    ensures Apart(Collected(a + b, other), Added(StandingAfter(a).value, x)) ==>
              Accepts(Collected(a + b, other), Collected(a + (x + b), other))
    ensures Apart(Collected(other, a + b), Added(StandingAfter(a).value, x)) ==>
              Accepts(Collected(other, a + b), Collected(other, a + (x + b)))
  {
    var base, more, added := SurfaceOf(a + b), SurfaceOf(other), Added(StandingAfter(a).value, x);
    if Apart(Merge(base, more), added) {
      ApartParts(base, more, added);
      AdditionsPass(a, x, b);
      EitherGrows(base, more, added);
    }
    if Apart(Merge(more, base), added) {
      ApartParts(more, base, added);
      AdditionsPass(a, x, b);
      EitherGrows(more, base, added);
    }
  }
}
