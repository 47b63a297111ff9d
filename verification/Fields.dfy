/** Fields and structures in any layout: what the collector of value structures reads. */
module Fields {
  import opened Text
  import TopLevel
  import opened Params
  import opened Comments
  import opened ValueStructs

  // ---- numbers ----

  /** A decimal number means its digits, the last one counting once. */
  lemma DecimalValue(d: string, c: char)
    requires AllDigit(d) && '0' <= c <= '9'
    ensures AllDigit(d + [c]) && ParseDecimal(d + [c]) == 10 * ParseDecimal(d) + (c as int - 48)
    ensures ParseDecimal("") == 0
  {
    assert (d + [c])[..|d|] == d;
  }

  // ---- one field ----

  /** The characters of a field's type. */
  predicate InFieldType(c: char) {
    'a' <= c <= 'z' || 'A' <= c <= 'Z' || '0' <= c <= '9' || c == '_' || c == ' ' || c == '*' || c == '[' || c == ']'
  }

  /** A type, blanks and a name; the blanks are needed only behind a word. A type of one letter
      needs a space behind it. */
  predicate IsFieldLayout(ctype: string, gap: string, name: string) {
    && Trimmed(ctype) && (forall i :: 0 <= i < |ctype| ==> InFieldType(ctype[i])) && IsIdentStart(ctype[0])
    && AllSpace(gap) && name != [] && AllWord(name)
    && (gap != [] || !IsWord(ctype[|ctype| - 1]))
    && (|ctype| > 1 || (gap != [] && gap[0] == ' '))
  }

  lemma LayoutType(ctype: string, gap: string)
    requires Trimmed(ctype) && AllInType(ctype) && AllSpace(gap) && (|ctype| > 1 || (gap != [] && gap[0] == ' '))
    ensures var x := ctype + gap; var l := if |RStrip(x)| < 2 then 2 else |RStrip(x)|;
            l <= |x| && AllInType(x[..l]) && Strip(x[..l]) == ctype
  {
    var x := ctype + gap;
    StripTrailing(ctype, gap);
    if |ctype| == 1 {
      assert x[..2] == ctype + " ";
      StripTrimmed("", ctype, " ");
      assert "" + (ctype + " ") == ctype + " ";
    } else {
      assert x[..|ctype|] == ctype;
      StripSame(ctype);
    }
  }

  lemma LayoutTypeAndName(ctype: string, gap: string, name: string, size: Option<nat>)
    requires IsFieldLayout(ctype, gap, name)
    ensures TypeAndName((ctype + gap) + name, size) == Some(Field(name, ctype, size))
  {
    var x := ctype + gap;
    var base := x + name;
    assert x[|x| - 1] == if gap == [] then ctype[|ctype| - 1] else gap[|gap| - 1];
    TailRunConcat(x, name);
    assert base[..|x|] == x && base[|x|..] == name;
    LayoutType(ctype, gap);
  }

  /** A field is read as its name and type in every layout; a pointer needs no blank before its
      name. */
  lemma FieldParsed(ctype: string, gap: string, name: string)
    requires IsFieldLayout(ctype, gap, name)
    ensures ParseField((ctype + gap) + name) == Some(Field(name, ctype, None))
  {
    var base := (ctype + gap) + name;
    assert base[|base| - 1] == name[|name| - 1];
    LayoutTypeAndName(ctype, gap, name, None);
  }

  /** An array field also with its size. */
  lemma ArrayFieldParsed(ctype: string, gap: string, name: string, d: string)
    requires IsFieldLayout(ctype, gap, name) && d != [] && AllDigit(d)
    ensures ParseField(((ctype + gap) + name) + ("[" + d + "]")) == Some(Field(name, ctype, Some(ParseDecimal(d))))
  {
    var base := (ctype + gap) + name;
    BracketAt(base, d);
    ArraySuffixIs(base + ("[" + d + "]"), base, d);
    LayoutTypeAndName(ctype, gap, name, Some(ParseDecimal(d)));
  }

  lemma TypeSplits(x: string) returns (gap: string)
    requires x != [] && IsIdentStart(x[0])
    requires var l := if |RStrip(x)| < 2 then 2 else |RStrip(x)|; l <= |x| && AllInType(x[..l])
    ensures var ctype := Strip(x[..if |RStrip(x)| < 2 then 2 else |RStrip(x)|]);
            && x == ctype + gap && Trimmed(ctype) && AllInType(ctype) && ctype[0] == x[0]
            && AllSpace(gap) && (|ctype| > 1 || (gap != [] && gap[0] == ' '))
  {
    var r := RStrip(x);
    gap := RStripSplit(x);
    TopLevel.StripBlank(x);
    if |r| < 2 {
      InkStays(x, gap);
      assert r == [x[0]] && x[1] == gap[0];
      assert InType(x[..2][1]);
      assert x[..2] == "" + (r + " ");
      StripTrimmed("", r, " ");
    } else {
      assert x[..|r|] == r;
      StripSame(r);
    }
  }

  lemma InkStays(x: string, w: string)
    requires x != [] && !IsSpace(x[0]) && x == RStrip(x) + w && AllSpace(w)
    ensures RStrip(x) != [] && RStrip(x)[0] == x[0]
  {
    assert RStrip(x) == [] ==> x == w;
  }

  lemma TypeAndNameSplits(base: string, size: Option<nat>) returns (gap: string)
    requires TypeAndName(base, size).Some?
    ensures var f := TypeAndName(base, size).value;
            f.size == size && IsFieldLayout(f.ctype, gap, f.name) && base == (f.ctype + gap) + f.name
  {
    var k, ctype := TypeAndNameFacts(base, size);
    TailRunFacts(base);
    gap := TypeSplits(base[..k]);
    CutAt(base, k);
    LayoutOf(ctype, gap, base[k..], base[..k]);
  }

  lemma TypeAndNameFacts(base: string, size: Option<nat>) returns (k: nat, ctype: string)
    requires TypeAndName(base, size).Some?
    ensures k == |base| - TailRun(base) && 0 < k < |base| && IsIdentStart(base[..k][0])
    ensures var x := base[..k]; var l := if |RStrip(x)| < 2 then 2 else |RStrip(x)|;
            l <= k && AllInType(x[..l]) && ctype == Strip(x[..l])
    ensures TypeAndName(base, size) == Some(Field(base[k..], ctype, size))
  {
    k := |base| - TailRun(base);
    var x := base[..k];
    ctype := Strip(x[..if |RStrip(x)| < 2 then 2 else |RStrip(x)|]);
  }

  lemma LayoutOf(ctype: string, gap: string, name: string, x: string)
    requires x == ctype + gap && x != [] && !IsWord(x[|x| - 1]) && name != [] && AllWord(name)
    requires Trimmed(ctype) && AllInType(ctype) && IsIdentStart(ctype[0])
    requires AllSpace(gap) && (|ctype| > 1 || (gap != [] && gap[0] == ' '))
    ensures IsFieldLayout(ctype, gap, name)
  {
    assert forall i :: 0 <= i < |ctype| ==> InType(ctype[i]);
  }

  lemma ArraySplits(line: string) returns (d: string)
    requires ArraySuffix(line).Some?
    ensures var (base, n) := ArraySuffix(line).value;
            line == base + ("[" + d + "]") && d != [] && AllDigit(d) && ParseDecimal(d) == n
  {
    var t := line[..|line| - 1];
    var k := |t| - DigitTail(t);
    DigitTailFacts(t);
    d := t[k..];
    assert t == t[..k - 1] + ("[" + d);
    assert line == t + "]";
  }

  /** A field as it may be written: its type, blanks, its name, and its size in brackets. */
  ghost predicate IsFieldText(line: string, f: Field) {
    match f.size
    case None => exists gap :: IsFieldLayout(f.ctype, gap, f.name) && line == (f.ctype + gap) + f.name
    case Some(n) =>
      exists gap, d :: && IsFieldLayout(f.ctype, gap, f.name) && d != [] && AllDigit(d) && ParseDecimal(d) == n
                       && line == ((f.ctype + gap) + f.name) + ("[" + d + "]")
  }

  /** What a line is read as: the field it is the text of, and nothing if it is none. */
  lemma FieldIff(line: string, f: Field)
    ensures ParseField(line) == Some(f) <==> IsFieldText(line, f)
  {
    if ParseField(line) == Some(f) { ParsedFieldText(line, f); }
    if IsFieldText(line, f) {
      match f.size
      case None =>
        var gap :| IsFieldLayout(f.ctype, gap, f.name) && line == (f.ctype + gap) + f.name;
        FieldParsed(f.ctype, gap, f.name);
      case Some(n) =>
        var gap, d :| && IsFieldLayout(f.ctype, gap, f.name) && d != [] && AllDigit(d) && ParseDecimal(d) == n
                      && line == ((f.ctype + gap) + f.name) + ("[" + d + "]");
        ArrayFieldParsed(f.ctype, gap, f.name, d);
    }
  }

  lemma ParsedFieldText(line: string, f: Field)
    requires ParseField(line) == Some(f)
    ensures IsFieldText(line, f)
  {
    match ArraySuffix(line)
    case None =>
      var gap := TypeAndNameSplits(line, None);
    case Some((base, n)) =>
      var gap := TypeAndNameSplits(base, Some(n));
      var d := ArraySplits(line);
  }

  // ---- a body ----

  lemma {:induction false} SegmentsOf(ts: seq<string>)
    requires ts != [] && forall i :: 0 <= i < |ts| ==> ';' !in ts[i]
    ensures SplitOn(Join(ts, ";"), ';') == ts
  {
    var init, t := ts[..|ts| - 1], ts[|ts| - 1];
    assert ts == init + [t];
    if init == [] {
      assert ts == [t];
      assert "" + t == t;
      SplitOnQuiet("", t, ';');
      assert TopLevel.Extended([""], t) == ["" + t];
    } else {
      SegmentsOf(init);
      JoinSnoc(init, t, ";");
      NextSegment(Join(init, ";"), init, t);
    }
  }

  lemma NextSegment(s: string, r: seq<string>, t: string)
    requires SplitOn(s, ';') == r && r != [] && ';' !in t
    ensures SplitOn(s + (";" + t), ';') == r + [t]
  {
    Assoc(s, ";", t);
    assert (s + ";")[..|s|] == s;
    SplitOnQuiet(s + ";", t, ';');
    assert "" + t == t;
    assert TopLevel.Extended(r + [""], t) == r + [t];
  }

  /** The fields of a body are those of its parts between semicolons, in order; blank parts and
      parts that are no field count for nothing. */
  lemma FieldsOfParts(ts: seq<string>)
    requires ts != [] && (forall i :: 0 <= i < |ts| ==> ';' !in ts[i]) && '/' !in Join(ts, ";")
    ensures FieldsOf(Join(ts, ";")) == FieldsIn(ts)
  {
    CleanPlain(Join(ts, ";"));
    SegmentsOf(ts);
  }

  lemma OneCharacter(s: string)
    requires s != [] && (s[0] == '/' && |s| > 1 ==> s[1] != '/' && s[1] != '*')
    ensures BlocksToSpace(s) == [s[0]] + BlocksToSpace(s[1..]) && LinesToSpace(s) == [s[0]] + LinesToSpace(s[1..])
  {
  }

  lemma {:induction false} BlocksBehind(a: string, r: string)
    requires Uncommented(a)
    ensures BlocksToSpace(a + r) == a + BlocksToSpace(r)
    decreases a
  {
    if a == [] {
      assert a + r == r;
    } else {
      UncommentedTail(a);
      OneCharacter(a + r);
      DropConcat(a, r, 1);
      BlocksBehind(a[1..], r);
      Assoc([a[0]], a[1..], BlocksToSpace(r));
      assert [a[0]] + a[1..] == a;
    }
  }

  lemma {:induction false} LinesBehind(a: string, r: string)
    requires Uncommented(a)
    ensures LinesToSpace(a + r) == a + LinesToSpace(r)
    decreases a
  {
    if a == [] {
      assert a + r == r;
    } else {
      UncommentedTail(a);
      OneCharacter(a + r);
      DropConcat(a, r, 1);
      LinesBehind(a[1..], r);
      Assoc([a[0]], a[1..], LinesToSpace(r));
      assert [a[0]] + a[1..] == a;
    }
  }

  lemma CommentToSpace(x: string, b: string)
    requires Find(x, "*/").None?
    ensures BlocksToSpace("/*" + (x + ("*/" + b))) == " " + BlocksToSpace(b)
  {
    var t := x + ("*/" + b);
    var s := "/*" + t;
    ClosesThere(x, b);
    assert s[2..] == t && s[|x| + 4..] == b;
  }

  /** A block comment in a body is worth a space. */
  lemma BlockCommentInBody(a: string, x: string, b: string)
    requires Uncommented(a) && Find(x, "*/").None?
    ensures FieldsOf(a + ("/*" + (x + ("*/" + b)))) == FieldsOf(a + (" " + b))
  {
    BlocksBehind(a, "/*" + (x + ("*/" + b)));
    CommentToSpace(x, b);
    BlocksBehind(a, " " + b);
    BlocksBehind(" ", b);
  }

  lemma LineToSpace(x: string, r: string)
    requires '\n' !in x && r != [] && r[0] == '\n'
    ensures LinesToSpace("//" + (x + r)) == " " + LinesToSpace(r)
  {
    var s := "//" + (x + r);
    IndexOfFinds(x, '\n');
    IndexOfConcat(x, r, '\n');
    assert s[2..] == x + r && (x + r)[|x|..] == r;
  }

  /** On a line whose block comments close there, block comments are replaced on their own. */
  lemma {:induction false} BlocksOnLine(s: string, n: nat) returns (l: string)
    requires n <= |s| && '\n' !in s[..n] && ClosesWithin(s, n)
    ensures BlocksToSpace(s) == l + BlocksToSpace(s[n..]) && '\n' !in l
    decreases n
  {
    if n == 0 {
      l := "";
      assert s[0..] == s && l + BlocksToSpace(s) == BlocksToSpace(s);
    } else {
      var e := if BlockAt(s) then Find(s[2..], "*/").value + 4 else 1;
      LineParts(s, e, n);
      var k := BlocksOnLine(s[e..], n - e);
      var c := if BlockAt(s) then ' ' else s[0];
      assert c != '\n' by { assert s[0] == s[..n][0]; }
      l := [c] + k;
      Assoc([c], k, BlocksToSpace(s[n..]));
    }
  }

  lemma TwoSlashes(t: string)
    requires !BlockAt("/" + t)
    ensures BlocksToSpace("//" + t) == "//" + BlocksToSpace(t)
  {
    var s := "//" + t;
    assert s[1..] == "/" + t && s[1..][1..] == t;
    assert !OpensBlock(s);
    Assoc("/", "/", BlocksToSpace(t));
  }

  lemma SlashesKept(x: string, r: string) returns (l: string)
    requires IsLineComment(x, r)
    ensures BlocksToSpace("//" + (x + r)) == "//" + (l + BlocksToSpace(r)) && '\n' !in l
  {
    assert (x + r)[..|x|] == x && (x + r)[|x|..] == r;
    l := BlocksOnLine(x + r, |x|);
    TwoSlashes(x + r);
  }

  /** A line comment in a body is worth a space, and its newline stays. */
  lemma LineCommentInBody(a: string, x: string, b: string)
    requires Uncommented(a) && IsLineComment(x, "\n" + b)
    ensures FieldsOf(a + ("//" + (x + ("\n" + b)))) == FieldsOf(a + (" " + ("\n" + b)))
  {
    var z := BlocksToSpace(b);
    BlocksBehind(a, "//" + (x + ("\n" + b)));
    var l := SlashesKept(x, "\n" + b);
    BlocksBehind("\n", b);
    LinesBehind(a, "//" + (l + ("\n" + z)));
    LineToSpace(l, "\n" + z);
    BlocksBehind(a, " " + ("\n" + b));
    BlocksBehind(" ", "\n" + b);
    LinesBehind(a, " " + ("\n" + z));
    LinesBehind(" ", "\n" + z);
  }

  // ---- a structure ----

  /** A structure typedef: its tag, its body, blanks and the handle `lr_..._t`. */
  function StructLine(tag: string, body: string, w: string, x: string): string {
    "typedef struct " + (tag + (" {" + (body + ("}" + (w + ("lr_" + (x + "_t") + ";"))))))
  }

  lemma HandleIs(x: string)
    requires x != [] && AllWord(x)
    ensures var h := "lr_" + (x + "_t"); IsHandle(h) && AllWord(h) && h[0] == 'l'
  {
    var h := "lr_" + (x + "_t");
    assert AllWord(x + "_t");
    assert h[0..3] == "lr_" && h[|h| - 2..|h|] == "_t";
  }

  lemma BraceBefore(body: string, r: string)
    requires '}' !in body
    ensures var v := body + ("}" + r); IndexOf(v, '}') == |body| && v[..|body|] == body && v[|body| + 1..] == r
  {
    IndexOfFinds(body, '}');
    IndexOfConcat(body, "}" + r, '}');
  }

  lemma ClosingAny(body: string, w: string, h: string, rest: string)
    requires '}' !in body && AllSpace(w) && IsHandle(h) && AllWord(h)
    ensures Closing(body + ("}" + (w + (h + (";" + rest))))) == Some((body, h, |rest|))
  {
    var t := h + (";" + rest);
    BraceBefore(body, w + t);
    SpaceRunConcat(w, t);
    assert (w + t)[|w|..] == t;
    WordRunConcat(h, ";" + rest);
    assert t[..|h|] == h;
  }

  lemma StructLineSplits(tag: string, body: string, w: string, h: string, rest: string)
    ensures ("typedef struct " + (tag + (" {" + (body + ("}" + (w + (h + ";"))))))) + rest
         == "typedef struct " + (tag + (" {" + (body + ("}" + (w + (h + (";" + rest)))))))
  {
    Assoc(h, ";", rest);
    Assoc(w, h + ";", rest);
    Assoc("}", w + (h + ";"), rest);
    Assoc(body, "}" + (w + (h + ";")), rest);
    Assoc(" {", body + ("}" + (w + (h + ";"))), rest);
    Assoc(tag, " {" + (body + ("}" + (w + (h + ";")))), rest);
    Assoc("typedef struct ", tag + (" {" + (body + ("}" + (w + (h + ";"))))), rest);
  }

  /** A structure is matched whole, with tag, body and handle, whatever follows and whatever
      blanks stand before its handle. */
  lemma StructMatched(tag: string, body: string, w: string, x: string, rest: string)
    requires IsStructLine(tag, body, w, x)
    ensures MatchStruct(StructLine(tag, body, w, x) + rest)
         == Some(Found(tag, body, "lr_" + (x + "_t"), |StructLine(tag, body, w, x)|))
  {
    var h := "lr_" + (x + "_t");
    var v := body + ("}" + (w + (h + (";" + rest))));
    HandleIs(x);
    ClosingAny(body, w, h, rest);
    DescribedOf(tag, v);
    StructLineSplits(tag, body, w, h, rest);
    MatchedWhole(Described, "typedef struct ", StructLine(tag, body, w, x), rest, tag + (" {" + v), tag, body, h);
  }

  predicate IsStructLine(tag: string, body: string, w: string, x: string) {
    tag != [] && AllWord(tag) && '}' !in body && AllSpace(w) && x != [] && AllWord(x)
  }

  lemma HandleSplits(h: string) returns (x: string)
    requires IsHandle(h)
    ensures h == "lr_" + (x + "_t") && x != [] && AllWord(x)
  {
    x := h[3..|h| - 2];
    assert h == h[0..3] + (x + h[|h| - 2..|h|]);
  }

  lemma ClosingSplits(v: string) returns (w: string, rest: string)
    requires Closing(v).Some?
    ensures var (body, h, left) := Closing(v).value;
            && v == body + ("}" + (w + (h + (";" + rest)))) && |rest| == left
            && '}' !in body && AllSpace(w) && IsHandle(h)
  {
    var e := IndexOf(v, '}');
    var u := v[e + 1..];
    var (body, h, left) := Closing(v).value;
    IndexOfFinds(v, '}');
    w, rest := TailSplits(u, u[SpaceRun(u)..], h, left);
    var r := SplitsAt(v, e, '}');
  }

  lemma TailSplits(u: string, t: string, h: string, left: nat) returns (w: string, rest: string)
    requires t == u[SpaceRun(u)..] && WordRun(t) < |t| && t[WordRun(t)] == ';'
    requires h == t[..WordRun(t)] && left == |t| - WordRun(t) - 1
    ensures u == w + (h + (";" + rest)) && |rest| == left && AllSpace(w)
  {
    SpaceRunFacts(u);
    w := u[..SpaceRun(u)];
    rest := SplitsAt(t, WordRun(t), ';');
    assert u == w + t;
  }

  lemma SplitsAt(t: string, n: nat, c: char) returns (rest: string)
    requires n < |t| && t[n] == c
    ensures t == t[..n] + ([c] + rest) && rest == t[n + 1..] && |rest| == |t| - n - 1
  {
    rest := t[n + 1..];
  }

  lemma DescribedSplits(t: string) returns (v: string)
    requires Described(t).Some?
    ensures var (tag, body, h, left) := Described(t).value;
            t == tag + (" {" + v) && tag != [] && AllWord(tag) && Closing(v) == Some((body, h, left))
  {
    var n := WordRun(t);
    WordRunFacts(t);
    v := t[n..][2..];
    OpenedBy(t[n..], " {");
    CutAt(t, n);
  }

  lemma CutAt(t: string, n: nat)
    requires n <= |t|
    ensures t == t[..n] + t[n..]
  {
  }

  /** The text starts with this structure typedef. */
  predicate StartsStruct(s: string, m: Found, w: string, x: string) {
    && IsStructLine(m.tag, m.body, w, x) && m.handle == "lr_" + (x + "_t")
    && StructLine(m.tag, m.body, w, x) <= s && m.len == |StructLine(m.tag, m.body, w, x)|
  }

  /** A structure typedef at the start of `s`, its parts spelled out. */
  ghost predicate IsStructText(s: string, m: Found) {
    exists w, x :: StartsStruct(s, m, w, x)
  }

  lemma MatchedStructText(s: string, m: Found)
    requires MatchStruct(s) == Some(m)
    ensures IsStructText(s, m)
  {
    var t := s[|OPENER|..];
    var w, rest := DescribedParts(t);
    var x := HandleSplits(m.handle);
    OpenedBy(s, "typedef struct ");
    StructLineSplits(m.tag, m.body, w, m.handle, rest);
    LineBefore(s, StructLine(m.tag, m.body, w, x), rest);
    assert StartsStruct(s, m, w, x);
  }

  lemma OpenedBy(s: string, opener: string)
    requires StartsWith(s, opener)
    ensures s == opener + s[|opener|..]
  {
  }

  lemma DescribedParts(t: string) returns (w: string, rest: string)
    requires Described(t).Some?
    ensures var (tag, body, h, left) := Described(t).value;
            && t == tag + (" {" + (body + ("}" + (w + (h + (";" + rest)))))) && |rest| == left
            && tag != [] && AllWord(tag) && '}' !in body && AllSpace(w) && IsHandle(h)
  {
    var v := DescribedSplits(t);
    w, rest := ClosingSplits(v);
  }

  lemma LineBefore(s: string, l: string, rest: string)
    requires s == l + rest
    ensures l <= s && |l| == |s| - |rest|
  {
  }

  /** What is matched as a structure: a text that starts with a structure typedef, and no other. */
  lemma StructIff(s: string, m: Found)
    ensures MatchStruct(s) == Some(m) <==> IsStructText(s, m)
  {
    if MatchStruct(s) == Some(m) { MatchedStructText(s, m); }
    if w, x :| StartsStruct(s, m, w, x) { StartedStruct(s, m, w, x); }
  }

  lemma StartedStruct(s: string, m: Found, w: string, x: string)
    requires StartsStruct(s, m, w, x)
    ensures MatchStruct(s) == Some(m)
  {
    PrefixSplits(s, StructLine(m.tag, m.body, w, x));
    StructMatched(m.tag, m.body, w, x, s[m.len..]);
  }

  lemma PrefixSplits(s: string, l: string)
    requires l <= s
    ensures s == l + s[|l|..]
  {
  }

  // ---- the opaque marker ----

  lemma MarkerBase(g: string, h: string)
    requires g != [] && AllSpace(g) && AllSpace(h)
    ensures var base := (("uint8_t" + g) + "_private") + h; var b := RStrip(base); var k := |b| - TailRun(b);
            k > 7 && b[k..] == "_private" && RStrip(b[..k]) == "uint8_t"
  {
    var x := "uint8_t" + g;
    var b := x + "_private";
    StripTrailing(b, h);
    TailRunConcat(x, "_private");
    assert b[..|x|] == x && b[|x|..] == "_private";
    StripTrailing("uint8_t", g);
  }

  lemma MarkerField(g: string, h: string, d: string)
    requires g != [] && AllSpace(g) && AllSpace(h) && d != [] && AllDigit(d)
    ensures IsMarkerField(((("uint8_t" + g) + "_private") + h) + ("[" + d + "]"))
  {
    var base := (("uint8_t" + g) + "_private") + h;
    BracketAt(base, d);
    ArraySuffixIs(base + ("[" + d + "]"), base, d);
    MarkerBase(g, h);
  }

  /** A body of only `uint8_t _private[N]`, in any layout, with or without its semicolon, is an
      opaque marker. */
  lemma MarkerAny(a: string, g: string, h: string, d: string, k: string, b: string)
    requires AllSpace(a) && g != [] && AllSpace(g) && AllSpace(h) && d != [] && AllDigit(d) && AllSpace(k)
    requires AllSpace(b)
    ensures var u := ((("uint8_t" + g) + "_private") + h) + ("[" + d + "]");
            IsMarker(a + (u + b)) && IsMarker(a + (((u + k) + ";") + b))
  {
    var u := ((("uint8_t" + g) + "_private") + h) + ("[" + d + "]");
    MarkerField(g, h, d);
    assert u[0] == 'u' && u[|u| - 1] == ']';
    EndDropped(a, u, k, b);
  }

  lemma EndDropped(a: string, u: string, k: string, b: string)
    requires Trimmed(u) && u[|u| - 1] != ';' && AllSpace(a) && AllSpace(k) && AllSpace(b)
    ensures WithoutEnd(a + (u + b)) == u && WithoutEnd(a + (((u + k) + ";") + b)) == u
  {
    StripTrimmed(a, u, b);
    var t := (u + k) + ";";
    assert t[0] == u[0] && t[|t| - 1] == ';' && t[..|t| - 1] == u + k;
    StripTrimmed(a, t, b);
    StripTrailing(u, k);
  }

  /** A body around what is left of it. */
  predicate EndAround(body: string, a: string, u: string, k: string, b: string) {
    AllSpace(a) && AllSpace(k) && AllSpace(b) && (body == a + (u + b) || body == a + (((u + k) + ";") + b))
  }

  lemma EndSplits(body: string) returns (a: string, k: string, b: string)
    ensures EndAround(body, a, WithoutEnd(body), k, b)
  {
    a, b := StripSplits(body);
    var t := Strip(body);
    if t != [] && t[|t| - 1] == ';' {
      var x := t[..|t| - 1];
      k := RStripSplit(x);
      assert t == x + ";";
    } else {
      k := "";
    }
  }

  /** `uint8_t _private[d]` with blanks `g` and `h`. */
  function PrivateField(g: string, h: string, d: string): string {
    ((("uint8_t" + g) + "_private") + h) + ("[" + d + "]")
  }

  predicate MarkerBlanks(a: string, g: string, h: string, d: string, k: string, b: string) {
    && AllSpace(a) && g != [] && AllSpace(g) && AllSpace(h) && d != [] && AllDigit(d) && AllSpace(k) && AllSpace(b)
  }

  /** Only that field, inside blanks, with its semicolon or without. */
  predicate MarkerLaid(body: string, a: string, g: string, h: string, d: string, k: string, b: string) {
    && MarkerBlanks(a, g, h, d, k, b)
    && (|| body == a + (PrivateField(g, h, d) + b)
        || body == a + (((PrivateField(g, h, d) + k) + ";") + b))
  }

  /** The body of an opaque marker, in literals. */
  ghost predicate IsMarkerText(body: string) {
    exists a, g, h, d, k, b :: MarkerLaid(body, a, g, h, d, k, b)
  }

  lemma BaseParts(base: string, ctype: string, name: string) returns (g: string, h: string)
    requires var b := RStrip(base); var k := |b| - TailRun(b); k > |ctype| && b[k..] == name && RStrip(b[..k]) == ctype
    ensures base == ((ctype + g) + name) + h && g != [] && AllSpace(g) && AllSpace(h)
  {
    var b := RStrip(base);
    var k := |b| - TailRun(b);
    h := RStripSplit(base);
    g := RStripSplit(b[..k]);
    CutAt(b, k);
  }

  lemma MarkerFieldSplits(u: string) returns (g: string, h: string, d: string)
    requires IsMarkerField(u)
    ensures u == PrivateField(g, h, d) && g != [] && AllSpace(g) && AllSpace(h) && d != [] && AllDigit(d)
  {
    d := ArraySplits(u);
    g, h := BaseParts(ArraySuffix(u).value.0, "uint8_t", "_private");
  }

  lemma MarkerSplits(body: string)
    requires IsMarker(body)
    ensures IsMarkerText(body)
  {
    var a, k, b := EndSplits(body);
    var g, h, d := MarkerFieldSplits(WithoutEnd(body));
    assert MarkerLaid(body, a, g, h, d, k, b);
  }

  /** Which bodies are opaque markers, on any text. */
  lemma MarkerTextIff(body: string)
    ensures IsMarker(body) <==> IsMarkerText(body)
  {
    if IsMarker(body) { MarkerSplits(body); }
    if a, g, h, d, k, b :| MarkerLaid(body, a, g, h, d, k, b) { MarkerAny(a, g, h, d, k, b); }
  }

  // ---- printed structures, line by line ----

  /** The line of a field: four spaces, type, name, the size in brackets, a semicolon. */
  predicate IsFieldLine(l: string, f: Field) {
    match f.size
    case None => l == "    " + f.ctype + " " + f.name + ";"
    case Some(n) => l == "    " + f.ctype + " " + f.name + "[" + Decimal(n) + "]" + ";"
  }

  lemma FieldLine(f: Field)
    ensures IsFieldLine("    " + (PrintField(f) + ";"), f)
  {
    var base := f.ctype + " " + f.name;
    assert "    " + base == "    " + f.ctype + " " + f.name;
    match f.size
    case None =>
      assert base + "" == base;
      Assoc("    ", base, ";");
    case Some(n) =>
      SizedLine(base, Decimal(n));
  }

  lemma SizedLine(base: string, d: string)
    ensures "    " + ((base + ("[" + d + "]")) + ";") == ("    " + base) + "[" + d + "]" + ";"
  {
    assert base + ("[" + d + "]") == base + "[" + d + "]";
    assert "    " + (base + "[" + d + "]") == ("    " + base) + "[" + d + "]";
    Assoc("    ", base + "[" + d + "]", ";");
  }

  lemma {:induction false} BodyLines(opener: string, fs: seq<Field>) returns (lines: seq<string>)
    ensures |lines| == |fs| && (forall i :: 0 <= i < |fs| ==> IsFieldLine(lines[i], fs[i]))
    ensures Join([opener] + lines, "\n") == opener + PrintBody(fs)
    decreases |fs|
  {
    if fs == [] {
      lines := [];
      assert [opener] + lines == [opener] && opener + "" == opener;
    } else {
      var init, f := fs[..|fs| - 1], fs[|fs| - 1];
      var l := "    " + (PrintField(f) + ";");
      var ls := BodyLines(opener, init);
      FieldLine(f);
      lines := ls + [l];
      Assoc([opener], ls, [l]);
      JoinSnoc([opener] + ls, l, "\n");
      BodyMore(opener, PrintBody(init), PrintField(f) + ";");
    }
  }

  /** A structure is printed with a line for its opening, one for each field in order, and one
      for its handle. */
  lemma StructPrinted(handle: string, st: Struct) returns (lines: seq<string>)
    ensures |lines| == |st.fields| && (forall i :: 0 <= i < |lines| ==> IsFieldLine(lines[i], st.fields[i]))
    ensures PrintStruct(handle, st)
         == Join(["typedef struct " + (st.tag + " {")] + lines + ["} " + (handle + ";")], "\n")
  {
    var opener, close := "typedef struct " + (st.tag + " {"), "} " + (handle + ";");
    lines := BodyLines(opener, st.fields);
    JoinSnoc([opener] + lines, close, "\n");
    Assoc(opener, PrintBody(st.fields), "\n" + close);
    LayoutAssoc("typedef struct ", st.tag, PrintBody(st.fields), close);
  }
}
