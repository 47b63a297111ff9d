/** Value structures: the collector of the ABI parser and the printer of the Python binding
    generator. */
module ValueStructs {
  import opened Text
  import TopLevel
  import opened Params
  import opened Comments

  datatype Field = Field(name: string, ctype: string, size: Option<nat>)

  datatype Struct = Struct(tag: string, fields: seq<Field>)

  // ---- decimal numbers ----

  function Digit(c: char): nat
    requires IsDigit(c)
  {
    c as int - '0' as int
  }

  function DigitChar(n: nat): (c: char)
    requires n < 10
    ensures IsDigit(c) && Digit(c) == n
  {
    ('0' as int + n) as char
  }

  function Decimal(n: nat): string {
    if n < 10 then [DigitChar(n)] else Decimal(n / 10) + [DigitChar(n % 10)]
  }

  function ParseDecimal(s: string): nat
    requires AllDigit(s)
  {
    if s == [] then 0 else ParseDecimal(s[..|s| - 1]) * 10 + Digit(s[|s| - 1])
  }

  lemma {:induction false} DecimalRoundTrip(n: nat)
    ensures AllDigit(Decimal(n)) && Decimal(n) != [] && ParseDecimal(Decimal(n)) == n
  {
    var s := Decimal(n);
    if n < 10 {
      assert s[..0] == [];
    } else {
      DecimalRoundTrip(n / 10);
      assert s[..|s| - 1] == Decimal(n / 10);
    }
  }

  // ---- fields ----

  function DigitTail(s: string): (n: nat)
    ensures n <= |s|
  {
    if s == [] || !IsDigit(s[|s| - 1]) then 0 else 1 + DigitTail(s[..|s| - 1])
  }

  lemma {:induction false} DigitTailFacts(s: string)
    ensures AllDigit(s[|s| - DigitTail(s)..])
  {
    if s != [] && IsDigit(s[|s| - 1]) {
      var t, k := s[..|s| - 1], |s| - DigitTail(s);
      DigitTailFacts(t);
      assert s[k..] == t[k..] + [s[|s| - 1]];
    }
  }

  /** `base[digits]` taken apart. */
  function ArraySuffix(s: string): Option<(string, nat)> {
    if s == [] || s[|s| - 1] != ']' then None
    else
      var t := s[..|s| - 1];
      var k := |t| - DigitTail(t);
      if k == |t| || k == 0 || t[k - 1] != '[' then None
      else
        DigitTailFacts(t);
        Some((t[..k - 1], ParseDecimal(t[k..])))
  }

  predicate InType(c: char) {
    IsWord(c) || c == ' ' || c == '*' || c == '[' || c == ']'
  }

  predicate AllInType(s: string) {
    forall i :: 0 <= i < |s| ==> InType(s[i])
  }

  /** A type and a name: the name is the trailing word, the type is what stands before it,
      at least two characters long and without the blanks between them. */
  function TypeAndName(base: string, size: Option<nat>): Option<Field> {
    var k := |base| - TailRun(base);
    var x := base[..k];
    var l := if |RStrip(x)| < 2 then 2 else |RStrip(x)|;
    if k == |base| || l > k || !IsIdentStart(x[0]) || !AllInType(x[..l]) then None
    else Some(Field(base[k..], Strip(x[..l]), size))
  }

  /** One field, already trimmed. */
  function ParseField(line: string): Option<Field> {
    match ArraySuffix(line)
    case Some((base, n)) => TypeAndName(base, Some(n))
    case None => TypeAndName(line, None)
  }

  function PrintField(f: Field): string {
    f.ctype + " " + f.name + match f.size case None => "" case Some(n) => "[" + Decimal(n) + "]"
  }

  /** A field that could have been parsed. */
  predicate IsField(f: Field) {
    && f.name != [] && AllWord(f.name)
    && Trimmed(f.ctype) && AllInType(f.ctype) && IsIdentStart(f.ctype[0])
  }

  lemma {:induction false} DigitTailConcat(a: string, b: string)
    requires AllDigit(b) && (a == [] || !IsDigit(a[|a| - 1]))
    ensures DigitTail(a + b) == |b|
  {
    if b == [] {
      assert a + b == a;
    } else {
      assert (a + b)[..|a + b| - 1] == a + b[..|b| - 1];
      DigitTailConcat(a, b[..|b| - 1]);
    }
  }

  lemma BracketAt(base: string, d: string)
    ensures var s := base + ("[" + d + "]"); s[|s| - 1] == ']' && s[..|s| - 1] == (base + "[") + d
  {
  }

  lemma ArraySuffixIs(s: string, base: string, d: string)
    requires s != [] && s[|s| - 1] == ']' && s[..|s| - 1] == (base + "[") + d && AllDigit(d) && d != []
    ensures ArraySuffix(s) == Some((base, ParseDecimal(d)))
  {
    DigitTailConcat(base + "[", d);
    var t := (base + "[") + d;
    assert t[|base| + 1..] == d && t[..|base|] == base;
  }

  lemma ArraySuffixOf(base: string, n: nat)
    ensures ArraySuffix(base + ("[" + Decimal(n) + "]")) == Some((base, n))
  {
    DecimalRoundTrip(n);
    BracketAt(base, Decimal(n));
    ArraySuffixIs(base + ("[" + Decimal(n) + "]"), base, Decimal(n));
  }

  lemma TypeOf(ctype: string)
    requires Trimmed(ctype) && AllInType(ctype)
    ensures var x := ctype + " "; var l := if |RStrip(x)| < 2 then 2 else |RStrip(x)|;
            l <= |x| && AllInType(x[..l]) && Strip(x[..l]) == ctype
  {
    var x := ctype + " ";
    StripTrailing(ctype, " ");
    if |ctype| == 1 {
      assert x[..2] == "" + (ctype + " ");
      StripTrimmed("", ctype, " ");
    } else {
      assert x[..|ctype|] == "" + (ctype + "");
      StripTrimmed("", ctype, "");
    }
  }

  lemma TypeAndNameOf(f: Field)
    requires IsField(f)
    ensures TypeAndName(f.ctype + " " + f.name, f.size) == Some(f)
  {
    var x := f.ctype + " ";
    var base := x + f.name;
    TailRunConcat(x, f.name);
    assert base[..|x|] == x && base[|x|..] == f.name;
    TypeOf(f.ctype);
  }

  /** A printed field is parsed back, array size included. */
  lemma FieldRoundTrip(f: Field)
    requires IsField(f)
    ensures ParseField(PrintField(f)) == Some(f) && Trimmed(PrintField(f))
  {
    TypeAndNameOf(f);
    var base := f.ctype + " " + f.name;
    assert base[0] == f.ctype[0];
    match f.size
    case None =>
      assert PrintField(f) == base;
      assert base[|base| - 1] == f.name[|f.name| - 1];
    case Some(n) =>
      ArraySuffixOf(base, n);
  }

  lemma TypeIsTrimmed(pre: string)
    requires pre != [] && IsIdentStart(pre[0]) && AllInType(pre)
    ensures var t := Strip(pre); Trimmed(t) && AllInType(t) && IsIdentStart(t[0])
  {
    var a, b := StripSplits(pre);
    NoLead(pre, a, Strip(pre) + b);
    TopLevel.StripBlank(pre);
    assert forall i :: 0 <= i < |Strip(pre)| ==> Strip(pre)[i] == pre[i];
  }

  /** Whatever is parsed as a field could be printed and parsed again. */
  lemma ParsedIsField(line: string)
    requires ParseField(line).Some?
    ensures IsField(ParseField(line).value)
  {
    var base := match ArraySuffix(line) case Some((b, _)) => b case None => line;
    var k := |base| - TailRun(base);
    TailRunFacts(base);
    var x := base[..k];
    TypeIsTrimmed(x[..if |RStrip(x)| < 2 then 2 else |RStrip(x)|]);
  }

  /** A field survives printing and parsing exactly when it could have been parsed. */
  lemma FieldRoundTripIff(f: Field)
    ensures ParseField(PrintField(f)) == Some(f) <==> IsField(f)
  {
    if ParseField(PrintField(f)) == Some(f) {
      ParsedIsField(PrintField(f));
    }
    if IsField(f) {
      FieldRoundTrip(f);
    }
  }

  // ---- bodies ----

  function SplitOn(s: string, c: char): (r: seq<string>)
    ensures r != []
  {
    if s == [] then [""]
    else
      var r := SplitOn(s[..|s| - 1], c);
      if s[|s| - 1] == c then r + [""] else TopLevel.Extended(r, [s[|s| - 1]])
  }

  function FieldsIn(segments: seq<string>): seq<Field> {
    if segments == [] then []
    else
      var r, t := FieldsIn(segments[..|segments| - 1]), Strip(segments[|segments| - 1]);
      if t == "" then r else match ParseField(t) case None => r case Some(f) => r + [f]
  }

  /** A comment inside a body counts as one space. */
  function CleanBody(s: string): string {
    LinesToSpace(BlocksToSpace(s))
  }

  function BlocksToSpace(s: string): string
    decreases |s|
  {
    if s == [] then ""
    else if OpensBlock(s) && Find(s[2..], "*/").Some? then " " + BlocksToSpace(s[Find(s[2..], "*/").value + 4..])
    else [s[0]] + BlocksToSpace(s[1..])
  }

  function LinesToSpace(s: string): string
    decreases |s|
  {
    if s == [] then ""
    else if OpensLine(s) then " " + LinesToSpace(s[2..][IndexOf(s[2..], '\n')..])
    else [s[0]] + LinesToSpace(s[1..])
  }

  function FieldsOf(body: string): seq<Field> {
    FieldsIn(SplitOn(CleanBody(body), ';'))
  }

  /** `uint8_t _private[N];` and nothing else: the body of an opaque marker. */
  predicate IsMarker(body: string) {
    IsMarkerField(WithoutEnd(body))
  }

  /** The body trimmed, without its last semicolon and the blanks before it. */
  function WithoutEnd(body: string): string {
    var t := Strip(body);
    if t != [] && t[|t| - 1] == ';' then RStrip(t[..|t| - 1]) else t
  }

  predicate IsMarkerField(u: string) {
    IsArrayOf(u, "uint8_t", "_private")
  }

  predicate IsArrayOf(u: string, ctype: string, name: string) {
    match ArraySuffix(u)
    case None => false
    case Some((base, _)) =>
      var b := RStrip(base);
      var k := |b| - TailRun(b);
      k > |ctype| && b[k..] == name && RStrip(b[..k]) == ctype
  }

  // ---- structures in a header ----

  datatype Found = Found(tag: string, body: string, handle: string, len: nat)

  const OPENER := "typedef struct "

  predicate IsHandle(h: string) {
    |h| > 5 && AllWord(h) && At(h, 0, "lr_") && At(h, |h| - 2, "_t")
  }

  /** A body up to its brace and a handle up to its semicolon, with the length of what follows. */
  function Closing(v: string): (r: Option<(string, string, nat)>)
    ensures r.Some? ==> r.value.2 < |v|
  {
    var e := IndexOf(v, '}');
    if e == |v| then None
    else
      var w := v[e + 1..];
      var h := w[SpaceRun(w)..];
      var n := WordRun(h);
      if n == |h| || h[n] != ';' || !IsHandle(h[..n]) then None
      else Some((v[..e], h[..n], |h| - n - 1))
  }

  /** What follows the opening words: tag, body, handle and the length of what is left. */
  function Described(t: string): (r: Option<(string, string, string, nat)>)
    ensures r.Some? ==> r.value.3 < |t|
  {
    var n := WordRun(t);
    if n == 0 || !StartsWith(t[n..], " {") then None
    else
      match Closing(t[n..][2..])
      case None => None
      case Some((body, handle, left)) => Some((t[..n], body, handle, left))
  }

  /** A match that starts with `opener`; `desc` reads what follows it. */
  function MatchWith(desc: string -> Option<(string, string, string, nat)>, opener: string,
                     s: string): (r: Option<Found>)
    ensures r.Some? ==> 0 < r.value.len <= |s|
  {
    if !StartsWith(s, opener) then None
    else
      match desc(s[|opener|..])
      case None => None
      case Some((tag, body, handle, left)) => if left < |s| then Some(Found(tag, body, handle, |s| - left)) else None
  }

  /** A structure typedef at the start of `s`. */
  function MatchStruct(s: string): Option<Found> {
    MatchWith(Described, OPENER, s)
  }

  /** What a structure enters in the table; opaque markers enter nothing. */
  function Enter(out: map<string, Struct>, m: Found): map<string, Struct> {
    if IsMarker(m.body) then out else out[m.handle := Struct(m.tag, FieldsOf(m.body))]
  }

  predicate Fits(pat: string -> Option<Found>, s: string) {
    pat(s).Some? && 0 < pat(s).value.len <= |s|
  }

  /** Folding `enter` over the matches of a pattern anchored at line starts, from left to
      right and without overlap; `bol` says whether a line starts here. */
  function FoldMatches<A>(pat: string -> Option<Found>, enter: (A, Found) -> A, out: A, bol: bool, s: string): A
    decreases |s|
  {
    if s == [] then out
    else if bol && Fits(pat, s) then FoldMatches(pat, enter, enter(out, pat(s).value), false, s[pat(s).value.len..])
    else FoldMatches(pat, enter, out, s[0] == '\n', s[1..])
  }

  method FindIter<A>(pat: string -> Option<Found>, enter: (A, Found) -> A, init: A, text: string) returns (out: A)
    ensures out == FoldMatches(pat, enter, init, true, text)
  {
    out := init;
    var i, bol := 0, true;
    assert text[0..] == text;
    while i < |text|
      invariant 0 <= i <= |text|
      invariant FoldMatches(pat, enter, out, bol, text[i..]) == FoldMatches(pat, enter, init, true, text)
    {
      if bol && Fits(pat, text[i..]) {
        var m := pat(text[i..]).value;
        DropDrop(text, i, m.len);
        out := enter(out, m);
        i, bol := i + m.len, false;
      } else {
        DropDrop(text, i, 1);
        i, bol := i + 1, text[i] == '\n';
      }
    }
  }

  /** The value structures of a header, by handle; a later one overrides an earlier one. */
  function StructsOf(text: string): map<string, Struct> {
    FoldMatches(MatchStruct, Enter, map[], true, text)
  }

  // ---- aliases ----

  const ALIAS_OPENER := "typedef struct"

  predicate IsAlias(h: string) {
    |h| > 3 && AllWord(h) && At(h, 0, "lr_")
  }

  /** A blank, an alias and a semicolon, with the length of what follows. */
  function AliasAfter(v: string): (r: Option<(string, nat)>)
    ensures r.Some? ==> r.value.1 < |v|
  {
    var w := v[SpaceRun(v)..];
    var m := WordRun(w);
    if SpaceRun(v) == 0 || !IsAlias(w[..m]) || m == |w| || w[m] != ';' then None else Some((w[..m], |w| - m - 1))
  }

  /** A handle and what is behind it. */
  function HandleThen(u: string): (r: Option<(string, string, string, nat)>)
    ensures r.Some? ==> r.value.3 < |u|
  {
    var n := WordRun(u);
    if !IsHandle(u[..n]) then None
    else match AliasAfter(u[n..]) case None => None case Some((alias, left)) => Some((u[..n], "", alias, left))
  }

  /** A blank, a handle, a blank, an alias and a semicolon. */
  function Aliased(t: string): (r: Option<(string, string, string, nat)>)
    ensures r.Some? ==> r.value.3 < |t|
  {
    if SpaceRun(t) == 0 then None else HandleThen(t[SpaceRun(t)..])
  }

  /** An alias typedef at the start of `s`. */
  function MatchAlias(s: string): Option<Found> {
    MatchWith(Aliased, ALIAS_OPENER, s)
  }

  /** An alias of a known structure enters it once more, unless its name is taken. */
  function EnterAlias(out: map<string, Struct>, m: Found): map<string, Struct> {
    if m.tag in out && m.handle !in out then out[m.handle := out[m.tag]] else out
  }

  /** The value structures of a header and their aliases. */
  function TableOf(text: string): map<string, Struct> {
    FoldMatches(MatchAlias, EnterAlias, StructsOf(text), true, text)
  }

  method CollectValueStructs(text: string) returns (out: map<string, Struct>)
    ensures out == TableOf(text)
  {
    out := FindIter(MatchStruct, Enter, map[], text);
    out := FindIter(MatchAlias, EnterAlias, out, text);
  }

  ghost predicate Known(s: map<string, Struct>, st: Struct) {
    exists k :: k in s && s[k] == st
  }

  /** `t` answers everything `s` answers, and with nothing that `s` does not know. */
  ghost predicate Renames(s: map<string, Struct>, t: map<string, Struct>) {
    (forall k :: k in s ==> k in t && t[k] == s[k]) && (forall k :: k in t ==> Known(s, t[k]))
  }

  lemma RenamesSelf(s: map<string, Struct>)
    ensures Renames(s, s)
  {
    forall k | k in s ensures Known(s, s[k]) {}
  }

  lemma RenamesOnce(s: map<string, Struct>, t: map<string, Struct>, m: Found)
    requires Renames(s, t)
    ensures Renames(s, EnterAlias(t, m))
  {
    var r := EnterAlias(t, m);
    if m.tag in t && m.handle !in t {
      assert Known(s, t[m.tag]);
      forall k | k in r ensures Known(s, r[k]) { assert k == m.handle || r[k] == t[k]; }
    }
  }

  lemma {:induction false} FoldRenames(s: map<string, Struct>, t: map<string, Struct>, pat: string -> Option<Found>,
                                       bol: bool, text: string)
    requires Renames(s, t)
    ensures Renames(s, FoldMatches(pat, EnterAlias, t, bol, text))
    decreases |text|
  {
    if text != [] {
      if bol && Fits(pat, text) {
        RenamesOnce(s, t, pat(text).value);
        FoldRenames(s, EnterAlias(t, pat(text).value), pat, false, text[pat(text).value.len..]);
      } else {
        FoldRenames(s, t, pat, text[0] == '\n', text[1..]);
      }
    }
  }

  /** On any text, aliases override no structure and stand for structures that were found. */
  lemma AliasesOnlyRename(text: string)
    ensures Renames(StructsOf(text), TableOf(text))
  {
    RenamesSelf(StructsOf(text));
    FoldRenames(StructsOf(text), StructsOf(text), MatchAlias, true, text);
  }

  // ---- printing ----

  function PrintBody(fs: seq<Field>): string {
    if fs == [] then "" else PrintBody(fs[..|fs| - 1]) + ("\n    " + (PrintField(fs[|fs| - 1]) + ";"))
  }

  function Layout(opener: string, tag: string, body: string, handle: string): string {
    opener + (tag + (" {" + (body + ("} " + (handle + ";")))))
  }

  function PrintStruct(handle: string, st: Struct): string {
    Layout(OPENER, st.tag, PrintBody(st.fields) + "\n", handle)
  }

  lemma BodyMore(opener: string, body: string, p: string)
    ensures (opener + body) + ("\n" + ("    " + p)) == opener + (body + ("\n    " + p))
  {
    Assoc("\n", "    ", p);
    Assoc(opener, body, "\n    " + p);
  }

  method RenderLines(opener: string, fields: seq<Field>, close: string) returns (text: string)
    ensures text == opener + (PrintBody(fields) + ("\n" + close))
  {
    var lines := [opener];
    assert opener + "" == opener;
    for i := 0 to |fields|
      invariant lines != [] && Join(lines, "\n") == opener + PrintBody(fields[..i])
    {
      var p := PrintField(fields[i]) + ";";
      JoinSnoc(lines, "    " + p, "\n");
      lines := lines + ["    " + p];
      assert fields[..i + 1][..i] == fields[..i];
      BodyMore(opener, PrintBody(fields[..i]), p);
    }
    assert fields[..|fields|] == fields;
    JoinSnoc(lines, close, "\n");
    text := Join(lines + [close], "\n");
    Assoc(opener, PrintBody(fields), "\n" + close);
  }

  method RenderStruct(handle: string, st: Struct) returns (text: string)
    ensures text == PrintStruct(handle, st)
  {
    text := RenderLines(OPENER + (st.tag + " {"), st.fields, "} " + (handle + ";"));
    LayoutAssoc(OPENER, st.tag, PrintBody(st.fields), "} " + (handle + ";"));
  }

  lemma LayoutAssoc(opener: string, tag: string, body: string, close: string)
    ensures (opener + (tag + " {")) + (body + ("\n" + close)) == opener + (tag + (" {" + ((body + "\n") + close)))
  {
    Assoc(body, "\n", close);
    Assoc(tag, " {", body + ("\n" + close));
    Assoc(opener, tag + " {", body + ("\n" + close));
  }

  // ---- reading a printed body ----

  lemma {:induction false} SplitOnQuiet(s: string, t: string, c: char)
    requires c !in t
    ensures SplitOn(s + t, c) == TopLevel.Extended(SplitOn(s, c), t)
  {
    var r := SplitOn(s, c);
    if t == [] {
      assert s + t == s && TopLevel.LastOf(r) + t == TopLevel.LastOf(r);
    } else {
      var u := t[..|t| - 1];
      assert (s + t)[..|s + t| - 1] == s + u;
      SplitOnQuiet(s, u, c);
      assert u + [t[|t| - 1]] == t;
      Assoc(TopLevel.LastOf(r), u, [t[|t| - 1]]);
    }
  }

  lemma {:induction false} DecimalInType(n: nat)
    ensures AllInType(Decimal(n))
  {
    if n >= 10 { DecimalInType(n / 10); }
  }

  lemma PrintedInType(f: Field)
    requires IsField(f)
    ensures AllInType(PrintField(f))
  {
    if f.size.Some? { DecimalInType(f.size.value); }
  }

  lemma PrintBodySnoc(fs: seq<Field>)
    requires fs != []
    ensures PrintBody(fs) == (PrintBody(fs[..|fs| - 1]) + ("\n    " + PrintField(fs[|fs| - 1]))) + ";"
  {
    var b, p := PrintBody(fs[..|fs| - 1]), PrintField(fs[|fs| - 1]);
    Assoc("\n    ", p, ";");
    Assoc(b, "\n    " + p, ";");
  }

  ghost predicate AllFields(fs: seq<Field>) {
    forall i :: 0 <= i < |fs| ==> IsField(fs[i])
  }

  lemma PrintedLacks(c: char, f: Field)
    requires IsField(f) && !InType(c)
    ensures c !in PrintField(f)
  {
    PrintedInType(f);
  }

  lemma SegmentOf(f: Field)
    requires IsField(f)
    ensures var t := "\n    " + PrintField(f); ';' !in t && Strip(t) == PrintField(f)
  {
    PrintedLacks(';', f);
    PrintedIsTrimmed(f);
    Indentation();
    Indented("\n    ", PrintField(f));
  }

  lemma PrintedIsTrimmed(f: Field)
    requires IsField(f)
    ensures Trimmed(PrintField(f))
  {
    FieldRoundTrip(f);
  }

  lemma Indentation()
    ensures AllSpace("\n    ") && ';' !in "\n    "
  {
  }

  lemma Indented(w: string, p: string)
    requires AllSpace(w) && Trimmed(p) && ';' !in p && ';' !in w
    ensures ';' !in w + p && Strip(w + p) == p
  {
    NotInConcat(';', w, p);
    StripTrimmed(w, p, "");
    assert p + "" == p;
  }

  lemma SplitAfter(b: string, r: seq<string>, t: string)
    requires SplitOn(b, ';') == r + [""] && ';' !in t
    ensures SplitOn(b + t, ';') == r + [t] && SplitOn((b + t) + ";", ';') == (r + [t]) + [""]
  {
    SplitOnQuiet(b, t, ';');
    assert "" + t == t;
    assert TopLevel.Extended(r + [""], t) == r + [t];
    var s := b + t;
    assert (s + ";")[..|s|] == s;
  }

  lemma FieldsSnoc(r: seq<string>, t: string)
    ensures FieldsIn(r + [t]) == if Strip(t) == "" then FieldsIn(r)
                                 else
                                   match ParseField(Strip(t))
                                   case None => FieldsIn(r)
                                   case Some(f) => FieldsIn(r) + [f]
  {
    assert (r + [t])[..|r|] == r;
  }

  lemma {:induction false} SegmentsOfBody(fs: seq<Field>) returns (segs: seq<string>)
    requires AllFields(fs)
    ensures SplitOn(PrintBody(fs), ';') == segs + [""] && FieldsIn(segs) == fs
  {
    if fs == [] {
      segs := [];
    } else {
      var init, f := fs[..|fs| - 1], fs[|fs| - 1];
      assert fs == init + [f];
      var r := SegmentsOfBody(init);
      SegmentOf(f);
      SplitAfter(PrintBody(init), r, "\n    " + PrintField(f));
      PrintBodySnoc(fs);
      FieldRoundTrip(f);
      FieldsSnoc(r, "\n    " + PrintField(f));
      segs := r + ["\n    " + PrintField(f)];
    }
  }

  lemma NotInConcat(c: char, a: string, b: string)
    requires c !in a && c !in b
    ensures c !in a + b
  {
  }

  lemma {:induction false} BodyLacks(c: char, fs: seq<Field>)
    requires AllFields(fs) && !InType(c) && !IsSpace(c) && c != ';'
    ensures c !in PrintBody(fs)
  {
    if fs != [] {
      var p := PrintField(fs[|fs| - 1]);
      BodyLacks(c, fs[..|fs| - 1]);
      PrintedInType(fs[|fs| - 1]);
      NotInConcat(c, p, ";");
      NotInConcat(c, "\n    ", p + ";");
      NotInConcat(c, PrintBody(fs[..|fs| - 1]), "\n    " + (p + ";"));
    }
  }

  lemma {:induction false} CleanPlain(s: string)
    requires '/' !in s
    ensures BlocksToSpace(s) == s && LinesToSpace(s) == s
  {
    if s != [] { CleanPlain(s[1..]); }
  }

  lemma PlainFields(b: string, segs: seq<string>)
    requires '/' !in b && SplitOn(b, ';') == segs + [""]
    ensures FieldsOf(b + "\n") == FieldsIn(segs)
  {
    NotInConcat('/', b, "\n");
    CleanPlain(b + "\n");
    SplitAfter(b, segs, "\n");
    TopLevel.StripBlank("\n");
    FieldsSnoc(segs, "\n");
  }

  /** The fields of a printed body are the fields that were printed, in order. */
  lemma BodyRoundTrip(fs: seq<Field>)
    requires AllFields(fs)
    ensures FieldsOf(PrintBody(fs) + "\n") == fs
  {
    BodyLacks('/', fs);
    var segs := SegmentsOfBody(fs);
    PlainFields(PrintBody(fs), segs);
  }

  // ---- which printed bodies are opaque markers ----

  predicate MarkerFields(fs: seq<Field>) {
    |fs| == 1 && fs[0].name == "_private" && fs[0].ctype == "uint8_t" && fs[0].size.Some?
  }

  lemma ArrayOfField(f: Field, ctype: string, name: string)
    requires IsField(f) && f.size.Some?
    ensures IsArrayOf(PrintField(f), ctype, name) <==> f.ctype == ctype && f.name == name
  {
    var x := f.ctype + " ";
    var base := x + f.name;
    ArraySuffixOf(base, f.size.value);
    assert base[|base| - 1] == f.name[|f.name| - 1];
    TailRunConcat(x, f.name);
    assert base[..|x|] == x && base[|x|..] == f.name;
    StripTrailing(f.ctype, " ");
  }

  lemma MarkerFieldOf(f: Field)
    requires IsField(f)
    ensures IsMarkerField(PrintField(f)) <==> MarkerFields([f])
  {
    if f.size.Some? {
      ArrayOfField(f, "uint8_t", "_private");
    } else {
      var p := PrintField(f);
      assert p[|p| - 1] == f.name[|f.name| - 1];
    }
  }

  lemma TrimmedLacks(c: char, s: string)
    requires c !in RStrip(s) && !IsSpace(c)
    ensures c !in s
  {
    var w := RStripSplit(s);
    NotInConcat(c, RStrip(s), w);
  }

  lemma PartsLack(c: char, b: string, k: nat)
    requires k <= |b| && c !in b[..k] && c !in b[k..]
    ensures c !in b
  {
    assert b == b[..k] + b[k..];
  }

  lemma BaseLacks(c: char, base: string, k: nat)
    requires k <= |RStrip(base)| && !IsSpace(c) && c !in RStrip(RStrip(base)[..k]) && c !in RStrip(base)[k..]
    ensures c !in base
  {
    TrimmedLacks(c, RStrip(base)[..k]);
    PartsLack(c, RStrip(base), k);
    TrimmedLacks(c, base);
  }

  lemma ArrayParts(u: string) returns (d: string)
    requires ArraySuffix(u).Some?
    ensures AllDigit(d) && u == ArraySuffix(u).value.0 + ("[" + (d + "]"))
  {
    var t := u[..|u| - 1];
    var k := |t| - DigitTail(t);
    DigitTailFacts(t);
    d := t[k..];
    assert t == t[..k - 1] + ("[" + d);
    assert u == t + "]";
  }

  lemma ArrayLacks(c: char, u: string, ctype: string, name: string)
    requires IsArrayOf(u, ctype, name) && c !in ctype && c !in name && !InType(c) && !IsSpace(c)
    ensures c !in u
  {
    var base := ArraySuffix(u).value.0;
    var d := ArrayParts(u);
    BaseLacks(c, base, |RStrip(base)| - TailRun(RStrip(base)));
    NotInConcat(c, d, "]");
    NotInConcat(c, "[", d + "]");
    NotInConcat(c, base, "[" + (d + "]"));
  }

  lemma MarkerIsQuiet(u: string)
    requires IsMarkerField(u)
    ensures ';' !in u
  {
    ArrayLacks(';', u, "uint8_t", "_private");
  }

  /** A printed body is one trimmed text after its first indentation. */
  lemma {:induction false} BodyCore(fs: seq<Field>) returns (core: string)
    requires AllFields(fs) && fs != []
    ensures PrintBody(fs) == "\n    " + core && Trimmed(core) && core[|core| - 1] == ';'
    ensures if |fs| == 1 then core == PrintField(fs[0]) + ";" else ';' in core[..|core| - 1]
  {
    var init, p := fs[..|fs| - 1], PrintField(fs[|fs| - 1]) + ";";
    if |fs| == 1 {
      core := p;
      PrintedCore(fs[0]);
      assert PrintBody(init) == "";
      assert "" + ("\n    " + core) == "\n    " + core;
    } else {
      var c := BodyCore(init);
      core := CoreMore(c, p);
    }
  }

  lemma PrintedCore(f: Field)
    requires IsField(f)
    ensures Trimmed(PrintField(f) + ";")
  {
    FieldRoundTrip(f);
  }

  lemma CoreMore(c: string, q: string) returns (core: string)
    requires Trimmed(c) && c[|c| - 1] == ';' && q != [] && q[|q| - 1] == ';'
    ensures ("\n    " + c) + ("\n    " + q) == "\n    " + core
    ensures Trimmed(core) && core[|core| - 1] == ';' && ';' in core[..|core| - 1]
  {
    core := c + ("\n    " + q);
    Assoc("\n    ", c, "\n    " + q);
    assert core[..|core| - 1][|c| - 1] == ';';
  }

  lemma MarkerCore(core: string)
    requires Trimmed(core) && core[|core| - 1] == ';'
    ensures IsMarker(("\n    " + core) + "\n") == IsMarkerField(RStrip(core[..|core| - 1]))
  {
    Assoc("\n    ", core, "\n");
    StripTrimmed("\n    ", core, "\n");
  }

  lemma MarkerOfOne(core: string, f: Field)
    requires IsField(f) && core == PrintField(f) + ";"
    ensures IsMarkerField(RStrip(core[..|core| - 1])) <==> MarkerFields([f])
  {
    FieldRoundTrip(f);
    assert core[..|core| - 1] == PrintField(f) + "";
    StripTrailing(PrintField(f), "");
    MarkerFieldOf(f);
  }

  lemma NoMarkerWithSemicolon(x: string)
    requires ';' in x
    ensures !IsMarkerField(RStrip(x))
  {
    var w := RStripSplit(x);
    if IsMarkerField(RStrip(x)) {
      MarkerIsQuiet(RStrip(x));
      NotInConcat(';', RStrip(x), w);
    }
  }

  /** A printed body reads as the opaque marker exactly for the marker's own field list. */
  lemma MarkerIff(fs: seq<Field>)
    requires AllFields(fs)
    ensures IsMarker(PrintBody(fs) + "\n") <==> MarkerFields(fs)
  {
    if fs == [] {
      assert "" + "\n" == "\n";
      TopLevel.StripBlank("\n");
    } else {
      var core := BodyCore(fs);
      MarkerCore(core);
      if |fs| == 1 {
        MarkerOfOne(core, fs[0]);
      } else {
        NoMarkerWithSemicolon(core[..|core| - 1]);
      }
    }
  }

  // ---- reading printed structures ----

  lemma BraceAt(body: string, t: string)
    requires '}' !in body
    ensures var v := body + ("} " + t); IndexOf(v, '}') == |body| && v[..|body|] == body && v[|body| + 1..] == " " + t
  {
    IndexOfFinds(body, '}');
    IndexOfConcat(body, "} " + t, '}');
  }

  lemma ClosingOf(body: string, h: string, rest: string)
    requires '}' !in body && IsHandle(h)
    ensures Closing(body + ("} " + (h + (";" + rest)))) == Some((body, h, |rest|))
  {
    var t := h + (";" + rest);
    BraceAt(body, t);
    SpaceRunConcat(" ", t);
    assert (" " + t)[1..] == t;
    WordRunConcat(h, ";" + rest);
    assert t[..|h|] == h;
  }

  lemma DescribedOf(tag: string, v: string)
    requires tag != [] && AllWord(tag) && Closing(v).Some?
    ensures var (body, h, left) := Closing(v).value; Described(tag + (" {" + v)) == Some((tag, body, h, left))
  {
    var t := tag + (" {" + v);
    WordRunConcat(tag, " {" + v);
    assert t[|tag|..] == " {" + v && t[..|tag|] == tag;
    assert (" {" + v)[2..] == v;
  }

  lemma LayoutRest(opener: string, tag: string, body: string, handle: string, rest: string)
    ensures Layout(opener, tag, body, handle) + rest
         == opener + (tag + (" {" + (body + ("} " + (handle + (";" + rest))))))
  {
    Assoc(handle, ";", rest);
    Assoc("} ", handle + ";", rest);
    Assoc(body, "} " + (handle + ";"), rest);
    Assoc(" {", body + ("} " + (handle + ";")), rest);
    Assoc(tag, " {" + (body + ("} " + (handle + ";"))), rest);
    Assoc(opener, tag + (" {" + (body + ("} " + (handle + ";")))), rest);
  }

  lemma AfterOpener(opener: string, t: string)
    ensures StartsWith(opener + t, opener) && (opener + t)[|opener|..] == t
  {
  }

  lemma MatchWithOf(desc: string -> Option<(string, string, string, nat)>, opener: string, t: string)
    ensures MatchWith(desc, opener, opener + t)
         == match desc(t)
            case None => None
            case Some((tag, body, handle, left)) =>
              if left < |opener + t| then Some(Found(tag, body, handle, |opener + t| - left)) else None
  {
    AfterOpener(opener, t);
  }

  lemma LayoutDescribed(tag: string, body: string, handle: string, rest: string)
    requires tag != [] && AllWord(tag) && '}' !in body && IsHandle(handle)
    ensures Described(tag + (" {" + (body + ("} " + (handle + (";" + rest)))))) == Some((tag, body, handle, |rest|))
  {
    ClosingOf(body, handle, rest);
    DescribedOf(tag, body + ("} " + (handle + (";" + rest))));
  }

  lemma LayoutRead(opener: string, tag: string, body: string, handle: string, rest: string)
    requires tag != [] && AllWord(tag) && '}' !in body && IsHandle(handle)
    ensures var p := Layout(opener, tag, body, handle);
            p != [] && MatchWith(Described, opener, p + rest) == Some(Found(tag, body, handle, |p|))
  {
    LayoutDescribed(tag, body, handle, rest);
    LayoutRest(opener, tag, body, handle, rest);
    MatchedWhole(Described, opener, Layout(opener, tag, body, handle), rest,
                 tag + (" {" + (body + ("} " + (handle + (";" + rest))))), tag, body, handle);
  }

  lemma MatchedWhole(desc: string -> Option<(string, string, string, nat)>, opener: string, p: string, rest: string,
                     t: string, tag: string, body: string, handle: string)
    requires p != [] && p + rest == opener + t && desc(t) == Some((tag, body, handle, |rest|))
    ensures MatchWith(desc, opener, p + rest) == Some(Found(tag, body, handle, |p|))
  {
    MatchWithOf(desc, opener, t);
  }

  /** A structure the binding generator could have been given. */
  ghost predicate IsStruct(handle: string, st: Struct) {
    st.tag != [] && AllWord(st.tag) && IsHandle(handle) && AllFields(st.fields)
  }

  /** A printed structure is found at its place, whatever follows it. */
  lemma StructRead(handle: string, st: Struct, rest: string)
    requires IsStruct(handle, st)
    ensures MatchStruct(PrintStruct(handle, st) + rest)
         == Some(Found(st.tag, PrintBody(st.fields) + "\n", handle, |PrintStruct(handle, st)|))
  {
    BodyLacks('}', st.fields);
    NotInConcat('}', PrintBody(st.fields), "\n");
    LayoutRead(OPENER, st.tag, PrintBody(st.fields) + "\n", handle, rest);
  }

  // ---- lists of structures ----

  datatype Entry = Entry(handle: string, st: Struct)

  ghost predicate AllStructs(es: seq<Entry>) {
    forall i :: 0 <= i < |es| ==> IsStruct(es[i].handle, es[i].st)
  }

  /** The printed list, one structure after the other. */
  function PrintStructs(es: seq<Entry>): string {
    if es == [] then ""
    else if |es| == 1 then PrintStruct(es[0].handle, es[0].st)
    else PrintStruct(es[0].handle, es[0].st) + ("\n" + PrintStructs(es[1..]))
  }

  function EnterEntry(out: map<string, Struct>, e: Entry): map<string, Struct> {
    if MarkerFields(e.st.fields) then out else out[e.handle := e.st]
  }

  /** The table of a list, opaque markers excepted. */
  function Table(out: map<string, Struct>, es: seq<Entry>): map<string, Struct>
    decreases es
  {
    if es == [] then out
    else Table(EnterEntry(out, es[0]), es[1..])
  }

  lemma EnterPrinted(out: map<string, Struct>, handle: string, st: Struct, n: nat)
    requires IsStruct(handle, st)
    ensures Enter(out, Found(st.tag, PrintBody(st.fields) + "\n", handle, n))
         == EnterEntry(out, Entry(handle, st))
  {
    MarkerIff(st.fields);
    BodyRoundTrip(st.fields);
  }

  lemma FoldOne<A>(pat: string -> Option<Found>, enter: (A, Found) -> A, out: A, p: string, rest: string)
    requires p != [] && pat(p + rest).Some? && pat(p + rest).value.len == |p|
    ensures FoldMatches(pat, enter, out, true, p + rest)
         == FoldMatches(pat, enter, enter(out, pat(p + rest).value), false, rest)
  {
    DropConcat(p, rest, |p|);
    assert p[|p|..] + rest == rest;
  }

  lemma FoldBreak<A>(pat: string -> Option<Found>, enter: (A, Found) -> A, out: A, rest: string)
    ensures FoldMatches(pat, enter, out, false, "\n" + rest) == FoldMatches(pat, enter, out, true, rest)
  {
    DropConcat("\n", rest, 1);
    assert "\n"[1..] + rest == rest;
  }

  lemma FoldStruct(out: map<string, Struct>, e: Entry, rest: string)
    requires IsStruct(e.handle, e.st)
    ensures FoldMatches(MatchStruct, Enter, out, true, PrintStruct(e.handle, e.st) + rest)
         == FoldMatches(MatchStruct, Enter, EnterEntry(out, e), false, rest)
  {
    var p := PrintStruct(e.handle, e.st);
    StructRead(e.handle, e.st, rest);
    FoldOne(MatchStruct, Enter, out, p, rest);
    EnterPrinted(out, e.handle, e.st, |p|);
  }

  lemma {:induction false} TableRead(out: map<string, Struct>, es: seq<Entry>)
    requires AllStructs(es)
    ensures FoldMatches(MatchStruct, Enter, out, true, PrintStructs(es)) == Table(out, es)
    decreases es
  {
    if |es| == 1 {
      assert PrintStructs(es) + "" == PrintStructs(es);
      FoldStruct(out, es[0], "");
    } else if |es| > 1 {
      FoldStruct(out, es[0], "\n" + PrintStructs(es[1..]));
      FoldBreak(MatchStruct, Enter, EnterEntry(out, es[0]), PrintStructs(es[1..]));
      TableRead(EnterEntry(out, es[0]), es[1..]);
    }
  }

  // ---- no aliases in printed structures ----

  lemma {:induction false} FoldPart<A>(pat: string -> Option<Found>, enter: (A, Found) -> A, out: A, line: string,
                                       t: string)
    requires '\n' !in line
    ensures FoldMatches(pat, enter, out, false, line + t) == FoldMatches(pat, enter, out, false, t)
  {
    if line == [] {
      assert line + t == t;
    } else {
      DropConcat(line, t, 1);
      FoldPart(pat, enter, out, line[1..], t);
    }
  }

  lemma FoldStart<A>(pat: string -> Option<Found>, enter: (A, Found) -> A, out: A, line: string, t: string)
    requires line != [] && '\n' !in line && !Fits(pat, line + t)
    ensures FoldMatches(pat, enter, out, true, line + t) == FoldMatches(pat, enter, out, false, t)
  {
    DropConcat(line, t, 1);
    FoldPart(pat, enter, out, line[1..], t);
  }

  lemma OtherLetter(s: string)
    requires s != [] && s[0] != 't'
    ensures MatchAlias(s).None?
  {
    if StartsWith(s, ALIAS_OPENER) { AtChar(s, 0, ALIAS_OPENER, 0); }
  }

  lemma NoAliasOf(tag: string, r: string)
    requires tag != [] && AllWord(tag)
    ensures Aliased(" " + (tag + (" {" + r))).None?
  {
    var u := tag + (" {" + r);
    SpaceRunConcat(" ", u);
    assert (" " + u)[1..] == u;
    WordRunConcat(tag, " {" + r);
    assert u[|tag|..] == " {" + r;
    NoAliasAtBrace(r);
  }

  lemma NoAliasAtBrace(r: string)
    ensures AliasAfter(" {" + r).None?
  {
    var v, w := " {" + r, "{" + r;
    assert v == " " + w && w[0] == '{';
    SpaceRunConcat(" ", w);
    assert v[1..] == w;
    assert WordRun(w) == 0;
  }

  lemma OpenerIsNoAlias(tag: string, r: string)
    requires tag != [] && AllWord(tag)
    ensures MatchAlias((OPENER + (tag + " {")) + r).None?
  {
    var s := (OPENER + (tag + " {")) + r;
    assert OPENER == ALIAS_OPENER + " ";
    assert s == ALIAS_OPENER + (" " + (tag + (" {" + r)));
    assert s[|ALIAS_OPENER|..] == " " + (tag + (" {" + r));
    NoAliasOf(tag, r);
  }

  lemma {:induction false} FoldBody(out: map<string, Struct>, fs: seq<Field>, t: string)
    requires AllFields(fs)
    ensures FoldMatches(MatchAlias, EnterAlias, out, false, PrintBody(fs) + ("\n" + t))
         == FoldMatches(MatchAlias, EnterAlias, out, true, t)
    decreases |fs|
  {
    if fs == [] {
      assert PrintBody(fs) + ("\n" + t) == "\n" + t;
    } else {
      var init, line := fs[..|fs| - 1], "    " + (PrintField(fs[|fs| - 1]) + ";");
      FieldLine(fs[|fs| - 1]);
      FoldBody(out, init, line + ("\n" + t));
      OtherLetter(line + ("\n" + t));
      FoldStart(MatchAlias, EnterAlias, out, line, "\n" + t);
      BodyBefore(PrintBody(init), PrintField(fs[|fs| - 1]) + ";", "\n" + t);
    }
    FoldBreak(MatchAlias, EnterAlias, out, t);
  }

  lemma FieldLine(f: Field)
    requires IsField(f)
    ensures var line := "    " + (PrintField(f) + ";"); '\n' !in line && line[0] == ' '
  {
    PrintedLacks('\n', f);
    NotInConcat('\n', PrintField(f), ";");
    NotInConcat('\n', "    ", PrintField(f) + ";");
  }

  lemma BodyBefore(b: string, p: string, t: string)
    ensures (b + ("\n    " + p)) + t == b + ("\n" + (("    " + p) + t))
  {
    Assoc("\n", "    ", p);
    assert "\n" + "    " == "\n    ";
    Assoc("\n", "    " + p, t);
    Assoc(b, "\n    " + p, t);
  }

  lemma FoldClosing(out: map<string, Struct>, handle: string, rest: string)
    requires IsHandle(handle)
    ensures FoldMatches(MatchAlias, EnterAlias, out, true, ("} " + (handle + ";")) + rest)
         == FoldMatches(MatchAlias, EnterAlias, out, false, rest)
  {
    var line := "} " + (handle + ";");
    assert '\n' !in handle;
    NotInConcat('\n', handle, ";");
    NotInConcat('\n', "} ", handle + ";");
    OtherLetter(line + rest);
    FoldStart(MatchAlias, EnterAlias, out, line, rest);
  }

  lemma OpenerLine(tag: string)
    requires AllWord(tag)
    ensures '\n' !in OPENER + (tag + " {")
  {
    assert '\n' !in tag && '\n' !in OPENER;
    NotInConcat('\n', tag, " {");
    NotInConcat('\n', OPENER, tag + " {");
  }

  lemma PrintedParts(handle: string, st: Struct, rest: string)
    ensures PrintStruct(handle, st) + rest
         == (OPENER + (st.tag + " {")) + (PrintBody(st.fields) + ("\n" + (("} " + (handle + ";")) + rest)))
  {
    var close, b := "} " + (handle + ";"), PrintBody(st.fields);
    LayoutAssoc(OPENER, st.tag, b, close);
    Assoc("\n", close, rest);
    Assoc(b, "\n" + close, rest);
    Assoc(OPENER + (st.tag + " {"), b + ("\n" + close), rest);
  }

  lemma FoldNoAlias(out: map<string, Struct>, e: Entry, rest: string)
    requires IsStruct(e.handle, e.st)
    ensures FoldMatches(MatchAlias, EnterAlias, out, true, PrintStruct(e.handle, e.st) + rest)
         == FoldMatches(MatchAlias, EnterAlias, out, false, rest)
  {
    var tail := ("} " + (e.handle + ";")) + rest;
    var opener, body := OPENER + (e.st.tag + " {"), PrintBody(e.st.fields) + ("\n" + tail);
    PrintedParts(e.handle, e.st, rest);
    OpenerLine(e.st.tag);
    OpenerIsNoAlias(e.st.tag, body);
    FoldStart(MatchAlias, EnterAlias, out, opener, body);
    FoldBody(out, e.st.fields, tail);
    FoldClosing(out, e.handle, rest);
  }

  lemma {:induction false} NoAliasesPrinted(out: map<string, Struct>, es: seq<Entry>)
    requires AllStructs(es)
    ensures FoldMatches(MatchAlias, EnterAlias, out, true, PrintStructs(es)) == out
    decreases es
  {
    if |es| == 1 {
      assert PrintStructs(es) + "" == PrintStructs(es);
      FoldNoAlias(out, es[0], "");
    } else if |es| > 1 {
      FoldNoAlias(out, es[0], "\n" + PrintStructs(es[1..]));
      FoldBreak(MatchAlias, EnterAlias, out, PrintStructs(es[1..]));
      NoAliasesPrinted(out, es[1..]);
    }
  }

  /** Printing any list of structures and collecting the result returns the table of that
      list: tags, handles and ordered fields with their array sizes, opaque markers excepted. */
  lemma StructsRoundTrip(es: seq<Entry>)
    requires AllStructs(es)
    ensures TableOf(PrintStructs(es)) == Table(map[], es)
  {
    TableRead(map[], es);
    NoAliasesPrinted(Table(map[], es), es);
  }

  lemma {:induction false} TableKeeps(out: map<string, Struct>, es: seq<Entry>, h: string)
    requires forall i :: 0 <= i < |es| ==> es[i].handle != h
    ensures (h in Table(out, es) <==> h in out) && (h in out ==> Table(out, es)[h] == out[h])
    decreases es
  {
    if es != [] {
      TableKeeps(EnterEntry(out, es[0]), es[1..], h);
    }
  }

  /** With distinct handles the table answers every structure of the list with itself, and
      the opaque marker with nothing. */
  lemma {:induction false} TableAnswers(out: map<string, Struct>, es: seq<Entry>, i: nat)
    requires forall j, k :: 0 <= j < k < |es| ==> es[j].handle != es[k].handle
    requires i < |es| && es[i].handle !in out
    ensures var t := Table(out, es);
            if MarkerFields(es[i].st.fields) then es[i].handle !in t
            else es[i].handle in t && t[es[i].handle] == es[i].st
    decreases es
  {
    var next := EnterEntry(out, es[0]);
    if i == 0 {
      TableKeeps(next, es[1..], es[0].handle);
    } else {
      TableAnswers(next, es[1..], i - 1);
    }
  }
}
