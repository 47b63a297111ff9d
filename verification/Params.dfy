/** One parameter of a C declaration, parsed and printed. */
module Params {
  import opened Text
  import opened TopLevel

  /** A parameter as the parser reports it: nothing between two commas, text without a name,
      or a named parameter. */
  datatype Param = Empty | Raw(text: string) | Named(name: string, ctype: string)

  /** The name is the maximal trailing identifier; what stands before it, on one line, is
      the type. */
  function ParseParam(p: string): Param {
    var q := Strip(p);
    if q == "" then Empty else ReadAt(q, |q| - TailRun(q))
  }

  /** `q` read with its last word starting at `k`. */
  function ReadAt(q: string, k: nat): Param {
    if 0 < k < |q| && IsIdentStart(q[k]) && '\n' !in q[..k] then Named(q[k..], Strip(q[..k])) else Raw(q)
  }

  function PrintParam(p: Param): string
    requires !p.Empty?
  {
    match p
    case Raw(text) => text
    case Named(name, ctype) => ctype + " " + name
  }

  /** Trimmed and not empty. */
  predicate Trimmed(s: string) {
    s != [] && !IsSpace(s[0]) && !IsSpace(s[|s| - 1])
  }

  /** An identifier stands at `k` and is the last word of `q`, with something before it, all
      of it on one line. */
  predicate NameAt(q: string, k: int) {
    0 < k < |q| && IsIdent(q[k..]) && !IsWord(q[k - 1]) && '\n' !in q[..k]
  }

  /** A parameter that could have been parsed. */
  predicate IsParam(p: Param) {
    match p
    case Empty => false
    case Raw(text) => Trimmed(text) && forall k :: 0 < k < |text| ==> !NameAt(text, k)
    case Named(name, ctype) => IsIdent(name) && Trimmed(ctype) && '\n' !in ctype
  }

  lemma StripTrimmed(a: string, x: string, b: string)
    requires AllSpace(a) && AllSpace(b) && Trimmed(x)
    ensures Strip(a + (x + b)) == x && Trimmed(Strip(a + (x + b)))
  {
    StripLeading(a, x + b);
    StripTrailing(x, b);
  }

  /** Stripping leaves a trimmed text inside blanks, or nothing of blanks. */
  lemma StripSplits(s: string) returns (a: string, b: string)
    ensures AllSpace(a) && AllSpace(b) && s == a + (Strip(s) + b)
    ensures Strip(s) == "" || Trimmed(Strip(s))
  {
    a := LStripSplit(s);
    var y := LStrip(s);
    b := RStripSplit(y);
    if Strip(s) != "" { assert Strip(s)[0] == y[0]; }
  }

  lemma NoLead(pre: string, a: string, x: string)
    requires pre == a + x && AllSpace(a) && pre != [] && !IsSpace(pre[0])
    ensures a == [] && pre == x
  {
  }

  // ---- what is read from any layout ----

  lemma TailIsWord(q: string, k: nat)
    requires k < |q| && AllWord(q[k..]) && (k == 0 || !IsWord(q[k - 1]))
    ensures TailRun(q) == |q| - k
  {
    assert q == q[..k] + q[k..];
    TailRunConcat(q[..k], q[k..]);
  }

  lemma StripSame(q: string)
    requires Trimmed(q)
    ensures Strip(q) == q
  {
    StripTrimmed("", q, "");
    assert "" + (q + "") == q;
  }

  /** The last word is the name if there is one. */
  lemma ParseAt(q: string, k: nat)
    requires Trimmed(q) && NameAt(q, k)
    ensures ParseParam(q) == Named(q[k..], Strip(q[..k]))
  {
    StripSame(q);
    TailIsWord(q, k);
    assert ParseParam(q) == ReadAt(q, k);
  }

  lemma ReadName(q: string, k: nat)
    requires k == |q| - TailRun(q) && ReadAt(q, k).Named?
    ensures NameAt(q, k)
  {
    TailRunFacts(q);
  }

  lemma ParseRaw(q: string)
    requires Trimmed(q) && forall k :: 0 < k < |q| ==> !NameAt(q, k)
    ensures ParseParam(q) == Raw(q)
  {
    StripSame(q);
    var k := |q| - TailRun(q);
    if ReadAt(q, k).Named? { ReadName(q, k); }
  }

  lemma ParsePadding(a: string, q: string, b: string)
    requires AllSpace(a) && AllSpace(b) && Trimmed(q)
    ensures ParseParam(a + (q + b)) == ParseParam(q)
  {
    StripTrimmed(a, q, b);
    StripSame(q);
  }

  /** A type on one line, blanks on that line and a name; the blanks are needed only behind a
      word, so not behind a star. */
  predicate IsLayout(ctype: string, gap: string, name: string) {
    && Trimmed(ctype) && '\n' !in ctype && AllSpace(gap) && '\n' !in gap && IsIdent(name)
    && (gap != [] || !IsWord(ctype[|ctype| - 1]))
  }

  lemma LayoutAt(ctype: string, gap: string, name: string)
    requires IsLayout(ctype, gap, name)
    ensures var q, k := ctype + (gap + name), |ctype| + |gap|;
            Trimmed(q) && NameAt(q, k) && q[k..] == name && Strip(q[..k]) == ctype
  {
    var q, k := (ctype + gap) + name, |ctype| + |gap|;
    Assoc(ctype, gap, name);
    assert q[..k] == ctype + gap && q[k..] == name;
    assert q[0] == ctype[0] && q[|q| - 1] == name[|name| - 1] && q[k - 1] == (ctype + gap)[k - 1];
    StripTrimmed("", ctype, gap);
    assert "" + (ctype + gap) == ctype + gap;
  }

  /** A named parameter is read as its name and its type in every layout, inside any blanks:
      a pointer needs no blank before its name. */
  lemma LayoutParsed(ctype: string, gap: string, name: string, a: string, b: string)
    requires IsLayout(ctype, gap, name) && AllSpace(a) && AllSpace(b)
    ensures ParseParam(a + ((ctype + (gap + name)) + b)) == Named(name, ctype)
  {
    LayoutAt(ctype, gap, name);
    ParsePadding(a, ctype + (gap + name), b);
    ParseAt(ctype + (gap + name), |ctype| + |gap|);
  }

  /** The three results, told apart without the parser: nothing for blank text, a name when the
      last word is an identifier with text before it on one line, the text itself otherwise. */
  lemma ParseParamIff(s: string)
    ensures ParseParam(s).Empty? <==> AllSpace(s)
    ensures ParseParam(s).Named? <==> exists k :: 0 < k < |Strip(s)| && NameAt(Strip(s), k)
    ensures ParseParam(s).Raw? ==> ParseParam(s).text == Strip(s)
  {
    var q := Strip(s);
    StripBlank(s);
    var a, b := StripSplits(s);
    if q != "" {
      ParsePadding(a, q, b);
      if k :| 0 < k < |q| && NameAt(q, k) {
        ParseAt(q, k);
      } else {
        ParseRaw(q);
      }
    }
  }

  /** A named parameter inside blanks. */
  predicate NamedLaid(t: string, name: string, ctype: string, a: string, gap: string, b: string) {
    AllSpace(a) && IsLayout(ctype, gap, name) && AllSpace(b) && t == a + ((ctype + (gap + name)) + b)
  }

  /** Text inside blanks that does not end in a name. */
  predicate RawLaid(t: string, text: string, a: string, b: string) {
    && AllSpace(a) && AllSpace(b) && Trimmed(text) && t == a + (text + b)
    && forall k :: 0 < k < |text| ==> !NameAt(text, k)
  }

  /** A parameter as it may be written. */
  ghost predicate IsParamText(t: string, p: Param) {
    match p
    case Empty => AllSpace(t)
    case Named(name, ctype) => exists a, gap, b :: NamedLaid(t, name, ctype, a, gap, b)
    case Raw(text) => exists a, b :: RawLaid(t, text, a, b)
  }

  lemma TypePart(x: string) returns (gap: string)
    requires x != [] && !IsSpace(x[0]) && '\n' !in x
    ensures x == Strip(x) + gap && Trimmed(Strip(x)) && '\n' !in Strip(x) && AllSpace(gap) && '\n' !in gap
  {
    var a, b := StripSplits(x);
    StripBlank(x);
    NoLead(x, a, Strip(x) + b);
    gap := b;
    assert forall c :: c in Strip(x) || c in gap ==> c in x;
  }

  lemma LayoutOfParts(ctype: string, gap: string, name: string, x: string)
    requires x == ctype + gap && Trimmed(ctype) && '\n' !in ctype && AllSpace(gap) && '\n' !in gap && IsIdent(name)
    requires !IsWord(x[|x| - 1])
    ensures IsLayout(ctype, gap, name)
  {
  }

  lemma NamedSplits(q: string, k: nat) returns (gap: string)
    requires Trimmed(q) && NameAt(q, k)
    ensures IsLayout(Strip(q[..k]), gap, q[k..]) && q == Strip(q[..k]) + (gap + q[k..])
  {
    var x, name := q[..k], q[k..];
    assert x[0] == q[0] && x[|x| - 1] == q[k - 1] && q == x + name;
    gap := TypePart(x);
    LayoutOfParts(Strip(x), gap, name, x);
    Assoc(Strip(x), gap, name);
  }

  lemma ParsedParamText(t: string)
    ensures IsParamText(t, ParseParam(t))
  {
    var q := Strip(t);
    StripBlank(t);
    if q != "" {
      var a, b := StripSplits(t);
      ParsePadding(a, q, b);
      if k :| 0 < k < |q| && NameAt(q, k) {
        ParseAt(q, k);
        var gap := NamedSplits(q, k);
        assert NamedLaid(t, q[k..], Strip(q[..k]), a, gap, b);
      } else {
        ParseRaw(q);
        assert RawLaid(t, q, a, b);
      }
    }
  }

  /** What a text is read as: the parameter it is the text of. */
  lemma ParamIff(t: string, p: Param)
    ensures ParseParam(t) == p <==> IsParamText(t, p)
  {
    ParsedParamText(t);
    if IsParamText(t, p) {
      match p
      case Empty =>
        StripBlank(t);
      case Named(name, ctype) =>
        var a, gap, b :| NamedLaid(t, name, ctype, a, gap, b);
        LayoutParsed(ctype, gap, name, a, b);
      case Raw(text) =>
        var a, b :| RawLaid(t, text, a, b);
        ParsePadding(a, text, b);
        ParseRaw(text);
    }
  }

  lemma OneSpaceLayout(ctype: string, name: string)
    ensures ctype + " " + name == ctype + (" " + name)
  {
  }

  /** Printing a parameter and parsing it back, inside any blanks, returns it. */
  lemma ParamRoundTrip(p: Param, a: string, b: string)
    requires IsParam(p) && AllSpace(a) && AllSpace(b)
    ensures ParseParam(a + (PrintParam(p) + b)) == p && Trimmed(PrintParam(p))
  {
    match p
    case Raw(text) =>
      ParsePadding(a, text, b);
      ParseRaw(text);
    case Named(name, ctype) =>
      OneSpaceLayout(ctype, name);
      LayoutAt(ctype, " ", name);
      LayoutParsed(ctype, " ", name, a, b);
  }

  /** Whatever the parser reports is empty or could be printed and parsed again. */
  lemma ParsedIsParam(s: string)
    ensures ParseParam(s).Empty? || IsParam(ParseParam(s))
    ensures ParseParam(s).Empty? <==> AllSpace(s)
  {
    var q := Strip(s);
    StripBlank(s);
    var a, b := StripSplits(s);
    if q != "" {
      ParsePadding(a, q, b);
      if k :| 0 < k < |q| && NameAt(q, k) {
        ParseAt(q, k);
        TypeParsed(q, k);
      } else {
        ParseRaw(q);
      }
    }
  }

  lemma TypeParsed(q: string, k: nat)
    requires Trimmed(q) && NameAt(q, k)
    ensures Trimmed(Strip(q[..k])) && '\n' !in Strip(q[..k])
  {
    var c, d := StripSplits(q[..k]);
    assert q[..k][0] == q[0];
    StripBlank(q[..k]);
    NoNewline(q[..k], c, Strip(q[..k]), d);
  }

  lemma NoNewline(s: string, a: string, x: string, b: string)
    requires s == a + (x + b) && '\n' !in s
    ensures '\n' !in x
  {
    assert forall i :: 0 <= i < |x| ==> x[i] == s[|a| + i];
  }

  // ---- parameter lists ----

  function ParseAll(parts: seq<string>): seq<Param> {
    if parts == [] then [] else [ParseParam(parts[0])] + ParseAll(parts[1..])
  }

  function ParseParams(args: string): seq<Param> {
    ParseAll(Split(args, ','))
  }

  predicate Printable(ps: seq<Param>) {
    forall i :: 0 <= i < |ps| ==> !ps[i].Empty?
  }

  predicate AllParams(ps: seq<Param>)
    ensures AllParams(ps) ==> Printable(ps)
  {
    forall i :: 0 <= i < |ps| ==> IsParam(ps[i])
  }

  function PrintAll(ps: seq<Param>): (r: seq<string>)
    requires Printable(ps)
    ensures |r| == |ps|
  {
    if ps == [] then [] else [PrintParam(ps[0])] + PrintAll(ps[1..])
  }

  /** A parameter list that could have been parsed: commas only inside brackets, and every
      parameter but the last balanced. */
  ghost predicate IsParamList(ps: seq<Param>) {
    && AllParams(ps)
    && (ps != [] ==> WellSplit(PrintAll(ps), ','))
  }

  function Led(lead: string, ts: seq<string>): (r: seq<string>)
    ensures |r| == |ts|
  {
    if ts == [] then [] else [lead + ts[0]] + Led(lead, ts[1..])
  }

  lemma {:induction false} JoinLed(lead: string, ts: seq<string>)
    requires ts != []
    ensures lead + Join(ts, "," + lead) == Join(Led(lead, ts), ",")
  {
    if |ts| > 1 {
      var rest := Join(ts[1..], "," + lead);
      JoinLed(lead, ts[1..]);
      assert Led(lead, ts)[1..] == Led(lead, ts[1..]);
      calc {
        lead + ((ts[0] + ("," + lead)) + rest);
        { Assoc(ts[0], "," + lead, rest); Assoc(",", lead, rest); }
        lead + (ts[0] + ("," + (lead + rest)));
        { Assoc(lead, ts[0], "," + (lead + rest)); Assoc(lead + ts[0], ",", lead + rest); }
        (lead + ts[0]) + "," + (lead + rest);
      }
    }
  }

  /** The pieces a comma and blanks `lead` leave: the first text, the others led by blanks. */
  lemma JoinPadded(lead: string, ts: seq<string>)
    requires ts != []
    ensures Join(ts, "," + lead) == Join([ts[0]] + Led(lead, ts[1..]), ",")
  {
    var padded := [ts[0]] + Led(lead, ts[1..]);
    assert padded[1..] == Led(lead, ts[1..]);
    if |ts| > 1 {
      JoinLed(lead, ts[1..]);
      Assoc(ts[0], ",", lead);
      Assoc(ts[0] + ",", lead, Join(ts[1..], "," + lead));
    }
  }

  lemma {:induction false} BlankIsNeutral(d: int, w: string)
    requires AllSpace(w)
    ensures Level(w) == 0 && Whole(d, w, ',')
  {
    if w != [] { BlankIsNeutral(d, w[..|w| - 1]); }
  }

  lemma {:induction false} WordIsNeutral(d: int, w: string)
    requires AllWord(w)
    ensures Level(w) == 0 && Whole(d, w, ',')
  {
    if w != [] { WordIsNeutral(d, w[..|w| - 1]); }
  }

  /** Blanks around a text do not change how it splits. */
  lemma PaddingIsNeutral(a: string, x: string, b: string)
    requires AllSpace(a) && AllSpace(b)
    ensures Level(a + (x + b)) == Level(x) && (Whole(0, a + (x + b), ',') <==> Whole(0, x, ','))
  {
    BlankIsNeutral(0, a);
    BlankIsNeutral(Level(x), b);
    LevelConcat(x, b);
    LevelConcat(a, x + b);
    WholeConcat(0, x, b, ',');
    WholeConcat(0, a, x + b, ',');
  }

  lemma {:induction false} LedAt(lead: string, ts: seq<string>, i: nat)
    requires i < |ts|
    ensures Led(lead, ts)[i] == lead + ts[i]
  {
    if i > 0 { LedAt(lead, ts[1..], i - 1); }
  }

  lemma PaddedIsWellSplit(lead: string, ts: seq<string>)
    requires ts != [] && WellSplit(ts, ',') && AllSpace(lead)
    ensures WellSplit([ts[0]] + Led(lead, ts[1..]), ',')
  {
    var r := [ts[0]] + Led(lead, ts[1..]);
    forall i | 0 <= i < |r| ensures Level(r[i]) == Level(ts[i]) && Whole(0, r[i], ',') {
      if i > 0 {
        LedAt(lead, ts[1..], i - 1);
        PaddingIsNeutral(lead, ts[i], "");
        assert ts[i] + "" == ts[i];
      }
    }
  }

  lemma ParamLed(p: Param, lead: string)
    requires IsParam(p) && AllSpace(lead)
    ensures ParseParam(lead + PrintParam(p)) == p && ParseParam(PrintParam(p)) == p
  {
    ParamRoundTrip(p, lead, "");
    ParamRoundTrip(p, "", "");
    assert PrintParam(p) + "" == PrintParam(p) && "" + PrintParam(p) == PrintParam(p);
  }

  lemma PaddedAt(ps: seq<Param>, lead: string, i: nat)
    requires AllParams(ps) && i < |ps|
    ensures var ts := PrintAll(ps);
            ([ts[0]] + Led(lead, ts[1..]))[i] == if i == 0 then PrintParam(ps[0]) else lead + PrintParam(ps[i])
  {
    PrintAllAt(ps, i);
    PrintAllAt(ps, 0);
    if i > 0 { LedAt(lead, PrintAll(ps)[1..], i - 1); }
  }

  lemma ParsePadded(ps: seq<Param>, lead: string)
    requires ps != [] && AllParams(ps) && AllSpace(lead)
    ensures var ts := PrintAll(ps); ParseAll([ts[0]] + Led(lead, ts[1..])) == ps
  {
    var ts := PrintAll(ps);
    var padded := [ts[0]] + Led(lead, ts[1..]);
    ParseAllAt(padded, 0);
    forall i: nat | i < |ps| ensures ParseAll(padded)[i] == ps[i] {
      ParseAllAt(padded, i);
      PaddedAt(ps, lead, i);
      ParamLed(ps[i], lead);
    }
  }

  /** A list is read parameter by parameter, whatever their layout. */
  lemma ListParsed(ts: seq<string>)
    requires ts != [] && WellSplit(ts, ',') && Strip(LastOf(ts)) != ""
    ensures |ParseParams(Join(ts, ","))| == |ts|
    ensures forall i :: 0 <= i < |ts| ==> ParseParams(Join(ts, ","))[i] == ParseParam(ts[i])
  {
    PiecesOfJoin(ts, ',');
    ParseAllAt(ts, 0);
    forall i | 0 <= i < |ts| ensures ParseAll(ts)[i] == ParseParam(ts[i]) { ParseAllAt(ts, i); }
  }

  /** Printing a parameter list with blanks after the commas and parsing it back returns it. */
  lemma ParamsRoundTrip(ps: seq<Param>, lead: string)
    requires ps != [] && IsParamList(ps) && AllSpace(lead)
    ensures ParseParams(Join(PrintAll(ps), "," + lead)) == ps
  {
    var ts := PrintAll(ps);
    JoinPadded(lead, ts);
    PaddedIsWellSplit(lead, ts);
    PiecesOfJoin([ts[0]] + Led(lead, ts[1..]), ',');
    PrintAllAt(ps, |ps| - 1);
    ParamRoundTrip(ps[|ps| - 1], "", "");
    LastPiece(lead, ts);
    ParsePadded(ps, lead);
  }

  lemma LastPiece(lead: string, ts: seq<string>)
    requires ts != [] && Trimmed(LastOf(ts))
    ensures Strip(LastOf([ts[0]] + Led(lead, ts[1..]))) != ""
  {
    var n := |ts| - 1;
    var x := LastOf([ts[0]] + Led(lead, ts[1..]));
    if n > 0 { LedAt(lead, ts[1..], n - 1); }
    assert x[|x| - 1] == ts[n][|ts[n]| - 1];
    StripBlank(x);
  }

  lemma {:induction false} PrintAllAt(ps: seq<Param>, i: nat)
    requires Printable(ps) && i < |ps|
    ensures PrintAll(ps)[i] == PrintParam(ps[i])
  {
    if i > 0 { PrintAllAt(ps[1..], i - 1); }
  }

  /** A printed parameter is as deep and as whole as the text it was parsed from. */
  lemma PrintedLikeParsed(s: string)
    requires !ParseParam(s).Empty?
    ensures var t := PrintParam(ParseParam(s)); Level(t) == Level(s) && (Whole(0, s, ',') ==> Whole(0, t, ','))
  {
    var a, b := StripSplits(s);
    var q := Strip(s);
    PaddingIsNeutral(a, q, b);
    PrintedLikeRead(q, |q| - TailRun(q));
  }

  lemma PrintedLikeRead(q: string, k: nat)
    requires k == |q| - TailRun(q)
    ensures var t := PrintParam(ReadAt(q, k)); Level(t) == Level(q) && (Whole(0, q, ',') ==> Whole(0, t, ','))
  {
    TailRunFacts(q);
    if ReadAt(q, k).Named? { NamedLikeParsed(q, k); }
  }

  lemma NamedLikeParsed(q: string, k: nat)
    requires k <= |q| && AllWord(q[k..])
    ensures var t := Strip(q[..k]) + " " + q[k..]; Level(t) == Level(q) && (Whole(0, q, ',') ==> Whole(0, t, ','))
  {
    var pre, name, ctype := q[..k], q[k..], Strip(q[..k]);
    var c, d := StripSplits(pre);
    PaddingIsNeutral(c, ctype, d);
    assert q == pre + name;
    NamedIsNeutral(pre, name);
    PaddingIsNeutral("", ctype, " ");
    assert "" + (ctype + " ") == ctype + " ";
    NamedIsNeutral(ctype + " ", name);
  }

  lemma NamedIsNeutral(x: string, name: string)
    requires AllWord(name)
    ensures Level(x + name) == Level(x) && (Whole(0, x + name, ',') <==> Whole(0, x, ','))
  {
    LevelConcat(x, name);
    WholeConcat(0, x, name, ',');
    WordIsNeutral(Level(x), name);
  }

  lemma {:induction false} ParseAllAt(parts: seq<string>, i: nat)
    requires i < |parts|
    ensures |ParseAll(parts)| == |parts| && ParseAll(parts)[i] == ParseParam(parts[i])
  {
    if i > 0 {
      ParseAllAt(parts[1..], i - 1);
    } else if |parts| > 1 {
      ParseAllAt(parts[1..], 0);
    }
  }

  // ---- blanks around a list ----

  /** `l` put before the first piece. */
  function LedFirst(l: string, r: seq<string>): seq<string>
    requires r != []
  {
    [l + r[0]] + r[1..]
  }

  lemma {:induction false} PiecesBehind(l: string, y: string)
    requires AllSpace(l)
    ensures Pieces(l + y, ',') == LedFirst(l, Pieces(y, ','))
    decreases y
  {
    BlankIsNeutral(0, l);
    if y == [] {
      assert l + y == l && "" + l == l && l + "" == l;
      PiecesAppend("", l, ',');
      assert Extended([""], l) == [l];
    } else {
      var t, c := y[..|y| - 1], y[|y| - 1];
      assert y == t + [c] && l + y == (l + t) + [c];
      PiecesBehind(l, t);
      PiecesSnoc(t, c, ',');
      PiecesSnoc(l + t, c, ',');
      LevelConcat(l, t + [c]);
      LedFirstGrows(l, Pieces(t, ','), [c]);
    }
  }

  lemma LedFirstGrows(l: string, r: seq<string>, t: string)
    requires r != []
    ensures LedFirst(l, r) + [""] == LedFirst(l, r + [""]) && Extended(LedFirst(l, r), t) == LedFirst(l, Extended(r, t))
  {
    if |r| == 1 {
      Assoc(l, r[0], t);
    } else {
      assert Extended(r, t)[0] == r[0] && Extended(r, t)[1..] == Extended(r[1..], t);
      assert Extended(LedFirst(l, r), t) == [l + r[0]] + Extended(r[1..], t);
    }
  }

  lemma StripInside(l: string, q: string, r: string)
    requires AllSpace(l) && AllSpace(r)
    ensures Strip(l + (q + r)) == Strip(q)
  {
    var a, b := StripSplits(q);
    var x := Strip(q);
    if x == "" {
      StripBlank(q);
      StripBlank(l + (q + r));
    } else {
      PaddingJoins(l, a, x, b, r);
      StripTrimmed(l + a, x, b + r);
    }
  }

  lemma PaddingJoins(l: string, a: string, x: string, b: string, r: string)
    ensures l + ((a + (x + b)) + r) == (l + a) + (x + (b + r))
  {
    Assoc(a, x + b, r);
    Assoc(x, b, r);
    Assoc(l, a, x + (b + r));
  }

  /** Both lists have the same parts but for blanks around them. */
  ghost predicate SameParts(p: seq<string>, r: seq<string>) {
    |p| == |r| && forall i :: 0 <= i < |p| ==> Strip(p[i]) == Strip(r[i])
  }

  lemma PaddedParts(l: string, p: seq<string>, r: string)
    requires p != [] && AllSpace(l) && AllSpace(r)
    ensures SameParts(LedFirst(l, Extended(p, r)), p)
  {
    var e := LedFirst(l, Extended(p, r));
    forall i | 0 <= i < |p| ensures Strip(e[i]) == Strip(p[i]) {
      var x, y := if i == 0 then l else "", if i == |p| - 1 then r else "";
      assert e[i] == x + (p[i] + y) by { assert p[i] + "" == p[i] && "" + (p[i] + y) == p[i] + y; }
      StripInside(x, p[i], y);
    }
  }

  lemma {:induction false} SamePartsParsed(p: seq<string>, r: seq<string>)
    requires SameParts(p, r)
    ensures ParseAll(p) == ParseAll(r)
    decreases p
  {
    if p != [] {
      assert forall i :: 0 <= i < |p[1..]| ==> p[1..][i] == p[i + 1] && r[1..][i] == r[i + 1];
      SamePartsParsed(p[1..], r[1..]);
    }
  }

  lemma SameSplit(p: seq<string>, r: seq<string>)
    requires SameParts(p, r) && p != []
    ensures SameParts(if Strip(LastOf(p)) == "" then p[..|p| - 1] else p,
                      if Strip(LastOf(r)) == "" then r[..|r| - 1] else r)
  {
  }

  /** Blanks around a list do not matter. */
  lemma ListInside(l: string, q: string, r: string)
    requires AllSpace(l) && AllSpace(r)
    ensures ParseParams(l + (q + r)) == ParseParams(q)
  {
    var p := Pieces(q, ',');
    BlankIsNeutral(Level(q), r);
    PiecesAppend(q, r, ',');
    PiecesBehind(l, q + r);
    PaddedParts(l, p, r);
    SameSplit(LedFirst(l, Extended(p, r)), p);
    SamePartsParsed(Split(l + (q + r), ','), Split(q, ','));
  }

  /** Every parsed list without empty parameters could be printed and parsed again. */
  lemma ParsedIsParamList(args: string)
    requires Printable(ParseParams(args))
    ensures IsParamList(ParseParams(args))
  {
    var parts, ps := Split(args, ','), ParseParams(args);
    var tail := SplitLosesOnlyBlankTail(args, ',');
    var all := parts + tail;
    if parts != [] {
      forall i | 0 <= i < |parts| ensures |ps| == |parts| && IsParam(ps[i]) {
        ParseAllAt(parts, i);
        ParsedIsParam(parts[i]);
      }
      ParseAllAt(parts, 0);
      var ts := PrintAll(ps);
      forall i | 0 <= i < |ts| ensures Level(ts[i]) == Level(all[i]) && Whole(0, ts[i], ',') {
        ParseAllAt(parts, i);
        PrintAllAt(ps, i);
        PrintedLikeParsed(parts[i]);
      }
    }
  }
}
