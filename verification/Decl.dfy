/** Function declarations: the parser of the ABI tooling and the printer of the Python
    binding generator. */
module Decl {
  import opened Text
  import opened TopLevel
  import opened Params

  datatype Fn = Fn(name: string, ret: string, params: seq<Param>)

  /** An opaque handle type and the C structure behind it. */
  datatype Handle = Handle(name: string, cStruct: string)

  // ---- parsing ----

  /** `decl.rstrip(";")` */
  function DropSemicolons(s: string): string {
    if s != [] && s[|s| - 1] == ';' then DropSemicolons(s[..|s| - 1]) else s
  }

  function Core(decl: string): string {
    Strip(DropSemicolons(Strip(decl)))
  }

  /** The index of the first character after the word that starts at `k` and the blanks
      behind it. */
  function AfterName(d: string, k: nat): nat
    requires k <= |d|
  {
    var n := k + WordRun(d[k..]);
    n + SpaceRun(d[n..])
  }

  /** At `k`, at a word boundary, stands a name `lr_...` followed by an opening parenthesis. */
  predicate HeadAt(d: string, k: nat) {
    && 0 < k < |d| && !IsWord(d[k - 1])
    && At(d, k, "lr_") && WordRun(d[k..]) > 3
    && AfterName(d, k) < |d| && d[AfterName(d, k)] == '('
  }

  /** The first such place from `k` on. */
  function FirstHead(d: string, k: nat): (r: Option<nat>)
    ensures r.Some? ==> k <= r.value && HeadAt(d, r.value)
    ensures r.Some? ==> forall j :: k <= j < r.value ==> !HeadAt(d, j)
    ensures r.None? ==> forall j :: k <= j ==> !HeadAt(d, j)
    decreases |d| - k
  {
    if k >= |d| then None else if HeadAt(d, k) then Some(k) else FirstHead(d, k + 1)
  }

  /** The structure name of a return type `struct Opaque... *`. */
  function OpaqueName(ret: string): Option<string> {
    match AfterWord(ret, "struct") case None => None case Some(t) => OpaqueIn(t)
  }

  function OpaqueIn(t: string): Option<string> {
    var n := WordRun(t);
    if StartsWith(t, "Opaque") && n > 6 && t[n..][SpaceRun(t[n..])..] == "*" then Some(t[..n]) else None
  }

  /** The handle for a structure name, or `ret` when there is none. */
  function HandleFor(handles: seq<Handle>, cStruct: string, ret: string): string {
    if handles == [] then ret
    else if handles[0].cStruct == cStruct then handles[0].name
    else HandleFor(handles[1..], cStruct, ret)
  }

  function Resolve(handles: seq<Handle>, ret: string): string {
    match OpaqueName(ret) case None => ret case Some(c) => HandleFor(handles, c, ret)
  }

  function ParseArgs(args: string): seq<Param> {
    var a := Strip(args);
    if a == "void" || a == "" then [] else ParseParams(a)
  }

  /** The record read from a trimmed declaration whose head is at `k`. */
  function FnAt(handles: seq<Handle>, d: string, k: nat): Fn
    requires HeadAt(d, k) && d[|d| - 1] == ')'
  {
    Fn(d[k..k + WordRun(d[k..])], Resolve(handles, Strip(d[..k])), ParseArgs(d[AfterName(d, k) + 1..|d| - 1]))
  }

  /** None stands for the error the source raises. */
  function ParseFunction(handles: seq<Handle>, decl: string): Option<Fn> {
    var d := Core(decl);
    match FirstHead(d, 1)
    case None => None
    case Some(k) => if d[|d| - 1] != ')' then None else Some(FnAt(handles, d, k))
  }

  // ---- printing ----

  function PrintArgs(ps: seq<Param>): string
    requires Printable(ps)
  {
    var ts := PrintAll(ps);
    if ts == [] then "void"
    else if |ts| <= 2 then Join(ts, ", ")
    else "\n    " + (Join(ts, ",\n    ") + "\n")
  }

  /** `ret name(args)` */
  function Signature(ret: string, name: string, args: string): string {
    ret + (" " + (name + ("(" + (args + ")"))))
  }

  /** A declaration in any layout: blanks `gap` before the name and `space` behind it. */
  function Declared(ret: string, gap: string, name: string, space: string, args: string): string {
    ret + (gap + (name + (space + ("(" + (args + ")")))))
  }

  /** A trimmed text and blanks; none are needed behind a star. */
  predicate IsLaid(ret: string, gap: string) {
    Trimmed(ret) && AllSpace(gap) && (gap != [] || !IsWord(ret[|ret| - 1]))
  }

  function PrintFunction(f: Fn): string
    requires Printable(f.params)
  {
    Signature(f.ret, f.name, PrintArgs(f.params)) + ";"
  }

  method RenderFunction(f: Fn) returns (text: string)
    requires Printable(f.params)
    ensures text == PrintFunction(f)
  {
    var params: seq<string> := [];
    ghost var all := PrintAll(f.params);
    for i := 0 to |f.params|
      invariant params == all[..i]
    {
      PrintAllAt(f.params, i);
      var p := f.params[i];
      if p.Raw? {
        params := params + [p.text];
        continue;
      }
      params := params + [p.ctype + " " + p.name];
    }
    assert params == all;
    if params == [] {
      return Signature(f.ret, f.name, "void") + ";";
    }
    if |params| <= 2 {
      return Signature(f.ret, f.name, Join(params, ", ")) + ";";
    }
    return Signature(f.ret, f.name, "\n    " + (Join(params, ",\n    ") + "\n")) + ";";
  }

  // ---- the three layouts ----

  lemma PrintedWithout(name: string, ret: string)
    ensures PrintFunction(Fn(name, ret, [])) == ret + " " + name + "(void);"
  {
    assert "(" + ("void" + ")") + ";" == "(void);";
    Assoc(" ", name, "(void)");
    Assoc(ret, " " + name, "(void)");
    Assoc(ret, " " + name, "(void);");
    assert (ret + " ") + name == ret + (" " + name);
    assert (ret + (" " + name)) + ("(void)" + ";") == ((ret + (" " + name)) + "(void)") + ";";
  }

  /** Up to two parameters stand on the line of the name. */
  lemma PrintedOnOneLine(f: Fn)
    requires Printable(f.params) && 1 <= |f.params| <= 2
    ensures PrintFunction(f)
         == Signature(f.ret, f.name, if |f.params| == 1 then PrintParam(f.params[0])
                                     else PrintParam(f.params[0]) + ", " + PrintParam(f.params[1])) + ";"
  {
    var ts := PrintAll(f.params);
    PrintAllAt(f.params, 0);
    if |f.params| == 2 {
      PrintAllAt(f.params, 1);
      assert ts[1..] == [ts[1]] && Join([ts[1]], ", ") == ts[1];
      assert Join(ts, ", ") == ts[0] + ", " + ts[1];
    }
  }

  /** More than two stand on lines of their own, indented by four spaces. */
  lemma PrintedOnLines(f: Fn)
    requires Printable(f.params) && |f.params| > 2
    ensures PrintFunction(f) == Signature(f.ret, f.name, "\n    " + (Join(PrintAll(f.params), ",\n    ") + "\n")) + ";"
    ensures forall i :: 0 <= i < |f.params| ==> PrintAll(f.params)[i] == PrintParam(f.params[i])
  {
    forall i | 0 <= i < |f.params| ensures PrintAll(f.params)[i] == PrintParam(f.params[i]) { PrintAllAt(f.params, i); }
  }

  // ---- handles for structures ----

  /** `struct Opaque... *`, with any blanks between the words. */
  function OpaqueReturn(w: string, x: string, v: string): string {
    "struct" + (w + ("Opaque" + (x + (v + "*"))))
  }

  predicate IsOpaqueReturn(w: string, x: string, v: string) {
    w != [] && AllSpace(w) && x != [] && AllWord(x) && AllSpace(v)
  }

  lemma OpaqueInOf(x: string, v: string)
    requires x != [] && AllWord(x) && AllSpace(v)
    ensures OpaqueIn("Opaque" + (x + (v + "*"))) == Some("Opaque" + x)
  {
    var y := v + "*";
    var t, word := "Opaque" + (x + y), "Opaque" + x;
    Assoc("Opaque", x, y);
    assert y[0] == if v == [] then '*' else v[0];
    assert AllWord(word);
    WordRunConcat(word, y);
    assert t[..|word|] == word && t[|word|..] == y && t[0..6] == "Opaque";
    SpaceRunConcat(v, "*");
    assert y[|v|..] == "*";
  }

  lemma AfterStruct(w: string, t: string)
    requires w != [] && AllSpace(w) && t != [] && !IsSpace(t[0])
    ensures AfterWord("struct" + (w + t), "struct") == Some(t)
  {
    var s := "struct" + (w + t);
    assert s[0..6] == "struct" && s[6..] == w + t;
    SpaceRunConcat(w, t);
    assert (w + t)[|w|..] == t;
  }

  lemma OpaqueNameOf(w: string, x: string, v: string)
    requires IsOpaqueReturn(w, x, v)
    ensures OpaqueName(OpaqueReturn(w, x, v)) == Some("Opaque" + x)
  {
    var t := "Opaque" + (x + (v + "*"));
    assert t[0] == 'O';
    AfterStruct(w, t);
    OpaqueInOf(x, v);
  }

  lemma OpaqueParts(t: string) returns (x: string, v: string)
    requires OpaqueIn(t).Some?
    ensures x != [] && AllWord(x) && AllSpace(v) && t == "Opaque" + (x + (v + "*"))
  {
    var n := WordRun(t);
    var m := SpaceRun(t[n..]);
    x, v := t[6..n], t[n..][..m];
    WordRunFacts(t);
    SpaceRunFacts(t[n..]);
    assert t[..n][6..] == x;
    assert t[n..] == v + "*";
    assert t == t[0..6] + (x + t[n..]);
  }

  lemma StructParts(ret: string, t: string) returns (w: string)
    requires AfterWord(ret, "struct") == Some(t)
    ensures w != [] && AllSpace(w) && ret == "struct" + (w + t)
  {
    var r := ret[6..];
    w := r[..SpaceRun(r)];
    SpaceRunFacts(r);
    assert r == w + t;
    assert ret == ret[0..6] + r;
  }

  /** Only such return types name a structure. */
  lemma OpaqueNameIs(ret: string) returns (w: string, x: string, v: string)
    requires OpaqueName(ret).Some?
    ensures IsOpaqueReturn(w, x, v) && ret == OpaqueReturn(w, x, v)
  {
    var t := AfterWord(ret, "struct").value;
    w := StructParts(ret, t);
    x, v := OpaqueParts(t);
  }

  /** `r` is the first handle of the structure `c`, or `ret` when it has none. */
  ghost predicate FirstHandle(handles: seq<Handle>, c: string, ret: string, r: string) {
    || (exists i :: 0 <= i < |handles| && FirstAt(handles, c, i) && r == handles[i].name)
    || ((forall i :: 0 <= i < |handles| ==> handles[i].cStruct != c) && r == ret)
  }

  ghost predicate FirstAt(handles: seq<Handle>, c: string, i: nat)
    requires i < |handles|
  {
    handles[i].cStruct == c && forall j :: 0 <= j < i ==> handles[j].cStruct != c
  }

  lemma {:induction false} HandleForFirst(handles: seq<Handle>, c: string, ret: string)
    ensures FirstHandle(handles, c, ret, HandleFor(handles, c, ret))
  {
    if handles != [] {
      var rest := handles[1..];
      if handles[0].cStruct == c {
        assert FirstAt(handles, c, 0);
      } else {
        HandleForFirst(rest, c, ret);
        assert forall j :: 0 <= j < |rest| ==> rest[j] == handles[j + 1];
        if i :| 0 <= i < |rest| && FirstAt(rest, c, i) && HandleFor(rest, c, ret) == rest[i].name {
          FirstLater(handles, c, i);
        }
      }
    }
  }

  lemma FirstLater(handles: seq<Handle>, c: string, i: nat)
    requires i + 1 < |handles| && handles[0].cStruct != c && FirstAt(handles[1..], c, i)
    ensures FirstAt(handles, c, i + 1)
  {
    forall j | 0 <= j < i + 1 ensures handles[j].cStruct != c {
      if j > 0 { assert handles[1..][j - 1] == handles[j]; }
    }
  }

  /** A pointer to an opaque structure is returned as the first handle of that structure, and
      as it is written when there is none. */
  lemma ResolveOpaque(handles: seq<Handle>, w: string, x: string, v: string)
    requires IsOpaqueReturn(w, x, v)
    ensures FirstHandle(handles, "Opaque" + x, OpaqueReturn(w, x, v), Resolve(handles, OpaqueReturn(w, x, v)))
  {
    OpaqueNameOf(w, x, v);
    HandleForFirst(handles, "Opaque" + x, OpaqueReturn(w, x, v));
  }

  /** Every other return type stays as it is written. */
  lemma ResolveOther(handles: seq<Handle>, ret: string)
    requires forall w, x, v :: IsOpaqueReturn(w, x, v) ==> ret != OpaqueReturn(w, x, v)
    ensures Resolve(handles, ret) == ret
  {
    if OpaqueName(ret).Some? {
      var w, x, v := OpaqueNameIs(ret);
    }
  }

  // ---- the arguments ----

  lemma {:induction false} JoinTrimmed(ts: seq<string>, sep: string)
    requires ts != [] && forall i :: 0 <= i < |ts| ==> Trimmed(ts[i])
    ensures Trimmed(Join(ts, sep))
  {
    if |ts| > 1 {
      var j := Join(ts[1..], sep);
      JoinTrimmed(ts[1..], sep);
      assert Join(ts, sep) == ts[0] + sep + j;
    }
  }

  lemma PrintedTrimmed(ps: seq<Param>)
    requires AllParams(ps)
    ensures forall i :: 0 <= i < |ps| ==> Trimmed(PrintAll(ps)[i])
  {
    forall i | 0 <= i < |ps| ensures Trimmed(PrintAll(ps)[i]) {
      PrintAllAt(ps, i);
      ParamRoundTrip(ps[i], "", "");
    }
  }

  /** The text between the parentheses, without the blanks around it. */
  lemma StrippedArgs(ps: seq<Param>)
    requires ps != [] && IsParamList(ps)
    ensures var a := Strip(PrintArgs(ps)); Trimmed(a) && ParseParams(a) == ps
    ensures |ps| == 1 ==> Strip(PrintArgs(ps)) == PrintParam(ps[0])
    ensures |ps| > 1 ==> ',' in Strip(PrintArgs(ps))
  {
    var ts := PrintAll(ps);
    PrintedTrimmed(ps);
    if |ts| <= 2 {
      JoinTrimmed(ts, ", ");
      StripTrimmed("", Join(ts, ", "), "");
      assert "" + (Join(ts, ", ") + "") == Join(ts, ", ");
      assert "," + " " == ", ";
      ParamsRoundTrip(ps, " ");
    } else {
      JoinTrimmed(ts, ",\n    ");
      StripTrimmed("\n    ", Join(ts, ",\n    "), "\n");
      assert "," + "\n    " == ",\n    ";
      ParamsRoundTrip(ps, "\n    ");
    }
  }

  lemma VoidArgs()
    ensures ParseArgs("void") == []
  {
    StripTrimmed("", "void", "");
    assert "" + ("void" + "") == "void";
  }

  lemma PrintsVoid(p: Param)
    requires IsParam(p)
    ensures PrintParam(p) == "void" <==> p == Raw("void")
  {
    if p.Named? {
      assert PrintParam(p)[|p.ctype|] == ' ';
      assert ' ' !in "void";
    }
  }

  lemma NotVoid(a: string)
    requires ',' in a
    ensures a != "void"
  {
    assert ',' !in "void";
  }

  lemma SomeArgs(ps: seq<Param>)
    requires ps != [] && IsParamList(ps)
    ensures Strip(PrintArgs(ps)) == "void" <==> ps == [Raw("void")]
    ensures Strip(PrintArgs(ps)) != "" && ParseParams(Strip(PrintArgs(ps))) == ps
  {
    StrippedArgs(ps);
    if |ps| == 1 {
      PrintsVoid(ps[0]);
    } else {
      NotVoid(Strip(PrintArgs(ps)));
    }
  }

  /** The arguments survive printing and parsing exactly when they are not the single unnamed
      parameter `void`, which reads back as no parameter at all. */
  lemma ArgsRoundTrip(ps: seq<Param>)
    requires IsParamList(ps)
    ensures ParseArgs(PrintArgs(ps)) == ps <==> ps != [Raw("void")]
  {
    if ps == [] {
      VoidArgs();
    } else {
      SomeArgs(ps);
    }
  }

  // ---- arguments in any layout ----

  predicate VoidInside(args: string, a: string, b: string) {
    AllSpace(a) && AllSpace(b) && args == a + ("void" + b)
  }

  /** No arguments: blanks, or `void` inside blanks. */
  ghost predicate IsNoArgs(args: string) {
    AllSpace(args) || exists a, b :: VoidInside(args, a, b)
  }

  /** The parts `ts` between the commas outside brackets, and a blank one behind the last comma
      that counts for nothing. */
  ghost predicate IsListOf(args: string, ts: seq<string>, end: seq<string>) {
    && |end| <= 1 && WellSplit(ts + end, ',') && args == Join(ts + end, ",")
    && (if end == [] then !AllSpace(ts[|ts| - 1]) else AllSpace(end[0]))
  }

  /** Each part is the text of a parameter. */
  ghost predicate AreTexts(ts: seq<string>, ps: seq<Param>) {
    |ts| == |ps| && forall i :: 0 <= i < |ts| ==> IsParamText(ts[i], ps[i])
  }

  /** Arguments as they may be written, on any number of lines. */
  ghost predicate IsArgs(args: string, ps: seq<Param>) {
    if IsNoArgs(args) then ps == [] else exists ts, end :: IsListOf(args, ts, end) && AreTexts(ts, ps)
  }

  lemma NoArgsIff(args: string)
    ensures Strip(args) == "void" || Strip(args) == "" <==> IsNoArgs(args)
  {
    StripBlank(args);
    if Strip(args) == "void" {
      var a, b := StripSplits(args);
      assert VoidInside(args, a, b);
    }
    if a, b :| VoidInside(args, a, b) { StripTrimmed(a, "void", b); }
  }

  lemma ListIsSplit(args: string, ts: seq<string>, end: seq<string>)
    requires IsListOf(args, ts, end)
    ensures Split(args, ',') == ts
  {
    PiecesOfJoin(ts + end, ',');
    PartsBeforeEnd(args, ts, end, Pieces(args, ','));
  }

  lemma PartsBeforeEnd(args: string, ts: seq<string>, end: seq<string>, r: seq<string>)
    requires r == ts + end && r != [] && |end| <= 1 && r == Pieces(args, ',')
    requires if end == [] then !AllSpace(ts[|ts| - 1]) else AllSpace(end[0])
    ensures Split(args, ',') == ts
  {
    StripBlank(LastOf(r));
    if end == [] {
      assert r == ts;
    } else {
      assert LastOf(r) == end[0] && r[..|r| - 1] == ts;
    }
  }

  lemma SplitIsList(args: string) returns (end: seq<string>)
    ensures IsListOf(args, Split(args, ','), end)
  {
    PiecesRejoin(args, ',');
    PiecesAreWellSplit(args, ',');
    var r := Pieces(args, ',');
    StripBlank(LastOf(r));
    end := if AllSpace(LastOf(r)) then [LastOf(r)] else [];
    assert Split(args, ',') + end == r;
  }

  lemma TextsIff(ts: seq<string>, ps: seq<Param>)
    ensures ParseAll(ts) == ps <==> AreTexts(ts, ps)
  {
    if ts != [] { ParseAllAt(ts, 0); }
    forall i | 0 <= i < |ts| && i < |ps| ensures ParseAll(ts)[i] == ps[i] <==> IsParamText(ts[i], ps[i]) {
      ParseAllAt(ts, i);
      ParamIff(ts[i], ps[i]);
    }
  }

  lemma ArgsAreParams(args: string)
    requires !IsNoArgs(args)
    ensures ParseArgs(args) == ParseAll(Split(args, ','))
  {
    NoArgsIff(args);
    var a, b := StripSplits(args);
    ListInside(a, Strip(args), b);
  }

  /** What arguments are read as, on any text: the parameters they are the text of, each in its
      own layout and in order, or none. */
  lemma ArgsIff(args: string, ps: seq<Param>)
    ensures ParseArgs(args) == ps <==> IsArgs(args, ps)
  {
    NoArgsIff(args);
    if !IsNoArgs(args) {
      ArgsAreParams(args);
      TextsIff(Split(args, ','), ps);
      if ParseArgs(args) == ps {
        var end := SplitIsList(args);
        assert IsListOf(args, Split(args, ','), end) && AreTexts(Split(args, ','), ps);
      }
      if ts, end :| IsListOf(args, ts, end) && AreTexts(ts, ps) { ListIsSplit(args, ts, end); }
    }
  }

  // ---- the head ----

  lemma {:induction false} WordRunPrefix(t: string, y: string)
    requires y == [] || !IsWord(y[0]) || WordRun(t) < |t|
    ensures WordRun(t + y) == WordRun(t)
  {
    if t == [] {
      assert t + y == y;
    } else if IsWord(t[0]) {
      DropConcat(t, y, 1);
      WordRunPrefix(t[1..], y);
    }
  }

  lemma {:induction false} SpaceRunPrefix(t: string, y: string)
    ensures SpaceRun(t + y) == if SpaceRun(t) < |t| then SpaceRun(t) else |t| + SpaceRun(y)
  {
    if t == [] {
      assert t + y == y;
    } else if IsSpace(t[0]) {
      DropConcat(t, y, 1);
      SpaceRunPrefix(t[1..], y);
    }
  }

  /** A head inside `a` stays a head when text follows. */
  lemma HeadExtends(a: string, y: string, k: nat)
    requires HeadAt(a, k)
    ensures HeadAt(a + y, k) && AfterName(a + y, k) == AfterName(a, k)
  {
    DropConcat(a, y, k);
    var n := k + WordRun(a[k..]);
    var m := AfterName(a, k);
    DropConcat(a, y, n);
    SpaceRunPrefix(a[n..], y);
    assert WordRun(a[k..]) < |a[k..]|;
    WordRunPrefix(a[k..], y);
    assert (a + y)[k..k + 3] == a[k..k + 3];
  }

  lemma WordRunInside(t: string, y: string)
    requires t != [] && y != [] && (!IsWord(y[0]) || !IsWord(t[|t| - 1]))
    ensures WordRun(t + y) == WordRun(t)
  {
    WordRunFacts(t);
    assert WordRun(t) == |t| ==> t[..|t|] == t;
    WordRunPrefix(t, y);
  }

  lemma BlanksFrom(a: string, y: string, n: nat)
    requires n <= |a|
    ensures SpaceRun((a + y)[n..]) == if n + SpaceRun(a[n..]) < |a| then SpaceRun(a[n..]) else |a| - n + SpaceRun(y)
  {
    DropConcat(a, y, n);
    SpaceRunPrefix(a[n..], y);
  }

  lemma WordFrom(a: string, y: string, k: nat)
    requires k < |a| && y != [] && (!IsWord(y[0]) || !IsWord(a[|a| - 1]))
    ensures WordRun((a + y)[k..]) == WordRun(a[k..])
  {
    DropConcat(a, y, k);
    WordRunInside(a[k..], y);
  }

  lemma AfterNameFrom(d: string, k: nat, n: nat)
    requires k <= |d| && n == k + WordRun(d[k..])
    ensures AfterName(d, k) == n + SpaceRun(d[n..])
  {
  }

  lemma AfterNameInside(a: string, y: string, k: nat)
    requires k < |a| && y != [] && (!IsWord(y[0]) || !IsWord(a[|a| - 1]))
    ensures WordRun((a + y)[k..]) == WordRun(a[k..])
    ensures AfterName(a + y, k) == if AfterName(a, k) < |a| then AfterName(a, k) else |a| + SpaceRun(y)
  {
    var n := k + WordRun(a[k..]);
    WordFrom(a, y, k);
    AfterNameFrom(a, k, n);
    AfterNameFrom(a + y, k, n);
    BlanksFrom(a, y, n);
  }

  /** A head that starts in `a`, before a text that is not a parenthesis, lies in `a`. */
  lemma HeadInside(a: string, gap: string, x: string, k: nat)
    requires HeadAt(a + (gap + x), k) && k < |a| && IsLaid(a, gap) && x != [] && x[0] != '(' && !IsSpace(x[0])
    ensures HeadAt(a, k)
  {
    var y := gap + x;
    AfterNameInside(a, y, k);
    SpaceRunConcat(gap, x);
    assert SpaceRun(x) == 0;
    assert AfterName(a, k) < |a|;
    assert a[k..k + 3] == (a + y)[k..k + 3];
  }

  // ---- the round trip ----

  predicate IsName(name: string) {
    |name| > 3 && AllWord(name) && At(name, 0, "lr_")
  }

  /** A return type that could have been parsed: trimmed, with no function head inside. */
  ghost predicate IsReturnType(ret: string) {
    Trimmed(ret) && forall k :: 0 < k < |ret| ==> !HeadAt(ret, k)
  }

  /** A function record that could have been parsed. */
  ghost predicate Parsable(handles: seq<Handle>, f: Fn) {
    IsName(f.name) && IsReturnType(f.ret) && Resolve(handles, f.ret) == f.ret && IsParamList(f.params)
  }

  /** And that is not told apart from another when printed. */
  ghost predicate WellFormed(handles: seq<Handle>, f: Fn) {
    Parsable(handles, f) && f.params != [Raw("void")]
  }

  /** The handle table as the typedefs fill it: handle names are words. */
  predicate WordHandles(handles: seq<Handle>) {
    forall i :: 0 <= i < |handles| ==> handles[i].name != [] && AllWord(handles[i].name)
  }

  /** `d` reads as a head at `k`, with these parts around it. */
  ghost predicate Reads(d: string, k: nat, ret: string, name: string, args: string) {
    && Trimmed(d) && d[|d| - 1] == ')' && HeadAt(d, k)
    && Strip(d[..k]) == ret && d[k..k + WordRun(d[k..])] == name
    && AfterName(d, k) + 1 <= |d| - 1 && d[AfterName(d, k) + 1..|d| - 1] == args
  }

  lemma StripRet(ret: string, gap: string)
    requires Trimmed(ret) && AllSpace(gap)
    ensures Strip(ret + gap) == ret
  {
    StripTrimmed("", ret, gap);
    assert "" + (ret + gap) == ret + gap;
  }

  /** `d` taken apart: the name stands at `k`, blanks at `n` and the parenthesis at `m`. */
  predicate Sliced(d: string, ret: string, gap: string, name: string, space: string, args: string, k: nat, n: nat,
                   m: nat) {
    && k == |ret| + |gap| && n == k + |name| && m == n + |space| && |d| == m + |args| + 2
    && d[..k] == ret + gap && d[k..n] == name && d[n..m] == space
    && d[m] == '(' && d[m + 1..|d| - 1] == args && d[|d| - 1] == ')'
  }

  lemma DeclaredSlices(d: string, ret: string, gap: string, name: string, space: string, args: string, k: nat, n: nat,
                       m: nat)
    requires d == Declared(ret, gap, name, space, args) && k == |ret| + |gap| && n == k + |name| && m == n + |space|
    ensures Sliced(d, ret, gap, name, space, args, k, n, m)
  {
    var p := "(" + (args + ")");
    FourParts(d, ret, gap, name, space, p, k, n, m);
    assert p[0] == '(' && p[1..|p| - 1] == args && p[|p| - 1] == ')';
    LastPart(d, m, p);
  }

  lemma FourParts(d: string, a: string, b: string, c: string, e: string, p: string, k: nat, n: nat, m: nat)
    requires d == a + (b + (c + (e + p))) && k == |a| + |b| && n == k + |c| && m == n + |e|
    ensures |d| == m + |p| && d[..k] == a + b && d[k..n] == c && d[n..m] == e && d[m..] == p
  {
    Assoc(a, b, c + (e + p));
    var y := c + (e + p);
    assert d == (a + b) + y;
    assert d[k..] == y && y[..|c|] == c && y[|c|..] == e + p;
    DropDrop(d, k, |c|);
    DropDrop(d, n, |e|);
  }

  lemma LastPart(d: string, m: nat, p: string)
    requires m <= |d| && d[m..] == p && |p| >= 2
    ensures d[m] == p[0] && d[m + 1..|d| - 1] == p[1..|p| - 1] && d[|d| - 1] == p[|p| - 1]
  {
    assert forall i :: 0 <= i < |p| ==> d[m + i] == p[i];
  }

  lemma NameRuns(d: string, k: nat, name: string, space: string, p: string)
    requires k <= |d| && d[k..] == name + (space + p) && AllWord(name) && AllSpace(space) && p != [] && p[0] == '('
    ensures WordRun(d[k..]) == |name| && AfterName(d, k) == k + |name| + |space|
  {
    assert (space + p)[0] == if space == [] then '(' else space[0];
    WordRunConcat(name, space + p);
    DropDrop(d, k, |name|);
    assert d[k + |name|..] == space + p;
    SpaceRunConcat(space, p);
    assert SpaceRun(p) == 0;
  }

  lemma ReadsFromSlices(d: string, ret: string, gap: string, name: string, space: string, args: string, k: nat, n: nat,
                        m: nat)
    requires IsName(name) && IsLaid(ret, gap) && AllSpace(space) && Sliced(d, ret, gap, name, space, args, k, n, m)
    ensures Reads(d, k, ret, name, args)
  {
    assert d[k..] == d[k..n] + (d[n..m] + d[m..]);
    NameRuns(d, k, name, space, d[m..]);
    StripRet(ret, gap);
    Bounded(d, k, ret, gap);
    HeadThere(d, k, name, m);
    ReadsIs(d, k, ret, name, args, m);
  }

  lemma ReadsIs(d: string, k: nat, ret: string, name: string, args: string, m: nat)
    requires Trimmed(d) && HeadAt(d, k) && Strip(d[..k]) == ret && m + 1 <= |d| - 1 && d[|d| - 1] == ')'
    requires WordRun(d[k..]) == |name| && k + |name| <= |d| && d[k..k + |name|] == name
    requires AfterName(d, k) == m && d[m + 1..|d| - 1] == args
    ensures Reads(d, k, ret, name, args)
  {
  }

  lemma HeadThere(d: string, k: nat, name: string, m: nat)
    requires IsName(name) && 0 < k && k + |name| <= m < |d| && d[k..k + |name|] == name && !IsWord(d[k - 1])
    requires WordRun(d[k..]) == |name| && AfterName(d, k) == m && d[m] == '('
    ensures HeadAt(d, k)
  {
    NamedThere(d, k, name);
  }

  lemma NamedThere(d: string, k: nat, name: string)
    requires IsName(name) && k + |name| <= |d| && d[k..k + |name|] == name
    ensures At(d, k, "lr_")
  {
    assert d[k..k + 3] == name[0..3];
  }

  lemma Bounded(d: string, k: nat, ret: string, gap: string)
    requires IsLaid(ret, gap) && k == |ret| + |gap| <= |d| && d[..k] == ret + gap
    ensures k > 0 && !IsSpace(d[0]) && !IsWord(d[k - 1])
  {
    assert d[0] == (ret + gap)[0] && d[k - 1] == (ret + gap)[k - 1];
  }

  lemma DeclaredReads(ret: string, gap: string, name: string, space: string, args: string)
    requires IsName(name) && IsLaid(ret, gap) && AllSpace(space)
    ensures Reads(Declared(ret, gap, name, space, args), |ret| + |gap|, ret, name, args)
  {
    DeclaredReadsAt(Declared(ret, gap, name, space, args), ret, gap, name, space, args,
                    |ret| + |gap|, |ret| + |gap| + |name|, |ret| + |gap| + |name| + |space|);
  }

  lemma DeclaredReadsAt(d: string, ret: string, gap: string, name: string, space: string, args: string, k: nat, n: nat,
                        m: nat)
    requires IsName(name) && IsLaid(ret, gap) && AllSpace(space)
    requires d == Declared(ret, gap, name, space, args) && k == |ret| + |gap| && n == k + |name| && m == n + |space|
    ensures Reads(d, k, ret, name, args)
  {
    DeclaredSlices(d, ret, gap, name, space, args, k, n, m);
    ReadsFromSlices(d, ret, gap, name, space, args, k, n, m);
  }

  lemma NotAtBlank(d: string, j: nat)
    requires j < |d| && IsSpace(d[j])
    ensures !HeadAt(d, j)
  {
    if HeadAt(d, j) { AtChar(d, j, "lr_", 0); }
  }

  lemma NameStarts(name: string)
    requires IsName(name)
    ensures name[0] == 'l'
  {
    AtChar(name, 0, "lr_", 0);
  }

  lemma FirstHeadOfDeclared(ret: string, gap: string, name: string, space: string, args: string)
    requires IsName(name) && IsReturnType(ret) && IsLaid(ret, gap) && AllSpace(space)
    ensures FirstHead(Declared(ret, gap, name, space, args), 1) == Some(|ret| + |gap|)
  {
    var x := name + (space + ("(" + (args + ")")));
    DeclaredReads(ret, gap, name, space, args);
    NameStarts(name);
    FirstHeadAt(ret, gap, x);
  }

  lemma FirstHeadAt(ret: string, gap: string, x: string)
    requires IsReturnType(ret) && IsLaid(ret, gap) && x != [] && x[0] == 'l' && HeadAt(ret + (gap + x), |ret| + |gap|)
    ensures FirstHead(ret + (gap + x), 1) == Some(|ret| + |gap|)
  {
    forall j | 1 <= j < |ret| + |gap| ensures !HeadAt(ret + (gap + x), j) { NoHeadBefore(ret, gap, x, j); }
    FirstHeadIs(ret + (gap + x), |ret| + |gap|);
  }

  lemma FirstHeadIs(d: string, k: nat)
    requires 1 <= k && HeadAt(d, k) && forall j :: 1 <= j < k ==> !HeadAt(d, j)
    ensures FirstHead(d, 1) == Some(k)
  {
    assert FirstHead(d, 1).Some?;
  }

  lemma NoHeadBefore(ret: string, gap: string, x: string, j: nat)
    requires IsReturnType(ret) && IsLaid(ret, gap) && x != [] && x[0] == 'l' && 1 <= j < |ret| + |gap|
    ensures !HeadAt(ret + (gap + x), j)
  {
    var d := ret + (gap + x);
    if j >= |ret| {
      assert d[j] == gap[j - |ret|];
      NotAtBlank(d, j);
    } else if HeadAt(d, j) {
      HeadInside(ret, gap, x, j);
    }
  }

  lemma SignatureIsDeclared(ret: string, name: string, args: string)
    ensures Signature(ret, name, args) == Declared(ret, " ", name, "", args)
  {
    assert "" + ("(" + (args + ")")) == "(" + (args + ")");
  }

  lemma SignatureReads(ret: string, name: string, args: string)
    requires IsName(name) && Trimmed(ret)
    ensures Reads(Signature(ret, name, args), |ret| + 1, ret, name, args)
  {
    SignatureIsDeclared(ret, name, args);
    DeclaredReads(ret, " ", name, "", args);
  }

  lemma {:induction false} SemicolonsDropped(d: string, q: string)
    requires (d == [] || d[|d| - 1] != ';') && forall i :: 0 <= i < |q| ==> q[i] == ';'
    ensures DropSemicolons(d + q) == d
  {
    if q == [] {
      assert d + q == d;
    } else {
      assert (d + q)[..|d + q| - 1] == d + q[..|q| - 1];
      SemicolonsDropped(d, q[..|q| - 1]);
    }
  }

  /** Blanks around a declaration and semicolons behind it do not matter. */
  lemma CoreAny(a: string, d: string, w: string, q: string, v: string)
    requires Trimmed(d) && d[|d| - 1] != ';' && AllSpace(a) && AllSpace(w) && AllSpace(v)
    requires forall i :: 0 <= i < |q| ==> q[i] == ';'
    ensures Core(a + (((d + w) + q) + v)) == d
  {
    if q == [] {
      assert ((d + w) + q) + v == d + (w + v);
      StripTrimmed(a, d, w + v);
      assert d + "" == d;
      SemicolonsDropped(d, "");
      StripSame(d);
    } else {
      var t := (d + w) + q;
      assert t[0] == d[0] && t[|t| - 1] == ';';
      StripTrimmed(a, t, v);
      SemicolonsDropped(d + w, q);
      StripRet(d, w);
    }
  }

  lemma FnAtReads(handles: seq<Handle>, d: string, k: nat, ret: string, name: string, args: string)
    requires Reads(d, k, ret, name, args)
    ensures FnAt(handles, d, k) == Fn(name, Resolve(handles, ret), ParseArgs(args))
  {
  }

  /** What is read from a declaration in any layout, with blanks around it and any number of
      semicolons: its name, its return type up to the name, and its arguments. */
  lemma ParseDeclared(handles: seq<Handle>, ret: string, gap: string, name: string, space: string, args: string,
                      ps: seq<Param>, a: string, w: string, q: string, v: string)
    requires IsName(name) && IsReturnType(ret) && IsLaid(ret, gap) && AllSpace(space) && IsArgs(args, ps)
    requires AllSpace(a) && AllSpace(w) && AllSpace(v) && forall i :: 0 <= i < |q| ==> q[i] == ';'
    ensures ParseFunction(handles, a + (((Declared(ret, gap, name, space, args) + w) + q) + v))
         == Some(Fn(name, Resolve(handles, ret), ps))
  {
    ArgsIff(args, ps);
    ParseWithArgs(handles, ret, gap, name, space, args, a, w, q, v);
  }

  lemma ParseWithArgs(handles: seq<Handle>, ret: string, gap: string, name: string, space: string, args: string,
                      a: string, w: string, q: string, v: string)
    requires IsName(name) && IsReturnType(ret) && IsLaid(ret, gap) && AllSpace(space)
    requires AllSpace(a) && AllSpace(w) && AllSpace(v) && forall i :: 0 <= i < |q| ==> q[i] == ';'
    ensures ParseFunction(handles, a + (((Declared(ret, gap, name, space, args) + w) + q) + v))
         == Some(Fn(name, Resolve(handles, ret), ParseArgs(args)))
  {
    var d := Declared(ret, gap, name, space, args);
    DeclaredReads(ret, gap, name, space, args);
    CoreAny(a, d, w, q, v);
    FirstHeadOfDeclared(ret, gap, name, space, args);
    FnAtReads(handles, d, |ret| + |gap|, ret, name, args);
  }

  lemma OneSemicolon(d: string)
    ensures "" + (((d + "") + ";") + "") == d + ";"
  {
    assert d + "" == d && (d + ";") + "" == d + ";";
  }

  lemma ParseSignature(handles: seq<Handle>, ret: string, name: string, args: string)
    requires IsName(name) && IsReturnType(ret)
    ensures ParseFunction(handles, Signature(ret, name, args) + ";")
         == Some(Fn(name, Resolve(handles, ret), ParseArgs(args)))
  {
    SignatureIsDeclared(ret, name, args);
    OneSemicolon(Signature(ret, name, args));
    ParseWithArgs(handles, ret, " ", name, "", args, "", "", ";", "");
  }

  /** A head spelled out: at a word boundary `lr_`, more word characters, blanks and an opening
      parenthesis. */
  predicate HeadSpelled(d: string, k: int, m: int, n: int) {
    && 0 < k && k + 3 < m <= n < |d| && !IsWord(d[k - 1])
    && d[k..k + 3] == "lr_" && AllWord(d[k..m]) && AllSpace(d[m..n]) && d[n] == '('
  }

  lemma HeadHasSpelling(d: string, k: nat)
    requires HeadAt(d, k)
    ensures HeadSpelled(d, k, k + WordRun(d[k..]), AfterName(d, k))
  {
    var m, n := k + WordRun(d[k..]), AfterName(d, k);
    WordRunFacts(d[k..]);
    SpaceRunFacts(d[m..]);
    assert d[k..][..m - k] == d[k..m] && d[m..][..n - m] == d[m..n];
  }

  lemma SpellingIsHead(d: string, k: nat, m: int, n: int)
    requires HeadSpelled(d, k, m, n)
    ensures HeadAt(d, k)
  {
    assert d[k..] == d[k..m] + (d[m..n] + d[n..]);
    NameRuns(d, k, d[k..m], d[m..n], d[n..]);
  }

  lemma HeadIff(d: string, k: nat)
    ensures HeadAt(d, k) <==> exists m, n :: HeadSpelled(d, k, m, n)
  {
    if HeadAt(d, k) { HeadHasSpelling(d, k); }
    if m, n :| HeadSpelled(d, k, m, n) { SpellingIsHead(d, k, m, n); }
  }

  /** A declaration is parsed exactly when it has a head and ends with a closing parenthesis. */
  lemma ParseIff(handles: seq<Handle>, decl: string)
    ensures var d := Core(decl);
            ParseFunction(handles, decl).Some? <==> (exists k: nat :: HeadAt(d, k)) && d != [] && d[|d| - 1] == ')'
  {
    HasHead(Core(decl));
    ParsedWhen(handles, decl, Core(decl));
  }

  lemma ParsedWhen(handles: seq<Handle>, decl: string, d: string)
    requires d == Core(decl)
    ensures ParseFunction(handles, decl).Some? <==> FirstHead(d, 1).Some? && d != [] && d[|d| - 1] == ')'
  {
    ParsedFrom(FirstHead(d, 1), handles, d, ParseFunction(handles, decl));
  }

  lemma ParsedFrom(k: Option<nat>, handles: seq<Handle>, d: string, r: Option<Fn>)
    requires k == FirstHead(d, 1)
    requires r == match k
                  case None => None
                  case Some(k) => if d[|d| - 1] != ')' then None else Some(FnAt(handles, d, k))
    ensures r.Some? <==> k.Some? && d != [] && d[|d| - 1] == ')'
  {
  }

  lemma HasHead(d: string)
    ensures FirstHead(d, 1).Some? <==> exists k: nat :: HeadAt(d, k)
  {
    if k: nat :| HeadAt(d, k) { assert k >= 1; }
  }

  /** What parsing makes of a printed record. */
  lemma ParsePrinted(handles: seq<Handle>, f: Fn)
    requires Parsable(handles, f)
    ensures ParseFunction(handles, PrintFunction(f)) == Some(f.(params := ParseArgs(PrintArgs(f.params))))
  {
    ParseSignature(handles, f.ret, f.name, PrintArgs(f.params));
  }

  lemma NameParsed(d: string, k: nat)
    requires HeadAt(d, k)
    ensures IsName(d[k..k + WordRun(d[k..])])
  {
    WordRunFacts(d[k..]);
    var name := d[k..k + WordRun(d[k..])];
    assert name == d[k..][..WordRun(d[k..])];
    assert name[0..3] == d[k..k + 3];
  }

  /** Trimming a prefix of a trimmed text only drops blanks at its end. */
  lemma StripPrefix(d: string, k: nat) returns (b: string)
    requires Trimmed(d) && 0 < k <= |d|
    ensures Trimmed(Strip(d[..k])) && d == Strip(d[..k]) + (b + d[k..]) && |Strip(d[..k])| <= k
  {
    var pre := d[..k];
    var a;
    a, b := StripSplits(pre);
    StripBlank(pre);
    assert pre[0] == d[0];
    NoLead(pre, a, Strip(pre) + b);
    assert pre == Strip(pre) + b && d == pre + d[k..];
    Assoc(Strip(pre), b, d[k..]);
  }

  lemma ReturnTypeParsed(d: string, k: nat)
    requires Trimmed(d) && FirstHead(d, 1) == Some(k)
    ensures IsReturnType(Strip(d[..k]))
  {
    var b := StripPrefix(d, k);
    var ret := Strip(d[..k]);
    forall j | 0 < j < |ret| ensures !HeadAt(ret, j) {
      if HeadAt(ret, j) { HeadExtends(ret, b + d[k..], j); }
    }
  }

  // ---- which texts are declarations ----

  /** A declaration as it may be written: blanks, return type, blanks, name, blanks, arguments in
      parentheses, blanks, semicolons and blanks. */
  datatype Layout = Layout(lead: string, ret: string, gap: string, name: string, space: string, args: string,
                           back: string, semicolons: string, tail: string)

  ghost predicate IsDeclLayout(l: Layout) {
    && AllSpace(l.lead) && IsReturnType(l.ret) && IsLaid(l.ret, l.gap) && IsName(l.name) && AllSpace(l.space)
    && AllSpace(l.back) && (forall i :: 0 <= i < |l.semicolons| ==> l.semicolons[i] == ';') && AllSpace(l.tail)
  }

  function LaidOut(l: Layout): string {
    l.lead + (((Declared(l.ret, l.gap, l.name, l.space, l.args) + l.back) + l.semicolons) + l.tail)
  }

  /** The record that such a text declares. */
  ghost predicate Declares(handles: seq<Handle>, l: Layout, f: Fn) {
    IsDeclLayout(l) && f.name == l.name && f.ret == Resolve(handles, l.ret) && IsArgs(l.args, f.params)
  }

  lemma {:induction false} SemicolonsSplit(s: string) returns (q: string)
    ensures s == DropSemicolons(s) + q && forall i :: 0 <= i < |q| ==> q[i] == ';'
  {
    if s != [] && s[|s| - 1] == ';' {
      var p := SemicolonsSplit(s[..|s| - 1]);
      q := p + ";";
    } else {
      q := "";
    }
  }

  lemma CoreSplits(decl: string) returns (lead: string, back: string, q: string, tail: string)
    requires Core(decl) != ""
    ensures decl == lead + (((Core(decl) + back) + q) + tail) && Trimmed(Core(decl))
    ensures AllSpace(lead) && AllSpace(back) && AllSpace(tail) && forall i :: 0 <= i < |q| ==> q[i] == ';'
  {
    var s := Strip(decl);
    lead, tail := StripSplits(decl);
    q := SemicolonsSplit(s);
    var e := DropSemicolons(s);
    var x;
    x, back := StripSplits(e);
    if s != "" && e != "" { assert e[0] == s[0]; }
    NoLead(e, x, Core(decl) + back);
  }

  lemma DeclaredFrom(d: string, ret: string, gap: string, y: string, name: string, space: string, args: string)
    requires d == ret + (gap + y) && y == name + (space + ("(" + (args + ")")))
    ensures d == Declared(ret, gap, name, space, args)
  {
  }

  lemma GapBefore(d: string, k: nat) returns (gap: string)
    requires Trimmed(d) && 0 < k < |d| && !IsWord(d[k - 1])
    ensures d == Strip(d[..k]) + (gap + d[k..]) && IsLaid(Strip(d[..k]), gap)
  {
    var x, y := d[..k], d[k..];
    assert d == x + y && x[0] == d[0] && x[k - 1] == d[k - 1];
    gap := GapIn(x);
    Assoc(Strip(x), gap, y);
  }

  lemma GapIn(x: string) returns (gap: string)
    requires x != [] && !IsSpace(x[0]) && !IsWord(x[|x| - 1])
    ensures x == Strip(x) + gap && IsLaid(Strip(x), gap)
  {
    var a, b := StripSplits(x);
    StripBlank(x);
    NoLead(x, a, Strip(x) + b);
    gap := b;
    assert x[|x| - 1] == if gap == [] then Strip(x)[|Strip(x)| - 1] else gap[|gap| - 1];
  }

  lemma InParentheses(r: string)
    requires |r| >= 2 && r[0] == '(' && r[|r| - 1] == ')'
    ensures r == "(" + (r[1..|r| - 1] + ")")
  {
  }

  lemma PartsBehindName(d: string, k: nat) returns (space: string)
    requires HeadAt(d, k) && d[|d| - 1] == ')'
    ensures AllSpace(space)
    ensures d[k..] == d[k..k + WordRun(d[k..])] + (space + ("(" + (d[AfterName(d, k) + 1..|d| - 1] + ")")))
  {
    var n, m := k + WordRun(d[k..]), AfterName(d, k);
    BlanksAt(d, n, m);
    PartsAt(d, k, n, m);
    space := d[n..m];
  }

  lemma BlanksAt(d: string, n: nat, m: nat)
    requires n <= |d| && m == n + SpaceRun(d[n..])
    ensures m <= |d| && AllSpace(d[n..m])
  {
    SpaceRunFacts(d[n..]);
    assert d[n..m] == d[n..][..SpaceRun(d[n..])];
  }

  lemma PartsAt(d: string, k: nat, n: nat, m: nat)
    requires k <= n <= m < |d| - 1 && d[m] == '(' && d[|d| - 1] == ')'
    ensures d[k..] == d[k..n] + (d[n..m] + ("(" + (d[m + 1..|d| - 1] + ")")))
  {
    var r := d[m..];
    assert r[1..|r| - 1] == d[m + 1..|d| - 1];
    InParentheses(r);
    assert d[n..] == d[n..m] + r;
    assert d[k..] == d[k..n] + d[n..];
  }

  lemma NamedParts(d: string, k: nat) returns (name: string, space: string, args: string)
    requires HeadAt(d, k) && d[|d| - 1] == ')'
    ensures d[k..] == name + (space + ("(" + (args + ")"))) && IsName(name) && AllSpace(space)
  {
    name, args := d[k..k + WordRun(d[k..])], d[AfterName(d, k) + 1..|d| - 1];
    NameParsed(d, k);
    space := PartsBehindName(d, k);
  }

  lemma TypedParts(d: string, k: nat) returns (ret: string, gap: string)
    requires Trimmed(d) && FirstHead(d, 1) == Some(k)
    ensures d == ret + (gap + d[k..]) && IsReturnType(ret) && IsLaid(ret, gap)
  {
    ret := Strip(d[..k]);
    ReturnTypeParsed(d, k);
    gap := GapBefore(d, k);
  }

  lemma PartsOf(d: string, k: nat) returns (ret: string, gap: string, name: string, space: string, args: string)
    requires Trimmed(d) && FirstHead(d, 1) == Some(k) && d[|d| - 1] == ')'
    ensures d == Declared(ret, gap, name, space, args)
    ensures IsReturnType(ret) && IsLaid(ret, gap) && IsName(name) && AllSpace(space)
  {
    ret, gap := TypedParts(d, k);
    name, space, args := NamedParts(d, k);
    DeclaredFrom(d, ret, gap, d[k..], name, space, args);
  }

  /** Whatever is parsed is laid out as a declaration. */
  lemma ParsedLayout(handles: seq<Handle>, decl: string) returns (l: Layout)
    requires ParseFunction(handles, decl).Some?
    ensures IsDeclLayout(l) && decl == LaidOut(l)
  {
    ParsedWhen(handles, decl, Core(decl));
    var lead, back, q, tail := CoreSplits(decl);
    var ret, gap, name, space, args := PartsOf(Core(decl), FirstHead(Core(decl), 1).value);
    l := LayoutFrom(decl, Core(decl), lead, ret, gap, name, space, args, back, q, tail);
  }

  lemma LayoutFrom(decl: string, d: string, lead: string, ret: string, gap: string, name: string, space: string,
                   args: string, back: string, q: string, tail: string)
    returns (l: Layout)
    requires decl == lead + (((d + back) + q) + tail) && d == Declared(ret, gap, name, space, args)
    requires AllSpace(lead) && IsReturnType(ret) && IsLaid(ret, gap) && IsName(name) && AllSpace(space)
    requires AllSpace(back) && (forall i :: 0 <= i < |q| ==> q[i] == ';') && AllSpace(tail)
    ensures IsDeclLayout(l) && decl == LaidOut(l)
  {
    l := Layout(lead, ret, gap, name, space, args, back, q, tail);
  }

  lemma LayoutRead(handles: seq<Handle>, l: Layout, ps: seq<Param>)
    requires IsDeclLayout(l) && IsArgs(l.args, ps)
    ensures ParseFunction(handles, LaidOut(l)) == Some(Fn(l.name, Resolve(handles, l.ret), ps))
  {
    ParseDeclared(handles, l.ret, l.gap, l.name, l.space, l.args, ps, l.lead, l.back, l.semicolons, l.tail);
  }

  /** What a text is parsed as: the record it declares, in any layout, and an error if it declares
      none. */
  lemma DeclarationIff(handles: seq<Handle>, decl: string, f: Fn)
    ensures ParseFunction(handles, decl) == Some(f) <==> exists l :: Declares(handles, l, f) && decl == LaidOut(l)
  {
    if ParseFunction(handles, decl) == Some(f) {
      var l := ParsedLayout(handles, decl);
      ArgsIff(l.args, ParseArgs(l.args));
      LayoutRead(handles, l, ParseArgs(l.args));
      assert Declares(handles, l, f);
    }
    if l :| Declares(handles, l, f) && decl == LaidOut(l) { LayoutRead(handles, l, f.params); }
  }

  lemma WordHasNoHead(w: string)
    requires w != [] && AllWord(w)
    ensures IsReturnType(w) && OpaqueName(w).None?
  {
    forall k | 0 < k < |w| ensures !HeadAt(w, k) {
      assert IsWord(w[k - 1]);
    }
    if StartsWith(w, "struct") && |w| > 6 { assert w[6..][0] == w[6]; }
  }

  lemma {:induction false} HandleForIs(handles: seq<Handle>, c: string, ret: string)
    requires WordHandles(handles)
    ensures var r := HandleFor(handles, c, ret); r == ret || (r != [] && AllWord(r))
  {
    if handles != [] && handles[0].cStruct != c {
      HandleForIs(handles[1..], c, ret);
    }
  }

  lemma ResolveKeeps(handles: seq<Handle>, ret: string)
    requires WordHandles(handles) && IsReturnType(ret)
    ensures var r := Resolve(handles, ret); IsReturnType(r) && Resolve(handles, r) == r
  {
    match OpaqueName(ret)
    case None =>
    case Some(c) =>
      HandleForIs(handles, c, ret);
      var r := HandleFor(handles, c, ret);
      if r != ret { WordHasNoHead(r); }
  }

  lemma CoreIsTrimmed(decl: string)
    ensures Core(decl) == "" || Trimmed(Core(decl))
  {
    var a, b := StripSplits(DropSemicolons(Strip(decl)));
  }

  lemma ArgsParsed(args: string)
    requires Printable(ParseArgs(args))
    ensures IsParamList(ParseArgs(args))
  {
    var a := Strip(args);
    if a != "void" && a != "" { ParsedIsParamList(a); }
  }

  lemma FnName(handles: seq<Handle>, d: string, k: nat, f: Fn)
    requires HeadAt(d, k) && d[|d| - 1] == ')' && f == FnAt(handles, d, k)
    ensures IsName(f.name)
  {
    NameParsed(d, k);
  }

  lemma FnReturn(handles: seq<Handle>, d: string, k: nat, f: Fn)
    requires WordHandles(handles) && Trimmed(d) && FirstHead(d, 1) == Some(k) && d[|d| - 1] == ')'
    requires f == FnAt(handles, d, k)
    ensures IsReturnType(f.ret) && Resolve(handles, f.ret) == f.ret
  {
    ReturnTypeParsed(d, k);
    ResolveKeeps(handles, Strip(d[..k]));
  }

  lemma FnParams(handles: seq<Handle>, d: string, k: nat, f: Fn)
    requires HeadAt(d, k) && d[|d| - 1] == ')' && f == FnAt(handles, d, k) && Printable(f.params)
    ensures IsParamList(f.params)
  {
    ArgsParsed(d[AfterName(d, k) + 1..|d| - 1]);
  }

  lemma ParsableParts(handles: seq<Handle>, f: Fn)
    requires IsName(f.name) && IsReturnType(f.ret) && Resolve(handles, f.ret) == f.ret && IsParamList(f.params)
    ensures Parsable(handles, f)
  {
  }

  lemma FnAtIsParsable(handles: seq<Handle>, d: string, k: nat, f: Fn)
    requires WordHandles(handles) && Trimmed(d) && FirstHead(d, 1) == Some(k) && d[|d| - 1] == ')'
    requires f == FnAt(handles, d, k) && Printable(f.params)
    ensures Parsable(handles, f)
  {
    FnName(handles, d, k, f);
    FnReturn(handles, d, k, f);
    FnParams(handles, d, k, f);
    ParsableParts(handles, f);
  }

  /** Whatever the parser returns, and has no empty parameter, could be parsed again. */
  lemma ParsedIsParsable(handles: seq<Handle>, decl: string)
    requires WordHandles(handles)
    requires ParseFunction(handles, decl).Some? && Printable(ParseFunction(handles, decl).value.params)
    ensures Parsable(handles, ParseFunction(handles, decl).value)
  {
    CoreIsTrimmed(decl);
    FnAtIsParsable(handles, Core(decl), FirstHead(Core(decl), 1).value, ParseFunction(handles, decl).value);
  }

  /** Printing a function record and parsing it back returns it if and only if it is well
      formed. */
  lemma RoundTripIff(handles: seq<Handle>, f: Fn)
    requires WordHandles(handles) && Printable(f.params)
    ensures ParseFunction(handles, PrintFunction(f)) == Some(f) <==> WellFormed(handles, f)
  {
    if ParseFunction(handles, PrintFunction(f)) == Some(f) {
      ParsedIsParsable(handles, PrintFunction(f));
    }
    if Parsable(handles, f) {
      ParsePrinted(handles, f);
      ArgsRoundTrip(f.params);
    }
  }
}
