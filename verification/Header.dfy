/** Collecting the function declarations of a whole header. */
module Header {
  import opened Text
  import opened Braces
  import opened Comments
  import TopLevel
  import opened Params
  import opened Decl

  // ---- statements ----

  /** The text since the last statement ended. */
  function Unfinished(s: string): string {
    if s == [] then ""
    else if s[|s| - 1] == ';' && Net(s) == 0 then ""
    else Unfinished(s[..|s| - 1]) + [s[|s| - 1]]
  }

  /** The statements of `s`: each ends at a semicolon outside every brace. */
  function Statements(s: string): seq<string> {
    if s == [] then []
    else
      var t := s[..|s| - 1];
      if s[|s| - 1] == ';' && Net(s) == 0 then Statements(t) + [Strip(Unfinished(t) + ";")] else Statements(t)
  }

  /** `\blr_\w+\s*\(` found somewhere. */
  predicate MentionsCall(stmt: string) {
    exists k :: 0 <= k < |stmt| && CallAt(stmt, k)
  }

  predicate CallAt(s: string, k: nat)
    requires k < |s|
  {
    && (k == 0 || !IsWord(s[k - 1])) && At(s, k, "lr_") && WordRun(s[k..]) > 3
    && AfterName(s, k) < |s| && s[AfterName(s, k)] == '('
  }

  /** The statements that are not even tried. */
  predicate Skipped(stmt: string) {
    || stmt == "" || StartsWith(stmt, "typedef") || StartsWith(stmt, "#")
    || StartsWith(stmt, "enum class") || StartsWith(stmt, "enum ")
    || (StartsWith(stmt, "struct ") && '(' !in stmt)
    || Find(stmt, "lr_").None? || '(' !in stmt || !MentionsCall(stmt)
  }

  function Accept(handles: seq<Handle>, stmt: string): Option<Fn> {
    if Skipped(stmt) then None else ParseFunction(handles, stmt)
  }

  function Names(fs: seq<Fn>): set<string> {
    set f | f in fs :: f.name
  }

  /** A record joins the list unless its name is there already. */
  function Keep(fs: seq<Fn>, e: Option<Fn>): seq<Fn> {
    if e.Some? && e.value.name !in Names(fs) then fs + [e.value] else fs
  }

  /** The accepted statements, the first one of each name. */
  function Gather(handles: seq<Handle>, stmts: seq<string>): seq<Fn> {
    if stmts == [] then []
    else Keep(Gather(handles, stmts[..|stmts| - 1]), Accept(handles, stmts[|stmts| - 1]))
  }

  function FunctionsOf(handles: seq<Handle>, text: string): seq<Fn> {
    Gather(handles, Statements(Deleted(text)))
  }

  lemma GatherSnoc(handles: seq<Handle>, stmts: seq<string>, stmt: string)
    ensures Gather(handles, stmts + [stmt]) == Keep(Gather(handles, stmts), Accept(handles, stmt))
  {
    assert (stmts + [stmt])[..|stmts|] == stmts;
  }

  method TryStatement(handles: seq<Handle>, stmt: string) returns (decl: Option<Fn>)
    ensures decl == Accept(handles, stmt)
  {
    if Skipped(stmt) {
      return None;
    }
    return ParseFunction(handles, stmt);
  }

  lemma NamesSnoc(fs: seq<Fn>, f: Fn)
    ensures Names(fs + [f]) == Names(fs) + {f.name}
  {
    assert forall g :: g in fs + [f] <==> g in fs || g == f;
  }

  method TakeStatement(handles: seq<Handle>, decls: seq<Fn>, seen: set<string>, stmt: string)
    returns (decls': seq<Fn>, seen': set<string>)
    requires seen == Names(decls)
    ensures decls' == Keep(decls, Accept(handles, stmt)) && seen' == Names(decls')
  {
    decls', seen' := decls, seen;
    var decl := TryStatement(handles, stmt);
    if decl.None? || decl.value.name in seen {
      return;
    }
    NamesSnoc(decls, decl.value);
    seen' := seen + {decl.value.name};
    decls' := decls + [decl.value];
  }

  lemma OneMoreCharacter(text: string, i: nat)
    requires i < |text|
    ensures var s, t, c := text[..i], text[..i + 1], text[i];
            && Net(t) == Net(s) + Weight(c)
            && (if c == ';' && Net(t) == 0
                then Unfinished(t) == "" && Statements(t) == Statements(s) + [Strip(Unfinished(s) + ";")]
                else Unfinished(t) == Unfinished(s) + [c] && Statements(t) == Statements(s))
  {
    var s, t, c := text[..i], text[..i + 1], text[i];
    assert t[..|t| - 1] == s && t == s + [c];
    NetConcat(s, [c]);
    assert [c][1..] == [];
  }

  method CollectFunctionDecls(handles: seq<Handle>, header: string) returns (decls: seq<Fn>)
    ensures decls == FunctionsOf(handles, header)
  {
    var text := Deleted(header);
    decls := [];
    var seen: set<string> := {};
    var depth, cur := 0, "";
    for i := 0 to |text|
      invariant depth == Net(text[..i]) && cur == Unfinished(text[..i])
      invariant decls == Gather(handles, Statements(text[..i])) && seen == Names(decls)
    {
      OneMoreCharacter(text, i);
      if text[i] == '{' {
        depth := depth + 1;
        cur := cur + [text[i]];
      } else if text[i] == '}' {
        depth := depth - 1;
        cur := cur + [text[i]];
      } else if text[i] == ';' && depth == 0 {
        var stmt := Strip(cur + ";");
        cur := "";
        GatherSnoc(handles, Statements(text[..i]), stmt);
        decls, seen := TakeStatement(handles, decls, seen, stmt);
      } else {
        cur := cur + [text[i]];
      }
    }
    assert text[..|text|] == text;
  }

  predicate Distinct(fs: seq<Fn>) {
    forall i, j :: 0 <= i < j < |fs| ==> fs[i].name != fs[j].name
  }

  lemma KeepDistinct(fs: seq<Fn>, e: Option<Fn>)
    requires Distinct(fs)
    ensures Distinct(Keep(fs, e))
  {
    forall i | 0 <= i < |fs| ensures fs[i].name in Names(fs) {
      assert fs[i] in fs;
    }
  }

  lemma {:induction false} GatherDistinct(handles: seq<Handle>, stmts: seq<string>)
    ensures Distinct(Gather(handles, stmts))
  {
    if stmts != [] {
      var init := stmts[..|stmts| - 1];
      GatherDistinct(handles, init);
      KeepDistinct(Gather(handles, init), Accept(handles, stmts[|stmts| - 1]));
    }
  }

  /** On any text, the names collected are pairwise distinct. */
  lemma NamesAreDistinct(handles: seq<Handle>, text: string)
    ensures Distinct(FunctionsOf(handles, text))
  {
    GatherDistinct(handles, Statements(Deleted(text)));
  }

  // ---- printing a list and collecting it again ----

  /** The start of a statement that is skipped although it may declare a function. */
  predicate OpensOther(sig: string) {
    StartsWith(sig, "typedef") || StartsWith(sig, "#") || StartsWith(sig, "enum ")
  }

  /** A printed declaration the splitter takes in one piece: no comment, no brace, no inner
      semicolon, and not the start of another kind of statement. */
  predicate OneStatement(f: Fn)
    requires Printable(f.params)
  {
    var sig := Signature(f.ret, f.name, PrintArgs(f.params));
    '/' !in sig && ';' !in sig && Braceless(sig) && !OpensOther(sig)
  }

  function PrintFunctions(fs: seq<Fn>): seq<string>
    requires forall i :: 0 <= i < |fs| ==> Printable(fs[i].params)
  {
    if fs == [] then [] else PrintFunctions(fs[..|fs| - 1]) + [PrintFunction(fs[|fs| - 1])]
  }

  lemma StartsWithSemicolon(sig: string, x: string)
    requires ';' !in x
    ensures StartsWith(sig + ";", x) <==> StartsWith(sig, x)
  {
    var p := sig + ";";
    if |x| <= |sig| {
      assert p[0..|x|] == sig[0..|x|];
    } else if |x| == |p| {
      assert p[0..|x|][|sig|] == ';';
    }
  }

  lemma PrefixOfPrefix(s: string, x: string, y: string)
    requires StartsWith(s, x + y)
    ensures StartsWith(s, x)
  {
    assert s[0..|x|] == (x + y)[0..|x|] == x;
  }

  lemma AnotherKind(sig: string)
    ensures var p := sig + ";";
            (StartsWith(p, "typedef") || StartsWith(p, "#") || StartsWith(p, "enum class") || StartsWith(p, "enum "))
            <==> OpensOther(sig)
  {
    StartsWithSemicolon(sig, "typedef");
    StartsWithSemicolon(sig, "#");
    StartsWithSemicolon(sig, "enum ");
    assert "enum " + "class" == "enum class";
    if StartsWith(sig + ";", "enum class") { PrefixOfPrefix(sig + ";", "enum ", "class"); }
  }

  lemma MentionsItsHead(sig: string, k: nat)
    requires HeadAt(sig, k)
    ensures var p := sig + ";"; MentionsCall(p) && Find(p, "lr_").Some? && '(' in p
  {
    var p := sig + ";";
    HeadExtends(sig, ";", k);
    assert CallAt(p, k) && At(p, k, "lr_");
    assert p[AfterName(p, k)] in p;
  }

  lemma HeadBehind(a: string, y: string, k: nat)
    requires HeadAt(y, k)
    ensures CallAt(a + y, |a| + k) && At(a + y, |a| + k, "lr_") && (a + y)[AfterName(a + y, |a| + k)] == '('
  {
    var s, n := a + y, k + WordRun(y[k..]);
    assert s[|a| + k..] == y[k..] && s[|a| + n..] == y[n..];
    assert s[|a| + k..|a| + k + 3] == y[k..k + 3];
    assert s[|a| + k - 1] == y[k - 1];
  }

  lemma CoreHead(stmt: string, k: nat)
    requires HeadAt(Core(stmt), k)
    ensures MentionsCall(stmt) && Find(stmt, "lr_").Some? && '(' in stmt
  {
    var lead, back, q, tail := CoreSplits(stmt);
    var d := Core(stmt);
    var y := ((d + back) + q) + tail;
    assert y == d + ((back + q) + tail);
    HeadExtends(d, (back + q) + tail, k);
    HeadBehind(lead, y, k);
    assert CallAt(stmt, |lead| + k);
    assert stmt[AfterName(stmt, |lead| + k)] in stmt;
  }

  /** The filters in front of the parser only keep out statements that start as another kind: any
      other statement is taken exactly when it parses. */
  lemma AcceptIsParse(handles: seq<Handle>, stmt: string)
    ensures Accept(handles, stmt) == if OpensOther(stmt) then None else ParseFunction(handles, stmt)
  {
    if StartsWith(stmt, "enum class") {
      assert "enum " + "class" == "enum class";
      PrefixOfPrefix(stmt, "enum ", "class");
    }
    if ParseFunction(handles, stmt).Some? { CoreHead(stmt, FirstHead(Core(stmt), 1).value); }
  }

  lemma AcceptStatement(handles: seq<Handle>, sig: string, k: nat)
    requires HeadAt(sig, k)
    ensures Accept(handles, sig + ";") == if OpensOther(sig) then None else ParseFunction(handles, sig + ";")
  {
    AnotherKind(sig);
    MentionsItsHead(sig, k);
  }

  lemma ParseStatement(handles: seq<Handle>, ret: string, gap: string, name: string, space: string, args: string,
                       ps: seq<Param>)
    requires IsName(name) && IsReturnType(ret) && IsLaid(ret, gap) && AllSpace(space) && IsArgs(args, ps)
    ensures ParseFunction(handles, Declared(ret, gap, name, space, args) + ";")
         == Some(Fn(name, Resolve(handles, ret), ps))
  {
    OneSemicolon(Declared(ret, gap, name, space, args));
    ParseDeclared(handles, ret, gap, name, space, args, ps, "", "", ";", "");
  }

  /** A declaration is accepted exactly when its statement does not start as another kind. */
  lemma AcceptIff(handles: seq<Handle>, ret: string, gap: string, name: string, space: string, args: string,
                  ps: seq<Param>)
    requires IsName(name) && IsLaid(ret, gap) && AllSpace(space) && IsArgs(args, ps)
    ensures var sig := Declared(ret, gap, name, space, args);
            && (OpensOther(sig) ==> Accept(handles, sig + ";") == None)
            && (!OpensOther(sig) && IsReturnType(ret) ==>
                  Accept(handles, sig + ";") == Some(Fn(name, Resolve(handles, ret), ps)))
  {
    DeclaredReads(ret, gap, name, space, args);
    AcceptStatement(handles, Declared(ret, gap, name, space, args), |ret| + |gap|);
    if IsReturnType(ret) { ParseStatement(handles, ret, gap, name, space, args, ps); }
  }

  lemma AcceptPrinted(handles: seq<Handle>, f: Fn)
    requires WellFormed(handles, f) && OneStatement(f)
    ensures Accept(handles, PrintFunction(f)) == Some(f)
  {
    SignatureIsDeclared(f.ret, f.name, PrintArgs(f.params));
    ArgsRoundTrip(f.params);
    ArgsIff(PrintArgs(f.params), f.params);
    AcceptIff(handles, f.ret, " ", f.name, "", PrintArgs(f.params), f.params);
  }

  lemma {:induction false} DeletedPlain(s: string)
    requires '/' !in s
    ensures WithoutBlocks(s) == s && WithoutLines(s) == s
  {
    if s != [] {
      DeletedPlain(s[1..]);
    }
  }

  lemma {:induction false} NoStatementEnds(s: string, t: string)
    requires ';' !in t
    ensures Unfinished(s + t) == Unfinished(s) + t && Statements(s + t) == Statements(s)
  {
    if t == [] {
      assert s + t == s;
    } else {
      var u := t[..|t| - 1];
      assert (s + t)[..|s + t| - 1] == s + u;
      NoStatementEnds(s, u);
      Assoc(Unfinished(s), u, [t[|t| - 1]]);
      assert u + [t[|t| - 1]] == t;
    }
  }

  /** Where a statement has just ended outside every brace. */
  predicate AtRest(s: string) {
    Net(s) == 0 && Unfinished(s) == ""
  }

  lemma EndStatement(s: string, t: string)
    requires AtRest(s) && ';' !in t && Net(t) == 0
    ensures AtRest((s + t) + ";") && Statements((s + t) + ";") == Statements(s) + [Strip(t + ";")]
  {
    var all := (s + t) + ";";
    assert all[..|all| - 1] == s + t;
    NoStatementEnds(s, t);
    assert Unfinished(s + t) == t;
    NetConcat(s, t);
    NetConcat(s + t, ";");
    assert ";"[1..] == "";
  }

  lemma CompleteStatement(s: string, w: string, sig: string)
    requires AtRest(s) && AllSpace(w) && Trimmed(sig) && ';' !in sig && Net(sig) == 0
    ensures AtRest(s + (w + (sig + ";"))) && Statements(s + (w + (sig + ";"))) == Statements(s) + [sig + ";"]
  {
    NetConcat(w, sig);
    NetBraceless(w);
    EndStatement(s, w + sig);
    Assoc(w, sig, ";");
    Assoc(s, w + sig, ";");
    StripTrimmed(w, sig + ";", "");
    assert (sig + ";") + "" == sig + ";";
  }

  /** Records that print one statement each. */
  ghost predicate Listable(handles: seq<Handle>, fs: seq<Fn>)
    ensures Listable(handles, fs) ==> forall i :: 0 <= i < |fs| ==> Printable(fs[i].params)
  {
    forall i :: 0 <= i < |fs| ==> WellFormed(handles, fs[i]) && OneStatement(fs[i])
  }

  /** The printed list, one declaration after the other. */
  function Printout(fs: seq<Fn>): string
    requires forall i :: 0 <= i < |fs| ==> Printable(fs[i].params)
  {
    Join(PrintFunctions(fs), "\n")
  }

  lemma PrintoutSnoc(fs: seq<Fn>)
    requires fs != [] && forall i :: 0 <= i < |fs| ==> Printable(fs[i].params)
    ensures var init, p := fs[..|fs| - 1], PrintFunction(fs[|fs| - 1]);
            Printout(fs) == Printout(init) + ((if init == [] then "" else "\n") + p)
  {
    var init := fs[..|fs| - 1];
    var ps, p := PrintFunctions(init), PrintFunction(fs[|fs| - 1]);
    PrintFunctionsLength(init);
    if init == [] {
      assert ps + [p] == [p];
      assert "" + ("" + p) == p;
    } else {
      JoinSnoc(ps, p, "\n");
    }
  }

  lemma {:induction false} PrintFunctionsLength(fs: seq<Fn>)
    requires forall i :: 0 <= i < |fs| ==> Printable(fs[i].params)
    ensures |PrintFunctions(fs)| == |fs|
  {
    if fs != [] { PrintFunctionsLength(fs[..|fs| - 1]); }
  }

  lemma {:induction false} StatementsOfPrintout(handles: seq<Handle>, fs: seq<Fn>)
    requires Listable(handles, fs)
    ensures AtRest(Printout(fs)) && Statements(Printout(fs)) == PrintFunctions(fs) && '/' !in Printout(fs)
  {
    if fs != [] {
      var init, f := fs[..|fs| - 1], fs[|fs| - 1];
      StatementsOfPrintout(handles, init);
      PrintoutSnoc(fs);
      PrintedStatement(handles, Printout(init), if init == [] then "" else "\n", f);
    }
  }

  lemma PrintedStatement(handles: seq<Handle>, s: string, b: string, f: Fn)
    requires AtRest(s) && AllSpace(b) && WellFormed(handles, f) && OneStatement(f) && '/' !in s && '/' !in b
    ensures var t := s + (b + PrintFunction(f));
            AtRest(t) && Statements(t) == Statements(s) + [PrintFunction(f)] && '/' !in t
  {
    SignatureReads(f.ret, f.name, PrintArgs(f.params));
    NetBraceless(Signature(f.ret, f.name, PrintArgs(f.params)));
    CompleteStatement(s, b, Signature(f.ret, f.name, PrintArgs(f.params)));
  }

  lemma GatherOne(handles: seq<Handle>, stmts: seq<string>, stmt: string, init: seq<Fn>, f: Fn)
    requires Gather(handles, stmts) == init && Accept(handles, stmt) == Some(f) && Distinct(init + [f])
    ensures Gather(handles, stmts + [stmt]) == init + [f]
  {
    GatherSnoc(handles, stmts, stmt);
    KeepNew(init, f);
  }

  lemma {:induction false} GatherPrinted(handles: seq<Handle>, fs: seq<Fn>)
    requires Listable(handles, fs) && Distinct(fs)
    ensures Gather(handles, PrintFunctions(fs)) == fs
  {
    if fs != [] {
      var init, f := fs[..|fs| - 1], fs[|fs| - 1];
      ListableInit(handles, fs);
      GatherPrinted(handles, init);
      AcceptPrinted(handles, f);
      GatherLast(handles, fs, PrintFunctions(init), PrintFunction(f));
    }
  }

  lemma GatherLast(handles: seq<Handle>, fs: seq<Fn>, stmts: seq<string>, stmt: string)
    requires fs != [] && Distinct(fs) && Gather(handles, stmts) == fs[..|fs| - 1]
    requires Accept(handles, stmt) == Some(fs[|fs| - 1])
    ensures Gather(handles, stmts + [stmt]) == fs
  {
    var init, f := fs[..|fs| - 1], fs[|fs| - 1];
    assert fs == init + [f];
    GatherOne(handles, stmts, stmt, init, f);
  }

  lemma ListableInit(handles: seq<Handle>, fs: seq<Fn>)
    requires fs != [] && Listable(handles, fs) && Distinct(fs)
    ensures Listable(handles, fs[..|fs| - 1]) && Distinct(fs[..|fs| - 1])
    ensures WellFormed(handles, fs[|fs| - 1]) && OneStatement(fs[|fs| - 1])
  {
  }

  lemma KeepNew(init: seq<Fn>, f: Fn)
    requires Distinct(init + [f])
    ensures Keep(init, Some(f)) == init + [f]
  {
    var fs := init + [f];
    assert forall i :: 0 <= i < |init| ==> fs[i] == init[i] && init[i].name != fs[|init|].name;
  }

  /** Printing any list of distinctly named, well-formed functions and collecting the result
      returns exactly that list, in order. */
  lemma ListRoundTrip(handles: seq<Handle>, fs: seq<Fn>)
    requires Listable(handles, fs) && Distinct(fs)
    ensures FunctionsOf(handles, Printout(fs)) == fs
  {
    StatementsOfPrintout(handles, fs);
    DeletedPlain(Printout(fs));
    GatherPrinted(handles, fs);
  }

  // ---- a declaration among other text ----

  lemma KeepNames(fs: seq<Fn>, f: Fn)
    ensures f.name in Names(Keep(fs, Some(f)))
  {
    NamesSnoc(fs, f);
  }

  /** When a declaration is collected, in any layout. Everything since the last statement
      counts as its return type `ret`, the directives in between included. The declaration
      joins the list exactly when that text does not start as a directive, an alias or an
      enumeration. */
  lemma CollectedIff(handles: seq<Handle>, text: string, a: string, w: string,
                     ret: string, gap: string, name: string, space: string, args: string, ps: seq<Param>)
    requires var sig := Declared(ret, gap, name, space, args);
             Deleted(text) == a + (w + (sig + ";")) && ';' !in sig && Net(sig) == 0
    requires AtRest(a) && AllSpace(w) && IsName(name) && IsReturnType(ret) && IsLaid(ret, gap) && AllSpace(space)
    requires IsArgs(args, ps)
    ensures var before, sig := Gather(handles, Statements(a)), Declared(ret, gap, name, space, args);
            && (name in Names(FunctionsOf(handles, text)) <==> name in Names(before) || !OpensOther(sig))
            && FunctionsOf(handles, text) == if OpensOther(sig) then before
                                             else Keep(before, Some(Fn(name, Resolve(handles, ret), ps)))
  {
    var before, sig := Gather(handles, Statements(a)), Declared(ret, gap, name, space, args);
    DeclaredReads(ret, gap, name, space, args);
    CompleteStatement(a, w, sig);
    GatherSnoc(handles, Statements(a), sig + ";");
    AcceptIff(handles, ret, gap, name, space, args, ps);
    KeepNames(before, Fn(name, Resolve(handles, ret), ps));
  }

  lemma {:induction false} StatementsGrow(s: string, t: string)
    ensures Statements(s) <= Statements(s + t)
  {
    if t == [] {
      assert s + t == s;
    } else {
      assert (s + t)[..|s + t| - 1] == s + t[..|t| - 1];
      StatementsGrow(s, t[..|t| - 1]);
    }
  }

  lemma {:induction false} GatherGrows(handles: seq<Handle>, stmts: seq<string>, k: nat)
    requires k <= |stmts|
    ensures Gather(handles, stmts[..k]) <= Gather(handles, stmts)
  {
    if k < |stmts| {
      var init := stmts[..|stmts| - 1];
      assert init[..k] == stmts[..k];
      GatherGrows(handles, init, k);
    } else {
      assert stmts[..k] == stmts;
    }
  }

  /** What has been collected stays, in order, whatever follows. */
  lemma CollectedStays(handles: seq<Handle>, s: string, t: string)
    ensures Gather(handles, Statements(s)) <= Gather(handles, Statements(s + t))
  {
    StatementsGrow(s, t);
    var stmts := Statements(s + t);
    assert stmts[..|Statements(s)|] == Statements(s);
    GatherGrows(handles, stmts, |Statements(s)|);
  }

  lemma OnlyStatement(sig: string)
    requires Trimmed(sig) && '/' !in sig && ';' !in sig && Net(sig) == 0
    ensures Statements(Deleted(sig + ";")) == [sig + ";"]
  {
    CompleteStatement("", "", sig);
    assert "" + ("" + (sig + ";")) == sig + ";";
    DeletedPlain(sig + ";");
    assert [] + [sig + ";"] == [sig + ";"];
  }

  lemma GatherOnly(handles: seq<Handle>, stmt: string)
    requires Accept(handles, stmt) == None
    ensures Gather(handles, [stmt]) == []
  {
    assert [] + [stmt] == [stmt];
    GatherSnoc(handles, [], stmt);
  }

  lemma HiddenStatement(handles: seq<Handle>, ret: string, gap: string, name: string, space: string, args: string)
    requires IsName(name) && IsLaid(ret, gap) && AllSpace(space) && ret[0] == '#'
    requires var sig := Declared(ret, gap, name, space, args); '/' !in sig && ';' !in sig && Net(sig) == 0
    ensures FunctionsOf(handles, Declared(ret, gap, name, space, args) + ";") == []
  {
    var sig := Declared(ret, gap, name, space, args);
    DeclaredReads(ret, gap, name, space, args);
    OnlyStatement(sig);
    assert sig[0..1] == "#";
    ArgsIff(args, ParseArgs(args));
    AcceptIff(handles, ret, gap, name, space, args, ParseArgs(args));
    GatherOnly(handles, sig + ";");
  }

  lemma GluedDeclaration(line: string, ret: string, gap: string, name: string, space: string, args: string)
    ensures "#" + (line + ("\n" + (Declared(ret, gap, name, space, args) + ";")))
         == Declared("#" + (line + ("\n" + ret)), gap, name, space, args) + ";"
  {
    var x := gap + (name + (space + ("(" + (args + ")"))));
    Assoc(ret, x, ";");
    Assoc("\n", ret, x + ";");
    Assoc(line, "\n" + ret, x + ";");
    Assoc("#", line + ("\n" + ret), x + ";");
    Assoc("#" + (line + ("\n" + ret)), x, ";");
  }

  /** A directive line hides the declaration that follows it, whatever both say. */
  lemma DirectiveHidesDeclaration(handles: seq<Handle>, line: string, ret: string, gap: string, name: string,
                                  space: string, args: string)
    requires IsName(name) && IsLaid(ret, gap) && AllSpace(space)
    requires var sig := Declared("#" + (line + ("\n" + ret)), gap, name, space, args);
             '/' !in sig && ';' !in sig && Net(sig) == 0
    ensures FunctionsOf(handles, "#" + (line + ("\n" + (Declared(ret, gap, name, space, args) + ";")))) == []
  {
    GluedDeclaration(line, ret, gap, name, space, args);
    HiddenStatement(handles, "#" + (line + ("\n" + ret)), gap, name, space, args);
  }

  // ---- a declaration of the C header ----

  /** The handle table in the order of the typedefs, with another handle first. */
  const TWO_HANDLES := [Handle("lr_attributes_t", "OpaqueAttributes"), Handle("lr_srv6_sid_t", "OpaqueSrv6Sid")]

  const SID_RETURN := OpaqueReturn(" ", "Srv6Sid", " ")

  const SID_ARGUMENTS := "const uint8_t *" + ("" + "octets")

  lemma SecondHandle(h0: Handle, h1: Handle, w: string, x: string, v: string)
    requires IsOpaqueReturn(w, x, v) && h0.cStruct != "Opaque" + x && h1.cStruct == "Opaque" + x
    ensures Resolve([h0, h1], OpaqueReturn(w, x, v)) == h1.name
  {
    ResolveOpaque([h0, h1], w, x, v);
    assert [h0, h1][0] == h0 && [h0, h1][1] == h1;
  }

  lemma SidResolved()
    ensures Resolve(TWO_HANDLES, SID_RETURN) == "lr_srv6_sid_t"
  {
    assert "Opaque" + "Srv6Sid" == "OpaqueSrv6Sid";
    assert |"OpaqueAttributes"| != |"OpaqueSrv6Sid"|;
    SecondHandle(TWO_HANDLES[0], TWO_HANDLES[1], " ", "Srv6Sid", " ");
  }

  lemma OneArgument(t: string)
    requires Trimmed(t) && TopLevel.Flat(t) && |t| > 4
    ensures ParseArgs(t) == [ParseParam(t)]
  {
    StripSame(t);
    TopLevel.FlatIsWhole(t);
    ListParsed([t]);
    assert t != "void";
  }

  lemma OneNamed(ctype: string, gap: string, name: string)
    requires IsLayout(ctype, gap, name) && TopLevel.Flat(ctype + (gap + name)) && |ctype| > 4
    ensures ParseArgs(ctype + (gap + name)) == [Named(name, ctype)]
  {
    var t := ctype + (gap + name);
    LayoutAt(ctype, gap, name);
    LayoutParsed(ctype, gap, name, "", "");
    assert "" + (t + "") == t;
    OneArgument(t);
  }

  lemma SidLayout()
    ensures IsLayout("const uint8_t *", "", "octets")
  {
  }

  lemma SidTypeIsFlat()
    ensures TopLevel.Flat("const uint8_t *")
  {
  }

  lemma FlatBehind(a: string, b: string)
    requires TopLevel.Flat(a) && TopLevel.Flat(b)
    ensures TopLevel.Flat(a + ("" + b))
  {
    assert "" + b == b;
  }

  lemma SidIsFlat()
    ensures TopLevel.Flat(SID_ARGUMENTS)
  {
    SidTypeIsFlat();
    assert TopLevel.Flat("octets");
    FlatBehind("const uint8_t *", "octets");
  }

  lemma SidArguments()
    ensures ParseArgs(SID_ARGUMENTS) == [Named("octets", "const uint8_t *")]
  {
    SidLayout();
    SidIsFlat();
    OneNamed("const uint8_t *", "", "octets");
  }

  /** The declaration whose return type is not spelled as a handle is parsed with the handle of
      its structure and the pointer parameter by name. */
  lemma SidParsed()
    ensures ParseFunction(TWO_HANDLES, Declared(SID_RETURN, "", "lr_srv6_sid_new", "", SID_ARGUMENTS) + ";")
         == Some(Fn("lr_srv6_sid_new", "lr_srv6_sid_t", [Named("octets", "const uint8_t *")]))
  {
    SidResolved();
    SidArguments();
    SidReturn();
    SidName();
    ArgsIff(SID_ARGUMENTS, ParseArgs(SID_ARGUMENTS));
    ParseStatement(TWO_HANDLES, SID_RETURN, "", "lr_srv6_sid_new", "", SID_ARGUMENTS, ParseArgs(SID_ARGUMENTS));
  }

  lemma SidName()
    ensures IsName("lr_srv6_sid_new")
  {
    assert "lr_srv6_sid_new"[0..3] == "lr_";
  }

  lemma HeadHasParenthesis(ret: string, k: int)
    requires 0 < k && HeadAt(ret, k)
    ensures '(' in ret
  {
    assert ret[AfterName(ret, k)] == '(';
  }

  lemma NoParenthesis(ret: string)
    requires Trimmed(ret) && '(' !in ret
    ensures IsReturnType(ret)
  {
    forall k | 0 < k < |ret| ensures !HeadAt(ret, k) {
      if HeadAt(ret, k) { HeadHasParenthesis(ret, k); }
    }
  }

  lemma OpaqueLaid(w: string, x: string, v: string)
    requires IsOpaqueReturn(w, x, v)
    ensures IsReturnType(OpaqueReturn(w, x, v)) && IsLaid(OpaqueReturn(w, x, v), "")
  {
    var a, b := v + "*", x + (v + "*");
    assert '(' !in a;
    assert '(' !in b && b[|b| - 1] == '*';
    assert '(' !in "Opaque" + b;
    assert '(' !in w + ("Opaque" + b);
    NoParenthesis(OpaqueReturn(w, x, v));
  }

  lemma SidReturn()
    ensures IsReturnType(SID_RETURN) && IsLaid(SID_RETURN, "")
  {
    OpaqueLaid(" ", "Srv6Sid", " ");
  }

  // ---- statements inside braces ----

  lemma NeverBelow(s: string)
    requires Stays(0, s)
    ensures Net(s) >= 0
  {
    assert s + "" == s;
    StaysConcat(0, s, "");
  }

  lemma {:induction false} OpenStatements(s: string, y: string)
    requires Net(s) == 0 && Stays(0, y)
    ensures Statements(s + ("{" + y)) == Statements(s) && Unfinished(s + ("{" + y)) == Unfinished(s) + ("{" + y)
    decreases |y|
  {
    if y == [] {
      NoStatementEnds(s, "{");
      assert "{" + y == "{";
    } else {
      var z, c := y[..|y| - 1], y[|y| - 1];
      assert y == z + [c];
      StaysConcat(0, z, [c]);
      OpenStatements(s, z);
      DeepCharacter(s, z, c);
    }
  }

  lemma DeepCharacter(s: string, z: string, c: char)
    requires Net(s) == 0 && Stays(0, z + [c])
    ensures var t, u := s + ("{" + z), s + ("{" + (z + [c]));
            u == t + [c] && Statements(u) == Statements(t) && Unfinished(u) == Unfinished(t) + [c]
  {
    var t, u := s + ("{" + z), s + ("{" + (z + [c]));
    Assoc("{", z, [c]);
    Assoc(s, "{" + z, [c]);
    NeverBelow(z + [c]);
    NetConcat(s, "{" + (z + [c]));
    assert ("{" + (z + [c]))[1..] == z + [c];
    assert u[..|u| - 1] == t;
  }

  /** No statement ends between braces: what stands there belongs to the text around it. */
  lemma BracesHoldStatements(s: string, x: string)
    requires Net(s) == 0 && Balanced(x)
    ensures Statements(s + ("{" + (x + "}"))) == Statements(s)
    ensures Unfinished(s + ("{" + (x + "}"))) == Unfinished(s) + ("{" + (x + "}"))
  {
    OpenStatements(s, x);
    Assoc("{", x, "}");
    Assoc(s, "{" + x, "}");
    NoStatementEnds(s + ("{" + x), "}");
    Assoc(Unfinished(s), "{" + x, "}");
  }
}
