/** Comment removal: the one-pass scanner of the ABI freeze gate and the two-pass deleter
    of the ABI parser.  String literals are not recognised by either, as in the source. */
module Comments {
  import opened Text

  // ---- the scanner as a machine that reads one character at a time ----

  /** Outside comments, after a pending slash, in a block comment, after a star in one, or
      in a line comment. */
  datatype Mode = Code | Slash | Block | Star | Line

  function Step(m: Mode, c: char): Mode {
    match m
    case Code => if c == '/' then Slash else Code
    case Slash => if c == '*' then Block else if c == '/' then Line else Code
    case Block => if c == '*' then Star else Block
    case Star => if c == '/' then Code else if c == '*' then Star else Block
    case Line => if c == '\n' then Code else Line
  }

  /** A closed block comment leaves a space; a line comment leaves a newline in front of
      the newline that ends it. */
  function Output(m: Mode, c: char): string {
    match m
    case Code => if c == '/' then "" else [c]
    case Slash => if c == '*' || c == '/' then "" else ['/', c]
    case Block => ""
    case Star => if c == '/' then " " else ""
    case Line => if c == '\n' then "\n\n" else ""
  }

  /** What is written for `s` from mode `m`.  A slash still pending at the end is written;
      an unterminated comment is dropped. */
  function Scan(m: Mode, s: string): string
    decreases s
  {
    if s == [] then (if m.Slash? then "/" else "")
    else Output(m, s[0]) + Scan(Step(m, s[0]), s[1..])
  }

  function Ends(m: Mode, s: string): Mode
    decreases s
  {
    if s == [] then m else Ends(Step(m, s[0]), s[1..])
  }

  function Stripped(s: string): string {
    Scan(Code, s)
  }

  lemma {:induction false} ScanConcat(m: Mode, a: string, b: string)
    requires !Ends(m, a).Slash?
    ensures Scan(m, a + b) == Scan(m, a) + Scan(Ends(m, a), b)
    ensures Ends(m, a + b) == Ends(Ends(m, a), b)
    decreases a
  {
    if a == [] {
      assert a + b == b;
    } else {
      DropConcat(a, b, 1);
      ScanConcat(Step(m, a[0]), a[1..], b);
      Assoc(Output(m, a[0]), Scan(Step(m, a[0]), a[1..]), Scan(Ends(m, a), b));
    }
  }

  // ---- the scanner as the source writes it ----

  lemma {:induction false} ScanInBlock(t: string)
    ensures match Find(t, "*/")
            case None => Scan(Block, t) == ""
            case Some(e) => e + 2 <= |t| && Scan(Block, t) == " " + Scan(Code, t[e + 2..])
  {
    if t != [] {
      ScanInBlock(t[1..]);
      if t[0] == '*' && |t| > 1 {
        if t[1] == '/' {
          assert t[..2] == "*/";
          assert t[1..][1..] == t[2..];
        } else {
          assert Scan(Star, t[1..]) == Scan(Block, t[1..]);
        }
      }
      match Find(t[1..], "*/")
      case None =>
      case Some(e) => assert t[1..][e + 2..] == t[e + 3..];
    }
  }

  lemma {:induction false} ScanInLine(t: string)
    ensures match Find(t, "\n")
            case None => Scan(Line, t) == ""
            case Some(e) => e < |t| && Scan(Line, t) == "\n" + Scan(Code, t[e..])
  {
    if t != [] {
      if t[0] == '\n' {
        ScanAtNewline(t);
      } else {
        ScanInLine(t[1..]);
        assert Scan(Line, t) == Scan(Line, t[1..]);
        FindLater(t);
      }
    }
  }

  lemma ScanAtNewline(t: string)
    requires t != [] && t[0] == '\n'
    ensures Find(t, "\n") == Some(0) && Scan(Line, t) == "\n" + Scan(Code, t)
  {
    assert t[0..1] == "\n";
    FindIs(t, "\n", 0);
    Assoc("\n", "\n", Scan(Code, t[1..]));
  }

  lemma FindLater(t: string)
    requires t != [] && t[0] != '\n'
    ensures match Find(t[1..], "\n")
            case None => Find(t, "\n") == None
            case Some(e) => e + 1 < |t| && Find(t, "\n") == Some(e + 1) && t[1..][e..] == t[e + 1..]
  {
    assert t[0..1] == [t[0]];
  }

  lemma ScanTwo(text: string, i: nat)
    requires i + 2 <= |text| && text[i] == '/'
    ensures text[i + 1] == '*' ==> Scan(Code, text[i..]) == Scan(Block, text[i + 2..])
    ensures text[i + 1] == '/' ==> Scan(Code, text[i..]) == Scan(Line, text[i + 2..])
  {
    var rest := text[i..];
    assert rest[1..] == text[i + 1..] && text[i + 1..][1..] == text[i + 2..];
    assert Scan(Code, rest) == Scan(Slash, text[i + 1..]);
  }

  /** What is left of the scan at `i` is one character and what is left at `next`, or
      nothing. */
  ghost predicate Resumes(text: string, i: nat, piece: string, next: Option<nat>)
    requires i <= |text|
  {
    match next
    case None => Scan(Code, text[i..]) == ""
    case Some(k) => i < k <= |text| && Scan(Code, text[i..]) == piece + Scan(Code, text[k..])
  }

  lemma Opens(text: string, i: nat, c: char)
    requires At(text, i, ['/', c])
    ensures text[i] == '/' && text[i + 1] == c
  {
    assert text[i] == text[i..i + 2][0] && text[i + 1] == text[i..i + 2][1];
  }

  lemma IntoComment(text: string, i: nat)
    ensures At(text, i, "/*") ==> Scan(Code, text[i..]) == Scan(Block, text[i + 2..])
    ensures At(text, i, "//") ==> Scan(Code, text[i..]) == Scan(Line, text[i + 2..])
  {
    if At(text, i, "/*") {
      Opens(text, i, '*');
      ScanTwo(text, i);
    } else if At(text, i, "//") {
      Opens(text, i, '/');
      ScanTwo(text, i);
    }
  }

  function Past(end: Option<nat>, k: nat): Option<nat> {
    match end case None => None case Some(e) => Some(k + e)
  }

  lemma ResumesPast(text: string, i: nat, r: string, end: Option<nat>, n: nat, piece: string)
    requires i + 2 <= |text| && Scan(Code, text[i..]) == r
    requires match end
             case None => r == ""
             case Some(e) => e + n <= |text[i + 2..]| && r == piece + Scan(Code, text[i + 2..][e + n..])
    ensures Resumes(text, i, piece, Past(end, i + 2 + n))
  {
    if end.Some? { DropDrop(text, i + 2, end.value + n); }
  }

  lemma OpenedBlock(text: string, i: nat, end: Option<nat>)
    requires At(text, i, "/*") && end == Find(text[i + 2..], "*/")
    ensures Resumes(text, i, " ", Past(end, i + 4))
  {
    IntoComment(text, i);
    ScanInBlock(text[i + 2..]);
    ResumesPast(text, i, Scan(Block, text[i + 2..]), end, 2, " ");
  }

  lemma OpenedLine(text: string, i: nat, end: Option<nat>)
    requires At(text, i, "//") && end == Find(text[i + 2..], "\n")
    ensures Resumes(text, i, "\n", Past(end, i + 2))
  {
    IntoComment(text, i);
    LineScanned(text[i + 2..], end, Scan(Line, text[i + 2..]));
    ResumesPast(text, i, Scan(Line, text[i + 2..]), end, 0, "\n");
  }

  lemma LineScanned(t: string, end: Option<nat>, r: string)
    requires end == Find(t, "\n") && r == Scan(Line, t)
    ensures match end case None => r == "" case Some(e) => e + 0 <= |t| && r == "\n" + Scan(Code, t[e + 0..])
  {
    ScanInLine(t);
  }

  lemma PlainCharacter(text: string, i: nat)
    requires i < |text| && !At(text, i, "/*") && !At(text, i, "//")
    ensures Scan(Code, text[i..]) == [text[i]] + Scan(Code, text[i + 1..])
  {
    var rest := text[i..];
    assert rest[1..] == text[i + 1..];
    if text[i] == '/' && i + 1 < |text| {
      assert text[i..i + 2] == ['/', text[i + 1]];
      assert Scan(Slash, rest[1..]) == ['/', text[i + 1]] + Scan(Code, rest[1..][1..]);
      assert Scan(Code, rest[1..]) == [text[i + 1]] + Scan(Code, rest[1..][1..]);
    }
  }

  /** Past a block comment, or nothing when it does not close. */
  method SkipBlock(text: string, i: nat) returns (next: Option<nat>)
    requires At(text, i, "/*")
    ensures Resumes(text, i, " ", next)
  {
    var end := Find(text[i + 2..], "*/");
    OpenedBlock(text, i, end);
    next := if end.None? then None else Some(i + 2 + end.value + 2);
  }

  /** To the end of the line of a line comment, or nothing when it is the last line. */
  method SkipLine(text: string, i: nat) returns (next: Option<nat>)
    requires At(text, i, "//")
    ensures Resumes(text, i, "\n", next)
  {
    var end := Find(text[i + 2..], "\n");
    OpenedLine(text, i, end);
    next := if end.None? then None else Some(i + 2 + end.value);
  }

  method StripComments(text: string) returns (out: string)
    ensures out == Stripped(text)
  {
    out := "";
    var i := 0;
    assert text[0..] == text;
    while i < |text|
      invariant 0 <= i <= |text|
      invariant out + Scan(Code, text[i..]) == Scan(Code, text)
    {
      var piece, next := [text[i]], Some(i + 1);
      if At(text, i, "/*") {
        next := SkipBlock(text, i);
        piece := " ";
      } else if At(text, i, "//") {
        next := SkipLine(text, i);
        piece := "\n";
      } else {
        PlainCharacter(text, i);
      }
      if next.None? {
        break;
      }
      Assoc(out, piece, Scan(Code, text[next.value..]));
      out := out + piece;
      i := next.value;
    }
  }

  // ---- what stripping guarantees ----

  predicate OpensAt(s: string, k: int) {
    0 <= k && k + 1 < |s| && s[k] == '/' && (s[k + 1] == '/' || s[k + 1] == '*')
  }

  ghost predicate CommentFree(s: string) {
    forall k :: !OpensAt(s, k)
  }

  lemma CommentFreeCons(c: char, s: string)
    requires CommentFree(s) && (c == '/' && s != [] ==> s[0] != '/' && s[0] != '*')
    ensures CommentFree([c] + s)
  {
    forall k ensures !OpensAt([c] + s, k) {
      assert !OpensAt(s, k - 1);
    }
  }

  /** Nothing that could open a comment survives. */
  lemma {:induction false} ScanIsCommentFree(m: Mode, s: string)
    ensures CommentFree(Scan(m, s))
    ensures m.Code? && s != [] && s[0] != '/' ==> Scan(m, s) != [] && Scan(m, s)[0] == s[0]
    decreases s
  {
    if s != [] {
      var c, n := s[0], Step(m, s[0]);
      var r := Scan(n, s[1..]);
      ScanIsCommentFree(n, s[1..]);
      var o := Output(m, c);
      if o == "" {
        assert o + r == r;
      } else if |o| == 1 {
        CommentFreeCons(o[0], r);
      } else {
        CommentFreeCons(o[1], r);
        assert o + r == [o[0]] + ([o[1]] + r);
        CommentFreeCons(o[0], [o[1]] + r);
      }
    }
  }

  lemma {:induction false} StrippedOfCommentFree(s: string)
    requires CommentFree(s)
    ensures Stripped(s) == s
    decreases |s|
  {
    if |s| == 1 {
      assert Scan(Code, s) == Output(Code, s[0]) + Scan(Step(Code, s[0]), []) by { assert s[1..] == []; }
    } else if |s| > 1 {
      assert !OpensAt(s, 0);
      var t := s[1..];
      assert CommentFree(t) by {
        forall k ensures !OpensAt(t, k) { assert !OpensAt(s, k + 1); }
      }
      StrippedOfCommentFree(t);
      if s[0] == '/' {
        assert Scan(Slash, t) == ['/', t[0]] + Scan(Code, t[1..]);
        assert Scan(Code, t) == [t[0]] + Scan(Code, t[1..]);
      }
    }
  }

  /** Stripping is idempotent: its output holds no comment, and text without comments is
      left alone. */
  lemma StripIdempotent(s: string)
    ensures CommentFree(Stripped(s)) && Stripped(Stripped(s)) == Stripped(s)
  {
    ScanIsCommentFree(Code, s);
    StrippedOfCommentFree(Stripped(s));
  }

  // ---- comments do not matter ----

  lemma BlockBody(x: string, b: string)
    requires Find(x, "*/").None?
    ensures Scan(Block, x + "*/" + b) == " " + Scan(Code, b)
  {
    var t := x + "*/" + b;
    forall j | 0 <= j < |x| ensures !At(t, j, "*/") {
      assert !At(x, j, "*/");
      assert t[j..j + 2] == [t[j], t[j + 1]];
      if j + 2 <= |x| { assert x[j..j + 2] == [x[j], x[j + 1]]; }
    }
    assert t[|x|..|x| + 2] == "*/";
    FindIs(t, "*/", |x|);
    ScanInBlock(t);
    assert t[|x| + 2..] == b;
  }

  lemma LineBody(x: string, b: string)
    requires '\n' !in x
    ensures Scan(Line, x + "\n" + b) == "\n" + Scan(Code, "\n" + b)
  {
    var t := x + "\n" + b;
    forall j | 0 <= j < |x| ensures !At(t, j, "\n") {
      assert t[j] == x[j];
      assert t[j..j + 1] == [t[j]];
    }
    assert t[|x|..|x| + 1] == "\n";
    FindIs(t, "\n", |x|);
    ScanInLine(t);
    assert t[|x|..] == "\n" + b;
  }

  /** A block comment met outside comments is worth one space, whatever it says. */
  lemma BlockCommentIsSpace(a: string, x: string, b: string)
    requires Ends(Code, a) == Code && Find(x, "*/").None?
    ensures Stripped(a + ("/*" + x + "*/" + b)) == Stripped(a + (" " + b))
  {
    var u := "/*" + x + "*/" + b;
    ScanConcat(Code, a, u);
    assert u[1..][1..] == x + "*/" + b;
    assert Scan(Code, u) == Scan(Slash, u[1..]) == Scan(Block, u[1..][1..]);
    BlockBody(x, b);
    ScanConcat(Code, a, " " + b);
    assert (" " + b)[1..] == b;
  }

  /** A line comment met outside comments is worth one extra newline, whatever it says. */
  lemma LineCommentIsNewline(a: string, x: string, b: string)
    requires Ends(Code, a) == Code && '\n' !in x
    ensures Stripped(a + ("//" + x + "\n" + b)) == Stripped(a + ("\n" + ("\n" + b)))
  {
    var u, v := "//" + x + "\n" + b, "\n" + b;
    ScanConcat(Code, a, u);
    assert u[1..][1..] == x + "\n" + b;
    assert Scan(Code, u) == Scan(Slash, u[1..]) == Scan(Line, u[1..][1..]);
    LineBody(x, b);
    ScanConcat(Code, a, "\n" + v);
    assert ("\n" + v)[1..] == v;
    assert Scan(Code, "\n" + v) == "\n" + Scan(Code, v);
  }

  /** A line comment that ends the text leaves nothing. */
  lemma LastLineComment(a: string, x: string)
    requires Ends(Code, a) == Code && '\n' !in x
    ensures Stripped(a + ("//" + x)) == Stripped(a)
  {
    var u := "//" + x;
    ScanConcat(Code, a, u);
    assert u[1..][1..] == x;
    assert Scan(Code, u) == Scan(Slash, u[1..]) == Scan(Line, x);
    ScanInLine(x);
    LacksNewline(x);
  }

  lemma LacksNewline(x: string)
    requires '\n' !in x
    ensures Find(x, "\n").None?
  {
    if Find(x, "\n").Some? { AtChar(x, Find(x, "\n").value, "\n", 0); }
  }

  /** A block comment that never closes takes the rest of the text with it. */
  lemma UnclosedBlockComment(a: string, x: string)
    requires Ends(Code, a) == Code && Find(x, "*/").None?
    ensures Stripped(a + ("/*" + x)) == Stripped(a)
  {
    var u := "/*" + x;
    ScanConcat(Code, a, u);
    assert u[1..][1..] == x;
    assert Scan(Code, u) == Scan(Slash, u[1..]) == Scan(Block, x);
    ScanInBlock(x);
  }

  // ---- the two-pass deleter of the ABI parser ----

  predicate OpensBlock(s: string) {
    |s| >= 2 && s[0] == '/' && s[1] == '*'
  }

  predicate OpensLine(s: string) {
    |s| >= 2 && s[0] == '/' && s[1] == '/'
  }

  /** First pass: a block comment becomes as many newlines as it spans; an opener that
      never closes stays. */
  function WithoutBlocks(s: string): string
    decreases |s|
  {
    if s == [] then ""
    else if OpensBlock(s) && Find(s[2..], "*/").Some? then
      var n := Find(s[2..], "*/").value + 4;
      Newlines(s[..n]) + WithoutBlocks(s[n..])
    else [s[0]] + WithoutBlocks(s[1..])
  }

  function Newlines(s: string): string {
    if s == [] then "" else (if s[0] == '\n' then "\n" else "") + Newlines(s[1..])
  }

  /** Second pass: from a double slash to the end of the line is deleted. */
  function WithoutLines(s: string): string
    decreases |s|
  {
    if s == [] then ""
    else if OpensLine(s) then WithoutLines(s[2..][IndexOf(s[2..], '\n')..])
    else [s[0]] + WithoutLines(s[1..])
  }

  function Deleted(s: string): string {
    WithoutLines(WithoutBlocks(s))
  }

  /** A block opener that closes somewhere. */
  predicate BlockAt(s: string) {
    OpensBlock(s) && Find(s[2..], "*/").Some?
  }

  /** Block comments that open in the first `n` characters close there. */
  predicate ClosesWithin(s: string, n: nat)
    requires n <= |s|
    decreases n
  {
    if n == 0 then true
    else if BlockAt(s) then
      var e := Find(s[2..], "*/").value + 4;
      e <= n && ClosesWithin(s[e..], n - e)
    else ClosesWithin(s[1..], n - 1)
  }

  /** Outside line comments every block comment closes; the second slash of a line comment
      opens none, and one that opens further on closes on the same line. */
  predicate Tame(s: string)
    decreases |s|
  {
    if s == [] then true
    else if OpensBlock(s) then
      match Find(s[2..], "*/")
      case None => false
      case Some(e) => Tame(s[e + 4..])
    else if OpensLine(s) then
      var n := IndexOf(s[2..], '\n');
      !BlockAt(s[1..]) && ClosesWithin(s[2..], n) && Tame(s[2..][n..])
    else Tame(s[1..])
  }

  lemma NewlineAt(s: string, j: int)
    requires 0 <= j < |s|
    ensures At(s, j, "\n") <==> s[j] == '\n'
  {
    assert s[j..j + 1] == [s[j]];
  }

  lemma FindNewline(s: string)
    ensures Find(s, "\n") == if IndexOf(s, '\n') < |s| then Some(IndexOf(s, '\n')) else None
  {
    var n := IndexOf(s, '\n');
    IndexOfFinds(s, '\n');
    if n < |s| {
      NewlineAt(s, n);
      forall j {:trigger At(s, j, "\n")} | 0 <= j < n ensures !At(s, j, "\n") {
        NewlineAt(s, j);
        assert s[j] == s[..n][j];
      }
      FindIs(s, "\n", n);
    } else {
      assert s[..n] == s;
      LacksNewline(s);
    }
  }

  lemma {:induction false} NewlinesOfLine(s: string)
    requires '\n' !in s
    ensures Newlines(s) == ""
  {
    if s != [] { NewlinesOfLine(s[1..]); }
  }

  /** On a line whose block comments close there the first pass works on its own. */
  lemma {:induction false} BlocksOfLine(s: string, n: nat) returns (l: string)
    requires n <= |s| && '\n' !in s[..n] && ClosesWithin(s, n)
    ensures WithoutBlocks(s) == l + WithoutBlocks(s[n..]) && '\n' !in l
    decreases n
  {
    if n == 0 {
      l := "";
      assert s[0..] == s && l + WithoutBlocks(s) == WithoutBlocks(s);
    } else if BlockAt(s) {
      var e := Find(s[2..], "*/").value + 4;
      LineParts(s, e, n);
      NewlinesOfLine(s[..e]);
      l := BlocksOfLine(s[e..], n - e);
      assert "" + (l + WithoutBlocks(s[n..])) == l + WithoutBlocks(s[n..]);
    } else {
      LineParts(s, 1, n);
      var k := BlocksOfLine(s[1..], n - 1);
      l := [s[0]] + k;
      assert s[..1] == [s[0]];
      Assoc([s[0]], k, WithoutBlocks(s[n..]));
    }
  }

  lemma LineParts(s: string, e: nat, n: nat)
    requires e <= n <= |s| && '\n' !in s[..n]
    ensures '\n' !in s[..e] && '\n' !in s[e..][..n - e] && s[e..][n - e..] == s[n..]
  {
    assert s[..n] == s[..e] + s[e..][..n - e];
  }

  lemma {:induction false} NewlinesAreBlank(s: string)
    ensures AllSpace(Newlines(s))
  {
    if s != [] { NewlinesAreBlank(s[1..]); }
  }

  lemma {:induction false} LinesSkipBlanks(w: string, s: string)
    requires AllSpace(w)
    ensures WithoutLines(w + s) == w + WithoutLines(s)
  {
    if w == [] {
      assert w + s == s && w + WithoutLines(s) == WithoutLines(s);
    } else {
      DropConcat(w, s, 1);
      LinesSkipBlanks(w[1..], s);
      Assoc([w[0]], w[1..], WithoutLines(s));
    }
  }

  lemma BlocksAfterSlashes(s: string)
    requires OpensLine(s) && !BlockAt(s[1..])
    ensures WithoutBlocks(s) == "//" + WithoutBlocks(s[2..])
  {
    var x := WithoutBlocks(s[2..]);
    assert s[1..][1..] == s[2..];
    assert WithoutBlocks(s[1..]) == "/" + x;
    Assoc("/", "/", x);
  }

  lemma LinesOfComment(l: string, x: string)
    requires '\n' !in l && (x != [] ==> x[0] == '\n')
    ensures WithoutLines("//" + (l + x)) == WithoutLines(x)
  {
    var u := "//" + (l + x);
    IndexOfFinds(l, '\n');
    IndexOfConcat(l, x, '\n');
    assert u[2..] == l + x && (l + x)[|l|..] == x;
  }

  lemma FirstOfBlocks(s: string)
    requires s != [] && s[0] != '/'
    ensures WithoutBlocks(s) != [] && WithoutBlocks(s)[0] == s[0]
  {
  }

  /** A line comment whose block comments close on its line disappears up to its newline. */
  lemma LinesDrop(s: string, n: nat)
    requires OpensLine(s) && n == IndexOf(s[2..], '\n') && !BlockAt(s[1..]) && ClosesWithin(s[2..], n)
    ensures Deleted(s) == Deleted(s[2..][n..])
  {
    var t := s[2..];
    IndexOfFinds(t, '\n');
    var l := BlocksOfLine(t, n);
    BlocksAfterSlashes(s);
    if n < |t| { FirstOfBlocks(t[n..]); }
    LinesOfComment(l, WithoutBlocks(t[n..]));
  }

  lemma ScannedBlock(s: string, e: nat)
    requires OpensBlock(s) && Find(s[2..], "*/") == Some(e)
    ensures Stripped(s) == " " + Stripped(s[e + 4..])
  {
    assert s[0..] == s;
    ScanTwo(s, 0);
    ScanInBlock(s[2..]);
    DropDrop(s, 2, e + 2);
  }

  lemma FirstPassOfBlock(s: string, e: nat)
    requires OpensBlock(s) && Find(s[2..], "*/") == Some(e)
    ensures WithoutBlocks(s) == Newlines(s[..e + 4]) + WithoutBlocks(s[e + 4..])
  {
  }

  lemma DeletedBlock(s: string, e: nat)
    requires OpensBlock(s) && Find(s[2..], "*/") == Some(e)
    ensures Inked(Deleted(s)) == Inked(Deleted(s[e + 4..]))
  {
    FirstPassOfBlock(s, e);
    InkedBehind(Newlines(s[..e + 4]), WithoutBlocks(s), WithoutBlocks(s[e + 4..]), s[..e + 4]);
  }

  lemma InkedBehind(w: string, u: string, x: string, b: string)
    requires w == Newlines(b) && u == w + x
    ensures Inked(WithoutLines(u)) == Inked(WithoutLines(x))
  {
    NewlinesAreBlank(b);
    LinesSkipBlanks(w, x);
    InkedConcat(w, WithoutLines(x));
    InkedBlank(w);
  }

  lemma AgreeOnBlock(s: string, e: nat)
    requires OpensBlock(s) && Find(s[2..], "*/") == Some(e)
    ensures Inked(Stripped(s)) == Inked(Stripped(s[e + 4..]))
    ensures Inked(Deleted(s)) == Inked(Deleted(s[e + 4..]))
  {
    ScannedBlock(s, e);
    InkedConcat(" ", Stripped(s[e + 4..]));
    InkedBlank(" ");
    DeletedBlock(s, e);
  }

  lemma AgreeOnLine(s: string, n: nat)
    requires OpensLine(s) && n == IndexOf(s[2..], '\n')
    ensures Inked(Stripped(s)) == Inked(Stripped(s[2..][n..]))
  {
    assert s[0..] == s;
    ScanTwo(s, 0);
    ScanInLine(s[2..]);
    FindNewline(s[2..]);
    if n < |s[2..]| {
      InkedConcat("\n", Stripped(s[2..][n..]));
      InkedBlank("\n");
    }
  }

  lemma AgreeOnPlain(s: string)
    requires s != [] && !OpensBlock(s) && !OpensLine(s)
    ensures Stripped(s) == [s[0]] + Stripped(s[1..])
    ensures Deleted(s) == [s[0]] + Deleted(s[1..])
  {
    assert s[0..] == s;
    assert !At(s, 0, "/*") && !At(s, 0, "//") by {
      if |s| >= 2 { assert s[0..2] == [s[0], s[1]]; }
    }
    PlainCharacter(s, 0);
    var x := WithoutBlocks(s[1..]);
    assert s[0] == '/' && x != [] ==> x[0] != '/';
    assert ([s[0]] + x)[1..] == x;
  }

  /** On tame text the gate's scanner and the parser's deleter leave the same characters,
      blanks aside. */
  lemma {:induction false} OnePassAgreesWithTwo(s: string)
    requires Tame(s)
    ensures Inked(Stripped(s)) == Inked(Deleted(s))
    decreases |s|
  {
    if s == [] {
    } else if OpensBlock(s) {
      var e := Find(s[2..], "*/").value;
      AgreeOnBlock(s, e);
      OnePassAgreesWithTwo(s[e + 4..]);
    } else if OpensLine(s) {
      var n := IndexOf(s[2..], '\n');
      AgreeOnLine(s, n);
      LinesDrop(s, n);
      OnePassAgreesWithTwo(s[2..][n..]);
    } else {
      AgreeOnPlain(s);
      OnePassAgreesWithTwo(s[1..]);
      InkedConcat([s[0]], Stripped(s[1..]));
      InkedConcat([s[0]], Deleted(s[1..]));
    }
  }

  lemma ScannedAsLine()
    ensures Stripped("//**/") == ""
  {
    var s := "//**/";
    ScanTwo(s, 0);
    assert s[0..] == s && s[2..] == "**/";
    assert "**/"[1..] == "*/" && "*/"[1..] == "/" && "/"[1..] == "";
    assert Scan(Line, "/") == "" && Scan(Line, "*/") == "";
  }

  lemma DeletedAsBlock()
    ensures WithoutBlocks("/**/") == ""
  {
    var t := "/**/";
    assert t[2..] == "*/" && t[..4] == t && t[4..] == "";
    FindIs("*/", "*/", 0);
    assert t[1..] == "**/" && "**/"[1..] == "*/" && "*/"[1..] == "/" && "/"[1..] == "";
    assert Newlines("/") == "" && Newlines("*/") == "" && Newlines("**/") == "";
  }

  /** Outside tame text they may disagree: here the second slash of a line comment opens a
      block comment for the deleter, which works in two passes. */
  lemma SecondSlashOpensBlock()
    ensures Stripped("//**/") == "" && Deleted("//**/") == "/"
  {
    ScannedAsLine();
    DeletedAsBlock();
    assert "//**/"[1..] == "/**/" && "/"[1..] == "";
    assert WithoutBlocks("//**/") == "/";
  }

  // ---- what the deleter keeps ----

  function Breaks(s: string): nat {
    if s == [] then 0 else (if s[0] == '\n' then 1 else 0) + Breaks(s[1..])
  }

  lemma {:induction false} BreaksConcat(a: string, b: string)
    ensures Breaks(a + b) == Breaks(a) + Breaks(b)
  {
    if a == [] {
      assert a + b == b;
    } else {
      DropConcat(a, b, 1);
      BreaksConcat(a[1..], b);
    }
  }

  lemma {:induction false} NewlinesCount(s: string)
    ensures Breaks(Newlines(s)) == Breaks(s)
  {
    if s != [] {
      NewlinesCount(s[1..]);
      BreaksConcat(if s[0] == '\n' then "\n" else "", Newlines(s[1..]));
    }
  }

  lemma {:induction false} NoBreaks(s: string)
    requires '\n' !in s
    ensures Breaks(s) == 0
  {
    if s != [] { NoBreaks(s[1..]); }
  }

  lemma BlockKeepsLines(s: string, n: nat, r: string)
    requires n <= |s| && Breaks(r) == Breaks(s[n..])
    ensures Breaks(Newlines(s[..n]) + r) == Breaks(s)
  {
    NewlinesCount(s[..n]);
    BreaksConcat(Newlines(s[..n]), r);
    BreaksConcat(s[..n], s[n..]);
    assert s == s[..n] + s[n..];
  }

  lemma {:induction false} FirstPassKeepsLines(s: string)
    ensures Breaks(WithoutBlocks(s)) == Breaks(s)
    decreases |s|
  {
    if s != [] {
      if BlockAt(s) {
        var n := Find(s[2..], "*/").value + 4;
        FirstPassKeepsLines(s[n..]);
        FirstPassOfBlock(s, n - 4);
        BlockKeepsLines(s, n, WithoutBlocks(s[n..]));
      } else {
        FirstPassKeepsLines(s[1..]);
        BreaksConcat([s[0]], WithoutBlocks(s[1..]));
        BreaksConcat([s[0]], s[1..]);
        assert s == [s[0]] + s[1..];
      }
    }
  }

  lemma BreaksParts(s: string, n: nat)
    requires n <= |s|
    ensures Breaks(s) == Breaks(s[..n]) + Breaks(s[n..])
  {
    assert s == s[..n] + s[n..];
    BreaksConcat(s[..n], s[n..]);
  }

  lemma CommentHasNoBreak(s: string, n: nat)
    requires OpensLine(s) && n == IndexOf(s[2..], '\n')
    ensures Breaks(s) == Breaks(s[2..][n..])
  {
    BreaksParts(s, 2);
    NoBreaks(s[..2]);
    BreaksParts(s[2..], n);
    IndexOfFinds(s[2..], '\n');
    NoBreaks(s[2..][..n]);
  }

  lemma {:induction false} SecondPassKeepsLines(s: string)
    ensures Breaks(WithoutLines(s)) == Breaks(s)
    decreases |s|
  {
    if s != [] {
      if OpensLine(s) {
        SecondPassKeepsLines(s[2..][IndexOf(s[2..], '\n')..]);
        CommentHasNoBreak(s, IndexOf(s[2..], '\n'));
      } else {
        SecondPassKeepsLines(s[1..]);
        BreaksConcat([s[0]], WithoutLines(s[1..]));
        BreaksParts(s, 1);
        assert s[..1] == [s[0]];
      }
    }
  }

  /** Deleting comments keeps every newline, so lines keep their numbers. */
  lemma DeletedKeepsLines(s: string)
    ensures Breaks(Deleted(s)) == Breaks(s)
  {
    FirstPassKeepsLines(s);
    SecondPassKeepsLines(WithoutBlocks(s));
  }

  // ---- what the deleter leaves of one comment ----

  lemma NotClosedAt(x: string, pat: string, b: string, j: nat)
    requires |pat| == 2 && pat[0] != pat[1] && j < |x| && !At(x, j, pat)
    ensures !At(x + (pat + b), j, pat)
  {
    var t := x + (pat + b);
    assert t[j..j + 2] == [t[j], t[j + 1]];
    if j + 2 <= |x| { assert x[j..j + 2] == [x[j], x[j + 1]]; }
  }

  lemma ClosesAt(x: string, pat: string, b: string)
    requires |pat| == 2 && pat[0] != pat[1] && Find(x, pat).None?
    ensures Find(x + (pat + b), pat) == Some(|x|)
  {
    var t := x + (pat + b);
    forall j {:trigger At(t, j, pat)} | 0 <= j < |x| ensures !At(t, j, pat) {
      assert !At(x, j, pat);
      NotClosedAt(x, pat, b, j);
    }
    assert t[|x|..|x| + 2] == pat;
    FindIs(t, pat, |x|);
  }

  lemma ClosesThere(x: string, b: string)
    requires Find(x, "*/").None?
    ensures Find(x + ("*/" + b), "*/") == Some(|x|)
  {
    ClosesAt(x, "*/", b);
  }

  lemma BlockStays(a: string, t: string)
    requires BlockAt(a)
    ensures BlockAt(a + t) && Find((a + t)[2..], "*/") == Find(a[2..], "*/")
  {
    var e := Find(a[2..], "*/").value;
    DropConcat(a, t, 2);
    FindStays(a[2..], t, "*/", e);
  }

  lemma FindStays(x: string, t: string, pat: string, e: nat)
    requires Find(x, pat) == Some(e)
    ensures Find(x + t, pat) == Some(e)
  {
    FoundInBoth(x, t, e, pat);
    forall j {:trigger At(x + t, j, pat)} | 0 <= j < e ensures !At(x + t, j, pat) {
      assert !At(x, j, pat);
      FoundInBoth(x, t, j, pat);
    }
    FindIs(x + t, pat, e);
  }

  lemma FoundInBoth(x: string, t: string, j: nat, pat: string)
    requires j + |pat| <= |x|
    ensures At(x + t, j, pat) <==> At(x, j, pat)
  {
    assert (x + t)[j..j + |pat|] == x[j..j + |pat|];
  }

  lemma BlockWithin(a: string, t: string, e: nat)
    requires OpensBlock(a + t) && Find((a + t)[2..], "*/") == Some(e) && e + 4 <= |a|
    ensures BlockAt(a)
  {
    DropConcat(a, t, 2);
    FoundInBoth(a[2..], t, e, "*/");
  }

  /** The first pass works on both parts of a text when no block comment runs over the seam. */
  lemma {:induction false} FirstPassConcat(a: string, t: string)
    requires ClosesWithin(a + t, |a|)
    ensures WithoutBlocks(a + t) == WithoutBlocks(a) + WithoutBlocks(t)
    decreases |a|
  {
    if a == [] {
      assert a + t == t && "" + WithoutBlocks(t) == WithoutBlocks(t);
    } else if BlockAt(a + t) {
      var n := Find((a + t)[2..], "*/").value + 4;
      BlockWithin(a, t, n - 4);
      BlockStays(a, t);
      DropConcat(a, t, n);
      FirstPassConcat(a[n..], t);
      assert (a + t)[..n] == a[..n];
      Assoc(Newlines(a[..n]), WithoutBlocks(a[n..]), WithoutBlocks(t));
    } else {
      if BlockAt(a) { BlockStays(a, t); }
      DropConcat(a, t, 1);
      FirstPassConcat(a[1..], t);
      Assoc([a[0]], WithoutBlocks(a[1..]), WithoutBlocks(t));
    }
  }

  lemma {:induction false} NewlinesConcat(a: string, b: string)
    ensures Newlines(a + b) == Newlines(a) + Newlines(b)
  {
    if a == [] {
      assert a + b == b && "" + Newlines(b) == Newlines(b);
    } else {
      DropConcat(a, b, 1);
      NewlinesConcat(a[1..], b);
      Assoc(if a[0] == '\n' then "\n" else "", Newlines(a[1..]), Newlines(b));
    }
  }

  /** The newlines of a text: as many as it has, and nothing else. */
  lemma {:induction false} NewlinesAre(s: string)
    ensures |Newlines(s)| == Breaks(s) && forall i :: 0 <= i < |Newlines(s)| ==> Newlines(s)[i] == '\n'
  {
    if s != [] { NewlinesAre(s[1..]); }
  }

  lemma CommentSlices(u: string, p: string, x: string, q: string, b: string)
    requires u == p + (x + (q + b)) && |p| == 2 && |q| == 2
    ensures |u| >= |x| + 4 && u[0] == p[0] && u[1] == p[1]
    ensures u[2..] == x + (q + b) && u[..|x| + 4] == p + (x + q) && u[|x| + 4..] == b
  {
    Assoc(x, q, b);
    Assoc(p, x + q, b);
  }

  lemma CommentLines(x: string)
    ensures Newlines("/*" + (x + "*/")) == Newlines(x)
  {
    NewlinesOfLine("/*");
    NewlinesOfLine("*/");
    NewlinesConcat(x, "*/");
    NewlinesConcat("/*", x + "*/");
    assert "" + (Newlines(x) + "") == Newlines(x);
  }

  lemma FirstPassOfComment(u: string, x: string, b: string)
    requires u == "/*" + (x + ("*/" + b)) && Find(x, "*/").None?
    ensures WithoutBlocks(u) == Newlines(x) + WithoutBlocks(b)
  {
    CommentSlices(u, "/*", x, "*/", b);
    ClosesThere(x, b);
    CommentLines(x);
    FirstPassOfBlock(u, |x|);
  }

  /** The first pass leaves of a block comment its newlines and nothing else, not even a space. */
  lemma BlockCommentDeleted(a: string, x: string, b: string)
    requires Find(x, "*/").None? && ClosesWithin(a + ("/*" + (x + ("*/" + b))), |a|)
    ensures WithoutBlocks(a + ("/*" + (x + ("*/" + b)))) == WithoutBlocks(a) + (Newlines(x) + WithoutBlocks(b))
  {
    FirstPassConcat(a, "/*" + (x + ("*/" + b)));
    FirstPassOfComment("/*" + (x + ("*/" + b)), x, b);
  }

  /** Text without comments that ends on another character than a slash. */
  ghost predicate Uncommented(a: string) {
    CommentFree(a) && (a == [] || a[|a| - 1] != '/')
  }

  lemma UncommentedTail(a: string)
    requires Uncommented(a) && a != []
    ensures Uncommented(a[1..]) && (a[0] == '/' ==> |a| > 1 && a[1] != '/' && a[1] != '*')
  {
    forall k ensures !OpensAt(a[1..], k) { assert !OpensAt(a, k + 1); }
    assert !OpensAt(a, 0);
  }

  /** Behind such text the scanner is in code. */
  lemma {:induction false} EndsInCode(m: Mode, a: string)
    requires Uncommented(a) && (m == Code || (m == Slash && a != [] && a[0] != '/' && a[0] != '*'))
    ensures Ends(m, a) == Code
    decreases a
  {
    if a != [] {
      UncommentedTail(a);
      EndsInCode(Step(m, a[0]), a[1..]);
    }
  }

  lemma {:induction false} DeletedBehind(a: string, t: string)
    requires Uncommented(a)
    ensures ClosesWithin(a + t, |a|) && WithoutBlocks(a) == a && WithoutLines(a + t) == a + WithoutLines(t)
    decreases a
  {
    if a == [] {
      assert a + t == t;
    } else {
      UncommentedTail(a);
      DropConcat(a, t, 1);
      DeletedBehind(a[1..], t);
      Assoc([a[0]], a[1..], WithoutLines(t));
    }
  }

  /** Behind text without comments: the text, the newlines of the comment, and what is left of the
      rest. */
  lemma DeletedAroundBlock(a: string, x: string, b: string)
    requires Uncommented(a) && Find(x, "*/").None?
    ensures Deleted(a + ("/*" + (x + ("*/" + b)))) == a + (Newlines(x) + Deleted(b))
    ensures |Newlines(x)| == Breaks(x) && forall i :: 0 <= i < |Newlines(x)| ==> Newlines(x)[i] == '\n'
  {
    DeletedBehind(a, "/*" + (x + ("*/" + b)));
    BlockCommentDeleted(a, x, b);
    DeletedBehind(a, Newlines(x) + WithoutBlocks(b));
    NewlinesAreBlank(x);
    LinesSkipBlanks(Newlines(x), WithoutBlocks(b));
    NewlinesAre(x);
  }

  /** The text of a line comment: no newline, no block comment that opens in it and runs over its
      end; `r` is what follows. */
  predicate IsLineComment(x: string, r: string) {
    '\n' !in x && !BlockAt("/" + (x + r)) && ClosesWithin(x + r, |x|)
  }

  lemma LineCommentDropped(x: string, r: string)
    requires IsLineComment(x, r) && (r == [] || r[0] == '\n')
    ensures Deleted("//" + (x + r)) == Deleted(r)
  {
    var s := "//" + (x + r);
    assert s[1..] == "/" + (x + r) && s[2..] == x + r && (x + r)[|x|..] == r;
    IndexOfFinds(x, '\n');
    IndexOfConcat(x, r, '\n');
    LinesDrop(s, |x|);
  }

  /** A line comment behind text without comments leaves nothing; its newline stays. */
  lemma DeletedAroundLine(a: string, x: string, r: string)
    requires Uncommented(a) && IsLineComment(x, r) && (r == [] || r[0] == '\n')
    ensures Deleted(a + ("//" + (x + r))) == a + Deleted(r)
  {
    DeletedBehind(a, "//" + (x + r));
    FirstPassConcat(a, "//" + (x + r));
    DeletedBehind(a, WithoutBlocks("//" + (x + r)));
    LineCommentDropped(x, r);
  }

  // ---- an opener that never closes ----

  lemma {:induction false} NoCloser(s: string)
    requires Find(s, "*/").None?
    ensures WithoutBlocks(s) == s
  {
    if s != [] {
      forall j {:trigger At(s[1..], j, "*/")} ensures !At(s[1..], j, "*/") {
        if 0 <= j { AtDrop(s, 1, j, "*/"); }
      }
      NoCloser(s[1..]);
      if OpensBlock(s) { assert s[2..] == s[1..][1..]; LaterCloser(s); }
    }
  }

  lemma LaterCloser(s: string)
    requires |s| >= 2 && Find(s, "*/").None?
    ensures Find(s[2..], "*/").None?
  {
    if Find(s[2..], "*/").Some? { AtDrop(s, 2, Find(s[2..], "*/").value, "*/"); }
  }

  /** Without a closer the deleter leaves block openers alone; only line comments go. */
  lemma UnclosedOpenerStays(s: string)
    requires Find(s, "*/").None?
    ensures Deleted(s) == WithoutLines(s)
  {
    NoCloser(s);
  }
}
