/** Splitting a list at the separators that stand outside every bracket. */
module TopLevel {
  import opened Text

  function Bracket(c: char): int {
    if c == '(' || c == '[' || c == '{' || c == '<' then 1
    else if c == ')' || c == ']' || c == '}' || c == '>' then -1
    else 0
  }

  /** Opening minus closing brackets. */
  function Level(s: string): int {
    if s == [] then 0 else Level(s[..|s| - 1]) + Bracket(s[|s| - 1])
  }

  /** All the pieces of `s`, the text after the last separator included. */
  function Pieces(s: string, sep: char): (r: seq<string>)
    ensures r != []
  {
    if s == [] then [""]
    else
      var r, c := Pieces(s[..|s| - 1], sep), s[|s| - 1];
      if c == sep && Level(s) == 0 then r + [""] else Extended(r, [c])
  }

  /** `t` added to the last piece. */
  function Extended(r: seq<string>, t: string): seq<string>
    requires r != []
  {
    r[..|r| - 1] + [r[|r| - 1] + t]
  }

  function LastOf(r: seq<string>): string
    requires r != []
  {
    r[|r| - 1]
  }

  /** The pieces, without the last one when it is blank. */
  function Split(s: string, sep: char): seq<string> {
    var r := Pieces(s, sep);
    if Strip(LastOf(r)) == "" then r[..|r| - 1] else r
  }

  method SplitTopLevel(s: string, sep: char) returns (parts: seq<string>)
    ensures parts == Split(s, sep)
  {
    parts := [];
    var depth, cur := 0, "";
    for i := 0 to |s|
      invariant parts + [cur] == Pieces(s[..i], sep)
      invariant depth == Level(s[..i])
    {
      var c := s[i];
      assert s[..i + 1] == s[..i] + [c];
      PiecesSnoc(s[..i], c, sep);
      LevelOne(s[..i], c);
      assert Extended(parts + [cur], [c]) == parts + [cur + [c]];
      if c == '(' || c == '[' || c == '{' || c == '<' {
        depth := depth + 1;
      } else if c == ')' || c == ']' || c == '}' || c == '>' {
        depth := depth - 1;
      }
      if c == sep && depth == 0 {
        parts := parts + [cur];
        cur := "";
      } else {
        cur := cur + [c];
      }
    }
    assert s[..|s|] == s;
    if Strip(cur) != "" {
      parts := parts + [cur];
    }
  }

  // ---- what a piece is ----

  /** Read from level `d`, `s` has no separator at level 0. */
  predicate Whole(d: int, s: string, sep: char) {
    s == [] || (Whole(d, s[..|s| - 1], sep) && !(s[|s| - 1] == sep && d + Level(s) == 0))
  }

  /** Pieces as splitting makes them: none holds a separator at level 0, and all but the last
      are balanced. */
  ghost predicate WellSplit(r: seq<string>, sep: char) {
    && r != []
    && (forall i :: 0 <= i < |r| ==> Whole(0, r[i], sep))
    && (forall i :: 0 <= i < |r| - 1 ==> Level(r[i]) == 0)
  }

  lemma {:induction false} LevelConcat(a: string, b: string)
    ensures Level(a + b) == Level(a) + Level(b)
  {
    if b == [] {
      assert a + b == a;
    } else {
      assert (a + b)[..|a + b| - 1] == a + b[..|b| - 1];
      LevelConcat(a, b[..|b| - 1]);
    }
  }

  lemma {:induction false} WholeConcat(d: int, a: string, b: string, sep: char)
    ensures Whole(d, a + b, sep) <==> Whole(d, a, sep) && Whole(d + Level(a), b, sep)
  {
    if b == [] {
      assert a + b == a;
    } else {
      assert (a + b)[..|a + b| - 1] == a + b[..|b| - 1];
      WholeConcat(d, a, b[..|b| - 1], sep);
      LevelConcat(a, b);
    }
  }

  lemma LevelOne(s: string, c: char)
    ensures Level(s + [c]) == Level(s) + Bracket(c)
    ensures forall d, sep :: Whole(d, s + [c], sep)
                        <==> Whole(d, s, sep) && !(c == sep && d + Level(s) + Bracket(c) == 0)
  {
    assert (s + [c])[..|s|] == s;
  }

  lemma WellSplitExtended(r: seq<string>, c: char, sep: char)
    requires WellSplit(r, sep) && !(c == sep && Level(LastOf(r)) + Bracket(c) == 0)
    ensures WellSplit(Extended(r, [c]), sep)
  {
    LevelOne(LastOf(r), c);
  }

  lemma WellSplitSnoc(r: seq<string>, sep: char)
    requires WellSplit(r, sep) && Level(LastOf(r)) == 0
    ensures WellSplit(r + [""], sep)
  {
  }

  /** The pieces are well split, and the last one is as deep as the text. */
  lemma {:induction false} PiecesAreWellSplit(s: string, sep: char)
    requires Bracket(sep) == 0
    ensures WellSplit(Pieces(s, sep), sep)
    ensures Level(LastOf(Pieces(s, sep))) == Level(s)
  {
    if s != [] {
      var t, c := s[..|s| - 1], s[|s| - 1];
      PiecesAreWellSplit(t, sep);
      assert s == t + [c];
      OneMorePiece(t, c, sep);
    }
  }

  lemma OneMorePiece(t: string, c: char, sep: char)
    requires Bracket(sep) == 0 && WellSplit(Pieces(t, sep), sep) && Level(LastOf(Pieces(t, sep))) == Level(t)
    ensures WellSplit(Pieces(t + [c], sep), sep) && Level(LastOf(Pieces(t + [c], sep))) == Level(t + [c])
  {
    var r := Pieces(t, sep);
    PiecesSnoc(t, c, sep);
    LevelOne(t, c);
    if c == sep && Level(t + [c]) == 0 {
      WellSplitSnoc(r, sep);
    } else {
      WellSplitExtended(r, c, sep);
      LevelOne(LastOf(r), c);
    }
  }

  lemma PiecesSnoc(t: string, c: char, sep: char)
    ensures Pieces(t + [c], sep)
         == if c == sep && Level(t + [c]) == 0 then Pieces(t, sep) + [""] else Extended(Pieces(t, sep), [c])
  {
    assert (t + [c])[..|t|] == t;
  }

  lemma {:induction false} JoinExtended(r: seq<string>, t: string, sep: string)
    requires r != []
    ensures Join(Extended(r, t), sep) == Join(r, sep) + t
  {
    if |r| == 1 {
      assert Extended(r, t) == [r[0] + t];
    } else {
      var e := Extended(r, t);
      assert e[1..] == Extended(r[1..], t) && e[0] == r[0];
      JoinExtended(r[1..], t, sep);
      Assoc(r[0] + sep, Join(r[1..], sep), t);
    }
  }

  /** Nothing is lost: the pieces rejoined are the text. */
  lemma {:induction false} PiecesRejoin(s: string, sep: char)
    ensures Join(Pieces(s, sep), [sep]) == s
  {
    if s != [] {
      var t, c := s[..|s| - 1], s[|s| - 1];
      PiecesRejoin(t, sep);
      assert s == t + [c];
      if c == sep && Level(s) == 0 {
        JoinSnoc(Pieces(t, sep), "", [sep]);
        assert [sep] + "" == [sep];
      } else {
        JoinExtended(Pieces(t, sep), [c], [sep]);
      }
    }
  }

  /** A whole text appended to `s` goes to the last piece. */
  lemma {:induction false} PiecesAppend(s: string, t: string, sep: char)
    requires Whole(Level(s), t, sep)
    ensures Pieces(s + t, sep) == Extended(Pieces(s, sep), t)
  {
    var r := Pieces(s, sep);
    if t == [] {
      assert s + t == s && LastOf(r) + t == LastOf(r);
    } else {
      var u, c := t[..|t| - 1], t[|t| - 1];
      assert (s + t)[..|s + t| - 1] == s + u;
      PiecesAppend(s, u, sep);
      LevelConcat(s, t);
      assert u + [c] == t;
      Assoc(LastOf(r), u, [c]);
    }
  }

  /** A separator appended at level 0 starts a new piece. */
  lemma PiecesSeparate(s: string, sep: char)
    requires Level(s) == 0 && Bracket(sep) == 0
    ensures Pieces(s + [sep], sep) == Pieces(s, sep) + [""]
  {
    assert (s + [sep])[..|s|] == s;
  }

  /** Well-split pieces are recovered from their concatenation, so they are the only ones. */
  lemma {:induction false} PiecesOfJoin(r: seq<string>, sep: char)
    requires WellSplit(r, sep) && Bracket(sep) == 0
    ensures Pieces(Join(r, [sep]), sep) == r
    ensures Level(Join(r, [sep])) == Level(LastOf(r))
  {
    var x := LastOf(r);
    if |r| == 1 {
      assert "" + x == x;
      PiecesAppend("", x, sep);
      assert Extended([""], x) == [x];
    } else {
      var init := r[..|r| - 1];
      assert r == init + [x];
      WellSplitInit(r, sep);
      PiecesOfJoin(init, sep);
      LastOfJoin(init, x, sep);
    }
  }

  lemma WellSplitInit(r: seq<string>, sep: char)
    requires WellSplit(r, sep) && |r| > 1
    ensures var init := r[..|r| - 1]; WellSplit(init, sep) && Level(LastOf(init)) == 0 && Whole(0, LastOf(r), sep)
  {
    assert LastOf(r[..|r| - 1]) == r[|r| - 2];
  }

  lemma LastOfJoin(init: seq<string>, x: string, sep: char)
    requires init != [] && Bracket(sep) == 0 && Whole(0, x, sep) && Level(LastOf(init)) == 0
    requires Pieces(Join(init, [sep]), sep) == init && Level(Join(init, [sep])) == Level(LastOf(init))
    ensures Pieces(Join(init + [x], [sep]), sep) == init + [x] && Level(Join(init + [x], [sep])) == Level(x)
  {
    var s := Join(init, [sep]);
    JoinSnoc(init, x, [sep]);
    Assoc(s, [sep], x);
    PiecesSeparate(s, sep);
    LevelOne(s, sep);
    PiecesAppend(s + [sep], x, sep);
    LevelConcat(s + [sep], x);
    NewPiece(init, x);
  }

  lemma NewPiece(init: seq<string>, x: string)
    ensures Extended(init + [""], x) == init + [x]
  {
    assert "" + x == x;
  }

  // ---- the splitter itself ----

  lemma StripBlank(s: string)
    ensures Strip(s) == "" <==> AllSpace(s)
  {
    var w := LStripSplit(s);
    var y := LStrip(s);
    var v := RStripSplit(y);
    if y != [] { assert s[|w|] == y[0]; }
  }

  /** Nothing but a blank tail is lost, every separator left in a part is inside brackets,
      and every part followed by a separator is balanced. */
  lemma SplitLosesOnlyBlankTail(s: string, sep: char) returns (tail: seq<string>)
    requires Bracket(sep) == 0
    ensures |tail| <= 1 && (tail != [] ==> AllSpace(tail[0]))
    ensures Join(Split(s, sep) + tail, [sep]) == s && WellSplit(Split(s, sep) + tail, sep)
  {
    PiecesRejoin(s, sep);
    PiecesAreWellSplit(s, sep);
    var r := Pieces(s, sep);
    StripBlank(LastOf(r));
    tail := if AllSpace(LastOf(r)) then [LastOf(r)] else [];
    assert Split(s, sep) + tail == r;
  }

  /** Re-splitting the rejoined parts returns them exactly when the last part is not blank:
      a blank part before a blank tail is dropped the second time. */
  lemma ResplitReturnsParts(s: string, sep: char)
    requires Bracket(sep) == 0
    ensures var parts := Split(s, sep);
            Split(Join(parts, [sep]), sep) == parts <==> parts == [] || !AllSpace(LastOf(parts))
  {
    var parts := Split(s, sep);
    PiecesAreWellSplit(s, sep);
    if parts == [] {
      StripBlank("");
    } else {
      assert WellSplit(parts, sep);
      PiecesOfJoin(parts, sep);
      StripBlank(LastOf(parts));
    }
  }

  lemma PiecesOfBlank()
    ensures Pieces(" ", ',') == [" "]
  {
    assert " "[..0] == "" && "" + " " == " ";
    assert Pieces("", ',') == [""] && Extended([""], " ") == [" "];
  }

  /** The failing case at its smallest. */
  lemma ResplitDropsBlankPart()
    ensures Split(" ,", ',') == [" "] && Split(Join([" "], ","), ',') == []
  {
    PiecesOfBlank();
    assert " ,"[..1] == " " && Level(" ,") == 0;
    assert Pieces(" ,", ',') == [" "] + [""];
    StripBlank("");
    StripBlank(" ");
  }

  // ---- which characters are brackets ----

  /** Text with neither a bracket nor a comma. */
  predicate Flat(s: string) {
    forall i :: 0 <= i < |s| ==> s[i] !in "()[]{}<>,"
  }

  /** Text without brackets. */
  predicate Unbracketed(s: string) {
    forall i :: 0 <= i < |s| ==> s[i] !in "()[]{}<>"
  }

  lemma {:induction false} UnbracketedLevel(d: int, s: string)
    requires Unbracketed(s)
    ensures Level(s) == 0 && (d != 0 || Flat(s) ==> Whole(d, s, ','))
  {
    if s != [] {
      var t := s[..|s| - 1];
      assert forall i :: 0 <= i < |t| ==> t[i] == s[i];
      UnbracketedLevel(d, t);
      assert s[|s| - 1] !in "()[]{}<>";
    }
  }

  lemma FlatIsWhole(s: string)
    requires Flat(s)
    ensures Level(s) == 0 && Whole(0, s, ',')
  {
    assert Unbracketed(s) by {
      forall i | 0 <= i < |s| ensures s[i] !in "()[]{}<>" { assert s[i] !in "()[]{}<>,"; }
    }
    UnbracketedLevel(0, s);
  }

  /** A comma outside brackets separates. */
  lemma CommaSplits(a: string, b: string)
    requires Flat(a) && Flat(b) && Strip(b) != ""
    ensures Split(a + ("," + b), ',') == [a, b]
  {
    FlatIsWhole(a);
    FlatIsWhole(b);
    assert Join([a, b], ",") == a + ("," + b) by {
      assert [a, b][1..] == [b];
      Assoc(a, ",", b);
    }
    PiecesOfJoin([a, b], ',');
  }

  predicate Matching(open: char, close: char) {
    || (open == '(' && close == ')') || (open == '[' && close == ']')
    || (open == '{' && close == '}') || (open == '<' && close == '>')
  }

  lemma OneCharacter(d: int, c: char)
    requires c != ','
    ensures Level([c]) == Bracket(c) && Whole(d, [c], ',')
  {
    assert [c][..0] == [];
  }

  lemma Enclosed(open: char, x: string, close: char)
    requires Matching(open, close) && Unbracketed(x)
    ensures Level([open] + (x + [close])) == 0 && Whole(0, [open] + (x + [close]), ',')
  {
    OneCharacter(0, open);
    UnbracketedLevel(1, x);
    OneCharacter(1, close);
    LevelConcat(x, [close]);
    LevelConcat([open], x + [close]);
    WholeConcat(1, x, [close], ',');
    WholeConcat(0, [open], x + [close], ',');
  }

  lemma OnePiece(s: string)
    requires Whole(0, s, ',') && !AllSpace(s)
    ensures Split(s, ',') == [s]
  {
    PiecesOfJoin([s], ',');
    StripBlank(s);
  }

  lemma HeldWhole(a: string, g: string, b: string)
    requires Flat(a) && Level(g) == 0 && Whole(0, g, ',') && Flat(b)
    ensures Whole(0, a + (g + b), ',')
  {
    FlatIsWhole(a);
    FlatIsWhole(b);
    WholeConcat(0, g, b, ',');
    WholeConcat(0, a, g + b, ',');
  }

  /** Commas between matching brackets do not separate. */
  lemma BracketsHoldCommas(a: string, open: char, x: string, close: char, b: string)
    requires Flat(a) && Matching(open, close) && Unbracketed(x) && Flat(b)
    ensures var s := a + (([open] + (x + [close])) + b); Split(s, ',') == [s]
  {
    var g := [open] + (x + [close]);
    var s := a + (g + b);
    Enclosed(open, x, close);
    HeldWhole(a, g, b);
    assert s[|a|] == open;
    OnePiece(s);
  }
}
