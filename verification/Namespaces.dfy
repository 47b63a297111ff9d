/** `namespace NAME { ... }` wrappers are blanked out so that what they hold is scanned at
    top level. */
module Namespaces {
  import opened Text
  import opened Braces

  const KEYWORD := "namespace"

  /** Most of what follows holds for any keyword `kw` without blanks. */
  predicate IsKeyword(kw: string) {
    kw != [] && ' ' !in kw && '\t' !in kw && '\n' !in kw
  }

  function Blanks(n: nat): (r: string)
    ensures |r| == n
  {
    seq(n, i => ' ')
  }

  /** Whether a `namespace` word may start after the character `c`. */
  predicate Separates(c: char) {
    c == ' ' || c == '\t' || c == '\n'
  }

  /** Whether a wrapper head starts here: no wrapper is open (`d` counts the open braces of
      the current one) and the word `namespace` begins at a separator. */
  predicate AtHead(kw: string, d: nat, sep: bool, s: string) {
    d == 0 && sep && StartsWith(s, kw)
  }

  function NextDepth(d: nat, c: char): nat {
    if d == 0 then 0 else d + Weight(c)
  }

  predicate NextSep(d: nat, c: char) {
    d == 0 && Separates(c)
  }

  /** The closing brace of a wrapper becomes a newline. */
  function Copied(d: nat, c: char): char {
    if d == 1 && c == '}' then '\n' else c
  }

  /** What is written for `s`. */
  function Unwrap(kw: string, d: nat, sep: bool, s: string): string
    decreases |s|
  {
    if s == [] then ""
    else if AtHead(kw, d, sep, s) then
      var j := IndexOf(s, '{');
      if j == |s| then s else Blanks(j + 1) + Unwrap(kw, 1, false, s[j + 1..])
    else [Copied(d, s[0])] + Unwrap(kw, NextDepth(d, s[0]), NextSep(d, s[0]), s[1..])
  }

  function Unwrapped(text: string): string {
    Unwrap(KEYWORD, 0, true, text)
  }

  predicate SepAt(text: string, i: nat)
    requires i <= |text|
  {
    i == 0 || Separates(text[i - 1])
  }

  predicate HeadAt(kw: string, text: string, i: nat)
    requires i <= |text|
  {
    At(text, i, kw) && SepAt(text, i)
  }

  /** What is still to be written when the outer loop stands at `i`. */
  ghost function Rest(kw: string, text: string, i: nat): string
    requires i <= |text|
  {
    Unwrap(kw, 0, SepAt(text, i), text[i..])
  }

  lemma HeadTurn(kw: string, text: string, i: nat, j: nat)
    requires i < |text| && HeadAt(kw, text, i) && j == i + IndexOf(text[i..], '{')
    ensures j == |text| ==> Rest(kw, text, i) == text[i..]
    ensures j < |text| ==> Rest(kw, text, i) == Blanks(j + 1 - i) + Unwrap(kw, 1, false, text[j + 1..])
  {
    AtDrop(text, i, 0, kw);
    if j < |text| { DropDrop(text, i, j - i + 1); }
  }

  lemma PlainTurn(kw: string, text: string, i: nat)
    requires i < |text| && !HeadAt(kw, text, i)
    ensures Rest(kw, text, i) == [text[i]] + Rest(kw, text, i + 1)
  {
    AtDrop(text, i, 0, kw);
    DropDrop(text, i, 1);
  }

  /** Copies what a wrapper holds from index `start`; its closing brace becomes a newline.
      `k` is the index after that brace, or the end of the text. */
  method CopyBody(kw: string, text: string, start: nat) returns (body: string, k: nat)
    requires 0 < start <= |text|
    ensures start <= k <= |text|
    ensures body + Rest(kw, text, k) == Unwrap(kw, 1, false, text[start..])
  {
    var depth := 1;
    k := start;
    body := "";
    while k < |text| && depth > 0
      invariant start <= k <= |text| && depth >= 0
      invariant depth == 0 ==> text[k - 1] == '}'
      invariant body + Unwrap(kw, depth, false, text[k..]) == Unwrap(kw, 1, false, text[start..])
    {
      var c := text[k];
      var piece := [c];
      if c == '{' {
        depth := depth + 1;
      } else if c == '}' {
        depth := depth - 1;
        if depth == 0 {
          piece := "\n";
        }
      }
      DropDrop(text, k, 1);
      Assoc(body, piece, Unwrap(kw, depth, false, text[k + 1..]));
      body := body + piece;
      k := k + 1;
    }
  }

  /** Blanks the wrapper head `text[i..j]` and copies what the wrapper holds. */
  method CopyWrapper(kw: string, text: string, i: nat, j: nat) returns (out: string, k: nat)
    requires i < |text| && HeadAt(kw, text, i) && j == i + IndexOf(text[i..], '{') < |text|
    ensures i < k <= |text|
    ensures out + Rest(kw, text, k) == Rest(kw, text, i)
  {
    HeadTurn(kw, text, i, j);
    var opener := Blanks(j + 1 - i);
    var body;
    body, k := CopyBody(kw, text, j + 1);
    Assoc(opener, body, Rest(kw, text, k));
    out := opener + body;
  }

  method UnwrapAll(kw: string, text: string) returns (out: string)
    ensures out == Unwrap(kw, 0, true, text)
  {
    out := "";
    var i := 0;
    assert text[0..] == text;
    while i < |text|
      invariant 0 <= i <= |text|
      invariant out + Rest(kw, text, i) == Rest(kw, text, 0)
    {
      if HeadAt(kw, text, i) {
        var j := i + IndexOf(text[i..], '{');
        if j == |text| {
          HeadTurn(kw, text, i, j);
          out := out + text[i..];
          break;
        }
        var wrapper, k := CopyWrapper(kw, text, i, j);
        Assoc(out, wrapper, Rest(kw, text, k));
        out := out + wrapper;
        i := k;
      } else {
        PlainTurn(kw, text, i);
        Assoc(out, [text[i]], Rest(kw, text, i + 1));
        out := out + [text[i]];
        i := i + 1;
      }
    }
  }

  method UnwrapNamespaces(text: string) returns (out: string)
    ensures out == Unwrapped(text)
  {
    out := UnwrapAll(KEYWORD, text);
  }

  // ---- what unwrapping guarantees ----

  /** Position by position, a character is kept or blanked. */
  ghost predicate KeptOrBlanked(s: string, r: string) {
    |r| == |s| && forall k :: 0 <= k < |s| ==> r[k] == s[k] || r[k] == ' ' || r[k] == '\n'
  }

  lemma {:induction false} UnwrapKeepsOrBlanks(kw: string, d: nat, sep: bool, s: string)
    ensures KeptOrBlanked(s, Unwrap(kw, d, sep, s))
    decreases |s|
  {
    if s == [] {
    } else if AtHead(kw, d, sep, s) {
      var j := IndexOf(s, '{');
      if j < |s| {
        UnwrapKeepsOrBlanks(kw, 1, false, s[j + 1..]);
        assert forall k :: j < k < |s| ==> s[k] == s[j + 1..][k - j - 1];
      }
    } else {
      UnwrapKeepsOrBlanks(kw, NextDepth(d, s[0]), NextSep(d, s[0]), s[1..]);
    }
  }

  /** No closing brace stands between a `namespace` word and its opening brace. */
  predicate HeadsClean(kw: string, d: nat, sep: bool, s: string)
    decreases |s|
  {
    if s == [] then true
    else if AtHead(kw, d, sep, s) then
      var j := IndexOf(s, '{');
      j == |s| || ('}' !in s[..j] && HeadsClean(kw, 1, false, s[j + 1..]))
    else HeadsClean(kw, NextDepth(d, s[0]), NextSep(d, s[0]), s[1..])
  }

  /** 1 when position `k` lies inside a removed wrapper, 0 elsewhere. */
  function Inside(kw: string, d: nat, sep: bool, s: string, k: nat): int
    requires k <= |s|
    decreases |s|
  {
    if k == 0 then (if d > 0 then 1 else 0)
    else if AtHead(kw, d, sep, s) then
      var j := IndexOf(s, '{');
      if k <= j then 0 else Inside(kw, 1, false, s[j + 1..], k - j - 1)
    else Inside(kw, NextDepth(d, s[0]), NextSep(d, s[0]), s[1..], k - 1)
  }

  lemma NetPrefix(c: char, t: string, k: nat)
    requires 0 < k <= |t| + 1
    ensures Net(([c] + t)[..k]) == Weight(c) + Net(t[..k - 1])
  {
    var p := ([c] + t)[..k];
    assert p[1..] == t[..k - 1];
  }

  lemma NetSplit(a: string, t: string, k: nat)
    requires |a| <= k <= |a + t|
    ensures Net((a + t)[..k]) == Net(a) + Net(t[..k - |a|])
  {
    assert (a + t)[..k] == a + t[..k - |a|];
    NetConcat(a, t[..k - |a|]);
  }

  /** A clean wrapper head raises the depth by exactly one, with its brace. */
  lemma {:induction false} NetOfHead(s: string, j: nat, k: nat)
    requires j == IndexOf(s, '{') < |s| && '}' !in s[..j] && k <= j
    ensures Net(s[..j + 1]) == 1 && Net(s[..k]) == 0
  {
    assert s == [s[0]] + s[1..];
    NetPrefix(s[0], s[1..], j + 1);
    if j == 0 {
      assert s[1..][..0] == [];
    } else {
      assert s[..j] == [s[0]] + s[1..][..j - 1];
      NetOfHead(s[1..], j - 1, if k > 0 then k - 1 else 0);
      if k > 0 { NetPrefix(s[0], s[1..], k); }
    }
  }

  lemma NetBlanks(n: nat)
    ensures Net(Blanks(n)) == 0
  {
    NetBraceless(Blanks(n));
  }

  lemma LevelShiftInHead(s: string, j: nat, v: string, k: nat)
    requires j == IndexOf(s, '{') < |s| && '}' !in s[..j] && |v| == |s| - j - 1 && k <= |s|
    ensures k <= j ==> Net((Blanks(j + 1) + v)[..k]) == Net(s[..k]) == 0
    ensures k > j ==> Net((Blanks(j + 1) + v)[..k]) == Net(v[..k - j - 1])
    ensures k > j ==> Net(s[..k]) == 1 + Net(s[j + 1..][..k - j - 1])
  {
    if k <= j { ShiftBeforeBrace(s, j, v, k); } else { ShiftBehindBrace(s, j, v, k); }
  }

  lemma ShiftBeforeBrace(s: string, j: nat, v: string, k: nat)
    requires j == IndexOf(s, '{') < |s| && '}' !in s[..j] && k <= j
    ensures Net((Blanks(j + 1) + v)[..k]) == Net(s[..k]) == 0
  {
    NetOfHead(s, j, k);
    assert (Blanks(j + 1) + v)[..k] == Blanks(k);
    NetBlanks(k);
  }

  lemma ShiftBehindBrace(s: string, j: nat, v: string, k: nat)
    requires j == IndexOf(s, '{') < |s| && '}' !in s[..j] && |v| == |s| - j - 1 && j < k <= |s|
    ensures Net((Blanks(j + 1) + v)[..k]) == Net(v[..k - j - 1])
    ensures Net(s[..k]) == 1 + Net(s[j + 1..][..k - j - 1])
  {
    NetBlanks(j + 1);
    NetSplit(Blanks(j + 1), v, k);
    NetPastBrace(s, j, k);
  }

  lemma NetPastBrace(s: string, j: nat, k: nat)
    requires j == IndexOf(s, '{') < |s| && '}' !in s[..j] && j < k <= |s|
    ensures Net(s[..k]) == 1 + Net(s[j + 1..][..k - j - 1])
  {
    NetOfHead(s, j, 0);
    assert s == s[..j + 1] + s[j + 1..];
    NetSplit(s[..j + 1], s[j + 1..], k);
  }

  /** Everything inside a removed wrapper sits exactly one level shallower, everything
      outside stays where it was. */
  lemma {:induction false} LevelShift(kw: string, d: nat, sep: bool, s: string, k: nat)
    requires HeadsClean(kw, d, sep, s) && k <= |s|
    ensures |Unwrap(kw, d, sep, s)| == |s|
    ensures Net(Unwrap(kw, d, sep, s)[..k]) == Net(s[..k]) + (if d > 0 then 1 else 0) - Inside(kw, d, sep, s, k)
    decreases |s|
  {
    UnwrapKeepsOrBlanks(kw, d, sep, s);
    if k == 0 {
    } else if AtHead(kw, d, sep, s) {
      var j := IndexOf(s, '{');
      if j < |s| {
        if k > j { LevelShift(kw, 1, false, s[j + 1..], k - j - 1); }
        LevelShiftAtHead(kw, d, sep, s, k, j);
      }
    } else {
      LevelShift(kw, NextDepth(d, s[0]), NextSep(d, s[0]), s[1..], k - 1);
      LevelShiftOverOne(kw, d, sep, s, k);
    }
  }

  lemma LevelShiftAtHead(kw: string, d: nat, sep: bool, s: string, k: nat, j: nat)
    requires AtHead(kw, d, sep, s) && j == IndexOf(s, '{') < |s| && '}' !in s[..j] && 0 < k <= |s|
    requires var v := Unwrap(kw, 1, false, s[j + 1..]);
             && |v| == |s| - j - 1
             && (k > j ==>
                   Net(v[..k - j - 1])
                   == Net(s[j + 1..][..k - j - 1]) + 1 - Inside(kw, 1, false, s[j + 1..], k - j - 1))
    ensures |Unwrap(kw, d, sep, s)| == |s| && Net(Unwrap(kw, d, sep, s)[..k]) == Net(s[..k]) - Inside(kw, d, sep, s, k)
  {
    LevelShiftInHead(s, j, Unwrap(kw, 1, false, s[j + 1..]), k);
  }

  lemma LevelShiftOverOne(kw: string, d: nat, sep: bool, s: string, k: nat)
    requires 0 < k <= |s| && !AtHead(kw, d, sep, s)
    requires |Unwrap(kw, NextDepth(d, s[0]), NextSep(d, s[0]), s[1..])| == |s| - 1
    ensures Net(s[..k]) == Weight(s[0]) + Net(s[1..][..k - 1])
    ensures Net(Unwrap(kw, d, sep, s)[..k])
         == Weight(Copied(d, s[0])) + Net(Unwrap(kw, NextDepth(d, s[0]), NextSep(d, s[0]), s[1..])[..k - 1])
  {
    assert s == [s[0]] + s[1..];
    NetPrefix(s[0], s[1..], k);
    NetPrefix(Copied(d, s[0]), Unwrap(kw, NextDepth(d, s[0]), NextSep(d, s[0]), s[1..]), k);
  }

  lemma StaysPastHead(b: int, s: string, j: nat)
    requires Stays(b, s) && j == IndexOf(s, '{') < |s| && '}' !in s[..j]
    ensures Stays(b + 1, s[j + 1..]) && Net(s) == 1 + Net(s[j + 1..])
  {
    var head, rest := s[..j + 1], s[j + 1..];
    assert s == head + rest;
    NetOfHead(s, j, 0);
    NetConcat(head, rest);
    StaysConcat(b, head, rest);
  }

  lemma StaysBehindBlanks(b: int, n: nat, v: string)
    requires Stays(b, v)
    ensures Stays(b, Blanks(n) + v)
  {
    StaysBraceless(b, Blanks(n));
    NetBlanks(n);
    StaysConcat(b, Blanks(n), v);
  }

  /** Balanced text with clean heads stays balanced: the depth `b` at this point is at least
      the number of open wrapper braces, and the output runs one level below inside. */
  lemma {:induction false} UnwrapStays(kw: string, b: int, d: nat, sep: bool, s: string)
    requires Stays(b, s) && b >= d && HeadsClean(kw, d, sep, s)
    ensures Stays(if d > 0 then b - 1 else b, Unwrap(kw, d, sep, s))
    ensures b + Net(s) == 0 ==> Inside(kw, d, sep, s, |s|) == 0
    decreases |s|
  {
    if s == [] {
    } else if AtHead(kw, d, sep, s) {
      var j := IndexOf(s, '{');
      if j < |s| {
        StaysPastHead(b, s, j);
        UnwrapStays(kw, b + 1, 1, false, s[j + 1..]);
        StaysBehindBlanks(b, j + 1, Unwrap(kw, 1, false, s[j + 1..]));
      }
    } else {
      UnwrapStays(kw, b + Weight(s[0]), NextDepth(d, s[0]), NextSep(d, s[0]), s[1..]);
    }
  }

  /** On balanced text with clean wrapper heads the result is balanced, and position by
      position it is one level shallower inside the removed wrappers only. */
  lemma UnwrappedIsBalanced(text: string)
    requires Balanced(text) && HeadsClean(KEYWORD, 0, true, text)
    ensures Balanced(Unwrapped(text))
    ensures |Unwrapped(text)| == |text|
    ensures forall k :: 0 <= k <= |text| ==>
              Net(Unwrapped(text)[..k]) == Net(text[..k]) - Inside(KEYWORD, 0, true, text, k)
  {
    UnwrapStays(KEYWORD, 0, 0, true, text);
    forall k | 0 <= k <= |text|
      ensures |Unwrapped(text)| == |text|
      ensures Net(Unwrapped(text)[..k]) == Net(text[..k]) - Inside(KEYWORD, 0, true, text, k)
    {
      LevelShift(KEYWORD, 0, true, text, k);
    }
    assert text[..|text|] == text && Unwrapped(text)[..|text|] == Unwrapped(text);
  }

  // ---- unwrapping piece by piece ----

  /** The state reached after `s`: none while a head still waits for its brace. */
  function Standing(kw: string, d: nat, sep: bool, s: string): Option<(nat, bool)>
    decreases |s|
  {
    if s == [] then Some((d, sep))
    else if AtHead(kw, d, sep, s) then
      var j := IndexOf(s, '{');
      if j == |s| then None else Standing(kw, 1, false, s[j + 1..])
    else Standing(kw, NextDepth(d, s[0]), NextSep(d, s[0]), s[1..])
  }

  predicate EndsLine(s: string) {
    s == [] || s[|s| - 1] == '\n'
  }

  lemma KeywordNotSplit(kw: string, a: string, b: string)
    requires IsKeyword(kw) && a != [] && EndsLine(a)
    ensures StartsWith(a + b, kw) <==> StartsWith(a, kw)
  {
    var n := |kw|;
    if |a| >= n {
      assert (a + b)[0..n] == a[0..n];
    } else if |a + b| >= n {
      assert (a + b)[0..n][|a| - 1] == '\n';
    }
  }

  /** Unwrapping `a + b` from a state is unwrapping `a`, then `b` from where `a` leaves off. */
  ghost predicate Splits(kw: string, d: nat, sep: bool, a: string, b: string)
    requires Standing(kw, d, sep, a).Some?
  {
    var (d', sep') := Standing(kw, d, sep, a).value;
    && Unwrap(kw, d, sep, a + b) == Unwrap(kw, d, sep, a) + Unwrap(kw, d', sep', b)
    && Standing(kw, d, sep, a + b) == Standing(kw, d', sep', b)
  }

  lemma SplitsAfterHead(kw: string, d: nat, sep: bool, a: string, b: string, j: nat)
    requires AtHead(kw, d, sep, a) && AtHead(kw, d, sep, a + b) && j == IndexOf(a, '{') < |a|
    requires Standing(kw, 1, false, a[j + 1..]).Some? && Splits(kw, 1, false, a[j + 1..], b)
    ensures a != [] && Standing(kw, d, sep, a).Some? && Splits(kw, d, sep, a, b)
  {
    var c := a[j + 1..];
    var (d', sep') := Standing(kw, 1, false, c).value;
    IndexOfConcat(a, b, '{');
    DropConcat(a, b, j + 1);
    Assoc(Blanks(j + 1), Unwrap(kw, 1, false, c), Unwrap(kw, d', sep', b));
  }

  lemma SplitsAfterPlain(kw: string, d: nat, sep: bool, a: string, b: string)
    requires a != [] && !AtHead(kw, d, sep, a) && !AtHead(kw, d, sep, a + b)
    requires var e, f := NextDepth(d, a[0]), NextSep(d, a[0]);
             Standing(kw, e, f, a[1..]).Some? && Splits(kw, e, f, a[1..], b)
    ensures Standing(kw, d, sep, a).Some? && Splits(kw, d, sep, a, b)
  {
    var e, f, c := NextDepth(d, a[0]), NextSep(d, a[0]), a[1..];
    var (d', sep') := Standing(kw, e, f, c).value;
    DropConcat(a, b, 1);
    UnwrapPlain(kw, d, sep, a);
    UnwrapPlain(kw, d, sep, a + b);
    Assoc([Copied(d, a[0])], Unwrap(kw, e, f, c), Unwrap(kw, d', sep', b));
  }

  /** Whole lines can be unwrapped one after the other. */
  lemma {:induction false} UnwrapConcat(kw: string, d: nat, sep: bool, a: string, b: string)
    requires IsKeyword(kw) && EndsLine(a) && Standing(kw, d, sep, a).Some?
    ensures Splits(kw, d, sep, a, b)
    decreases |a|
  {
    if a == [] {
      assert a + b == b;
    } else {
      KeywordNotSplit(kw, a, b);
      if AtHead(kw, d, sep, a) {
        UnwrapConcat(kw, 1, false, a[IndexOf(a, '{') + 1..], b);
        SplitsAfterHead(kw, d, sep, a, b, IndexOf(a, '{'));
      } else {
        UnwrapConcat(kw, NextDepth(d, a[0]), NextSep(d, a[0]), a[1..], b);
        SplitsAfterPlain(kw, d, sep, a, b);
      }
    }
  }

  /** Two texts that agree everywhere but at `p`, where one has the blank `w` and the other
      a newline. */
  ghost predicate BrokenAt(u: string, v: string, p: nat, w: char) {
    p < |u| && u[p] == w && v == u[..p] + "\n" + u[p + 1..]
  }

  ghost predicate SameOrBroken(u: string, v: string, p: nat, w: char) {
    u == v || BrokenAt(u, v, p, w)
  }

  lemma BrokenBehind(pre: string, u: string, v: string, p: nat, w: char)
    requires SameOrBroken(u, v, p, w)
    ensures SameOrBroken(pre + u, pre + v, |pre| + p, w)
  {
    if BrokenAt(u, v, p, w) {
      var x := pre + u;
      assert x[..|pre| + p] == pre + u[..p] && x[|pre| + p + 1..] == u[p + 1..];
    }
  }

  lemma BrokenHere(kw: string, d: nat, sep: bool, w: char, b: string)
    requires IsKeyword(kw) && (w == ' ' || w == '\t')
    ensures BrokenAt(Unwrap(kw, d, sep, [w] + b), Unwrap(kw, d, sep, "\n" + b), 0, w)
  {
    var s, t := [w] + b, "\n" + b;
    assert !StartsWith(s, kw) && !StartsWith(t, kw) by {
      var n := |kw|;
      if |s| >= n { assert s[0..n][0] == w && t[0..n][0] == '\n'; }
    }
    assert s[1..] == b == t[1..];
  }

  lemma BrokenAfterHead(kw: string, d: nat, sep: bool, a: string, w: char, b: string, j: nat)
    requires j == IndexOf(a, '{') < |a| && (w == ' ' || w == '\t')
    requires AtHead(kw, d, sep, a + ([w] + b)) && AtHead(kw, d, sep, a + ("\n" + b))
    requires var c := a[j + 1..];
             SameOrBroken(Unwrap(kw, 1, false, c + ([w] + b)), Unwrap(kw, 1, false, c + ("\n" + b)), |c|, w)
    ensures SameOrBroken(Unwrap(kw, d, sep, a + ([w] + b)), Unwrap(kw, d, sep, a + ("\n" + b)), |a|, w)
  {
    var s, t, c := a + ([w] + b), a + ("\n" + b), a[j + 1..];
    IndexOfConcat(a, [w] + b, '{');
    IndexOfConcat(a, "\n" + b, '{');
    DropConcat(a, [w] + b, j + 1);
    DropConcat(a, "\n" + b, j + 1);
    BrokenBehind(Blanks(j + 1), Unwrap(kw, 1, false, s[j + 1..]), Unwrap(kw, 1, false, t[j + 1..]), |c|, w);
  }

  lemma BrokenAfterPlain(kw: string, d: nat, sep: bool, a: string, w: char, b: string)
    requires a != [] && (w == ' ' || w == '\t')
    requires !AtHead(kw, d, sep, a + ([w] + b)) && !AtHead(kw, d, sep, a + ("\n" + b))
    requires var e, f, c := NextDepth(d, a[0]), NextSep(d, a[0]), a[1..];
             SameOrBroken(Unwrap(kw, e, f, c + ([w] + b)), Unwrap(kw, e, f, c + ("\n" + b)), |c|, w)
    ensures SameOrBroken(Unwrap(kw, d, sep, a + ([w] + b)), Unwrap(kw, d, sep, a + ("\n" + b)), |a|, w)
  {
    var e, f, c := NextDepth(d, a[0]), NextSep(d, a[0]), a[1..];
    PlainStep(kw, d, sep, a, [w] + b);
    PlainStep(kw, d, sep, a, "\n" + b);
    BrokenBehind([Copied(d, a[0])], Unwrap(kw, e, f, c + ([w] + b)), Unwrap(kw, e, f, c + ("\n" + b)), |c|, w);
  }

  lemma PlainStep(kw: string, d: nat, sep: bool, a: string, t: string)
    requires a != [] && !AtHead(kw, d, sep, a + t)
    ensures Unwrap(kw, d, sep, a + t)
         == [Copied(d, a[0])] + Unwrap(kw, NextDepth(d, a[0]), NextSep(d, a[0]), a[1..] + t)
  {
    DropConcat(a, t, 1);
    UnwrapPlain(kw, d, sep, a + t);
  }

  lemma UnwrapPlain(kw: string, d: nat, sep: bool, s: string)
    requires s != [] && !AtHead(kw, d, sep, s)
    ensures Unwrap(kw, d, sep, s) == [Copied(d, s[0])] + Unwrap(kw, NextDepth(d, s[0]), NextSep(d, s[0]), s[1..])
  {
  }

  /** Breaking a line at a blank before unwrapping breaks it there afterwards, or changes
      nothing when the blank was part of a removed head. */
  lemma {:induction false} UnwrapBroken(kw: string, d: nat, sep: bool, a: string, w: char, b: string)
    requires IsKeyword(kw) && (w == ' ' || w == '\t')
    ensures SameOrBroken(Unwrap(kw, d, sep, a + ([w] + b)), Unwrap(kw, d, sep, a + ("\n" + b)), |a|, w)
    decreases |a|
  {
    if a == [] {
      assert a + ([w] + b) == [w] + b && a + ("\n" + b) == "\n" + b;
      BrokenHere(kw, d, sep, w, b);
    } else {
      KeywordBroken(kw, a, w, b);
      if !AtHead(kw, d, sep, a + ([w] + b)) {
        UnwrapBroken(kw, NextDepth(d, a[0]), NextSep(d, a[0]), a[1..], w, b);
        BrokenAfterPlain(kw, d, sep, a, w, b);
      } else if IndexOf(a, '{') < |a| {
        UnwrapBroken(kw, 1, false, a[IndexOf(a, '{') + 1..], w, b);
        BrokenAfterHead(kw, d, sep, a, w, b, IndexOf(a, '{'));
      } else {
        BrokenInHead(kw, d, sep, a, w, b);
      }
    }
  }

  lemma KeywordBroken(kw: string, a: string, w: char, b: string)
    requires IsKeyword(kw) && (w == ' ' || w == '\t')
    ensures StartsWith(a + ([w] + b), kw) <==> StartsWith(a + ("\n" + b), kw)
  {
    var s, t, n := a + ([w] + b), a + ("\n" + b), |kw|;
    if |a| >= n {
      assert s[0..n] == a[0..n] == t[0..n];
    } else if |s| >= n {
      assert s[0..n][|a|] == w && t[0..n][|a|] == '\n';
    }
  }

  lemma BrokenInHead(kw: string, d: nat, sep: bool, a: string, w: char, b: string)
    requires a != [] && (w == ' ' || w == '\t') && IndexOf(a, '{') == |a|
    requires AtHead(kw, d, sep, a + ([w] + b)) && AtHead(kw, d, sep, a + ("\n" + b))
    ensures SameOrBroken(Unwrap(kw, d, sep, a + ([w] + b)), Unwrap(kw, d, sep, a + ("\n" + b)), |a|, w)
  {
    var s, t := a + ([w] + b), a + ("\n" + b);
    IndexOfConcat(a, [w] + b, '{');
    IndexOfConcat(a, "\n" + b, '{');
    assert ([w] + b)[1..] == b == ("\n" + b)[1..];
    var j := IndexOf(s, '{');
    if j < |s| {
      assert s[j + 1..] == t[j + 1..];
    } else {
      assert s[..|a|] == a && s[|a| + 1..] == b;
      Assoc(a, "\n", b);
    }
  }

  // ---- which texts hold a wrapper ----

  /** A wrapper head at `i`: the keyword at the start of the text (when `sep`) or behind a
      space, a tab or a newline. */
  predicate HeadStarts(kw: string, sep: bool, s: string, i: nat) {
    At(s, i, kw) && (if i == 0 then sep else i <= |s| && (s[i - 1] == ' ' || s[i - 1] == '\t' || s[i - 1] == '\n'))
  }

  lemma NoHeadLater(kw: string, sep: bool, s: string, n: nat)
    requires s != [] && 0 < n <= |s| && forall i :: 0 <= i < n ==> !HeadStarts(kw, sep, s, i)
    ensures forall i :: 0 <= i < n - 1 ==> !HeadStarts(kw, NextSep(0, s[0]), s[1..], i)
  {
    forall i | 0 <= i < n - 1 ensures !HeadStarts(kw, NextSep(0, s[0]), s[1..], i) {
      AtDrop(s, 1, i, kw);
      assert !HeadStarts(kw, sep, s, i + 1);
    }
  }

  /** Text before the first head is copied. */
  lemma {:induction false} UnwrapPastQuiet(kw: string, sep: bool, a: string, r: string)
    requires forall i :: 0 <= i < |a| ==> !HeadStarts(kw, sep, a + r, i)
    ensures Unwrap(kw, 0, sep, a + r) == a + Unwrap(kw, 0, if a == [] then sep else Separates(a[|a| - 1]), r)
    decreases |a|
  {
    if a == [] {
      assert a + r == r;
    } else {
      var s := a + r;
      assert !HeadStarts(kw, sep, s, 0);
      DropConcat(a, r, 1);
      NoHeadLater(kw, sep, s, |a|);
      assert s[0] == a[0] && s[1..] == a[1..] + r && |a[1..]| == |a| - 1;
      UnwrapPastQuiet(kw, NextSep(0, a[0]), a[1..], r);
      UnwrapPlain(kw, 0, sep, s);
      Assoc([a[0]], a[1..], Unwrap(kw, 0, if a[1..] == [] then NextSep(0, a[0]) else Separates(a[|a| - 1]), r));
    }
  }

  /** The word `namespace` stands nowhere at the start of the text or behind a space, a tab or a
      newline. */
  predicate NoHead(text: string) {
    forall i :: 0 <= i < |text| ==> !HeadStarts("namespace", true, text, i)
  }

  /** Such a text is left alone. */
  lemma UnwrappedWithoutHead(text: string)
    requires NoHead(text)
    ensures Unwrapped(text) == text
  {
    assert text + "" == text;
    UnwrapPastQuiet("namespace", true, text, "");
  }

  lemma {:induction false} UnwrapInside(kw: string, d: nat, sep: bool, x: string, r: string)
    requires d > 0 && Stays(d - 1, x)
    ensures d + Net(x) > 0
    ensures Unwrap(kw, d, sep, x + r) == x + Unwrap(kw, d + Net(x), if x == [] then sep else false, r)
    decreases |x|
  {
    if x == [] {
      assert x + r == r;
    } else {
      DropConcat(x, r, 1);
      UnwrapInside(kw, d + Weight(x[0]), false, x[1..], r);
      UnwrapPlain(kw, d, sep, x + r);
      assert Copied(d, x[0]) == x[0];
      Assoc([x[0]], x[1..], Unwrap(kw, d + Net(x), false, r));
    }
  }

  lemma UnwrapClosing(kw: string, sep: bool, r: string)
    ensures Unwrap(kw, 1, sep, "}" + r) == "\n" + Unwrap(kw, 0, false, r)
  {
    assert ("}" + r)[1..] == r;
  }

  /** A wrapper from `kw` to its closing brace. */
  function Wrapper(kw: string, t: string, x: string, rest: string): string {
    (kw + t) + ("{" + (x + ("}" + rest)))
  }

  lemma UnwrapWrapper(kw: string, t: string, x: string, rest: string)
    requires kw != [] && '{' !in kw && '{' !in t && Balanced(x)
    ensures Unwrap(kw, 0, true, Wrapper(kw, t, x, rest))
         == Blanks(|kw| + |t| + 1) + (x + ("\n" + Unwrap(kw, 0, false, rest)))
  {
    var head, r := kw + t, x + ("}" + rest);
    var s := head + ("{" + r);
    assert '{' !in head;
    IndexBehind(head, "{" + r);
    assert s[|head| + 1..] == r;
    assert s[0..|kw|] == kw;
    UnwrapInside(kw, 1, false, x, "}" + rest);
    UnwrapClosing(kw, false, rest);
  }

  lemma TheKeyword()
    ensures '{' !in "namespace"
  {
  }

  /** A `namespace` at the start of a text: the head becomes blanks, what it holds is kept, its
      closing brace becomes a newline, and the rest is unwrapped in turn. */
  lemma WrapperAtStart(t: string, x: string, rest: string)
    requires '{' !in t && Balanced(x)
    ensures Unwrapped(Wrapper("namespace", t, x, rest))
         == Blanks(9 + |t| + 1) + (x + ("\n" + Unwrap("namespace", 0, false, rest)))
  {
    TheKeyword();
    UnwrapWrapper("namespace", t, x, rest);
  }

  /** The same behind a space, a tab or a newline. */
  lemma WrapperBehind(a: string, c: char, t: string, x: string, rest: string)
    requires (c == ' ' || c == '\t' || c == '\n') && '{' !in t && Balanced(x)
    requires var s := (a + [c]) + Wrapper("namespace", t, x, rest);
             forall i :: 0 <= i <= |a| ==> !HeadStarts("namespace", true, s, i)
    ensures Unwrapped((a + [c]) + Wrapper("namespace", t, x, rest))
         == (a + [c]) + (Blanks(9 + |t| + 1) + (x + ("\n" + Unwrap("namespace", 0, false, rest))))
  {
    TheKeyword();
    UnwrapPastQuiet("namespace", true, a + [c], Wrapper("namespace", t, x, rest));
    UnwrapWrapper("namespace", t, x, rest);
  }

  /** A `namespace` without a brace behind it ends the pass: the rest is left alone. */
  lemma HeadWithoutBrace(a: string, t: string)
    requires (a == [] || Separates(a[|a| - 1])) && '{' !in t
    requires forall i :: 0 <= i < |a| ==> !HeadStarts("namespace", true, a + ("namespace" + t), i)
    ensures Unwrapped(a + ("namespace" + t)) == a + ("namespace" + t)
  {
    var r := "namespace" + t;
    UnwrapPastQuiet("namespace", true, a, r);
    TheKeyword();
    assert r[0..9] == "namespace" && '{' !in r;
    IndexOfFinds(r, '{');
    assert IndexOf(r, '{') == |r|;
  }

  /** A wrapper that never closes: its head becomes blanks, and what follows is kept. */
  lemma WrapperUnclosed(a: string, t: string, x: string)
    requires (a == [] || Separates(a[|a| - 1])) && '{' !in t && Stays(0, x)
    requires forall i :: 0 <= i < |a| ==> !HeadStarts("namespace", true, a + (("namespace" + t) + ("{" + x)), i)
    ensures Unwrapped(a + (("namespace" + t) + ("{" + x))) == a + (Blanks(9 + |t| + 1) + x)
  {
    UnwrapPastQuiet("namespace", true, a, ("namespace" + t) + ("{" + x));
    TheKeyword();
    UnclosedAtStart("namespace", t, x);
  }

  lemma UnclosedAtStart(kw: string, t: string, x: string)
    requires kw != [] && '{' !in kw && '{' !in t && Stays(0, x)
    ensures Unwrap(kw, 0, true, (kw + t) + ("{" + x)) == Blanks(|kw| + |t| + 1) + x
  {
    var head := kw + t;
    var s := head + ("{" + x);
    assert '{' !in head;
    IndexBehind(head, "{" + x);
    assert s[|head| + 1..] == x && s[0..|kw|] == kw;
    UnwrapInside(kw, 1, false, x, "");
    assert x + "" == x;
  }

  /** No word of the text starts with the letter `c`. */
  predicate NoWordOn(c: char, s: string) {
    forall i :: 0 <= i < |s| && s[i] == c ==> i > 0 && !IsSpace(s[i - 1])
  }

  lemma NoWordNoHead(text: string)
    requires NoWordOn('n', text)
    ensures NoHead(text)
  {
    forall i | 0 <= i < |text| ensures !HeadStarts("namespace", true, text, i) {
      if HeadStarts("namespace", true, text, i) { AtChar(text, i, "namespace", 0); }
    }
  }

  lemma HeadInLeft(a: string, b: string, i: nat)
    requires i + 9 <= |a|
    ensures HeadStarts("namespace", true, a + b, i) <==> HeadStarts("namespace", true, a, i)
  {
    assert (a + b)[i..i + 9] == a[i..i + 9];
  }

  lemma HeadInRight(a: string, b: string, i: nat)
    requires i < |b|
    ensures HeadStarts("namespace", true, a + b, |a| + i) ==> HeadStarts("namespace", true, b, i)
  {
    if i + 9 <= |b| { assert (a + b)[|a| + i..|a| + i + 9] == b[i..i + 9]; }
  }

  /** A head in `a + b` that is not in either part runs over the seam. */
  lemma HeadOnSeam(a: string, b: string, i: nat)
    requires NoHead(a) && NoHead(b) && HeadStarts("namespace", true, a + b, i)
    ensures i < |a| < i + 9
  {
    if i + 9 <= |a| { HeadInLeft(a, b, i); }
    if |a| <= i { HeadInRight(a, b, i - |a|); }
  }

  lemma NoHeadConcat(a: string, b: string)
    requires NoHead(a) && NoHead(b)
    requires a == [] || b == [] || a[|a| - 1] !in "namespace" || b[0] !in "namespace"
    ensures NoHead(a + b)
  {
    forall i | 0 <= i < |a + b| ensures !HeadStarts("namespace", true, a + b, i) {
      if HeadStarts("namespace", true, a + b, i) {
        HeadOnSeam(a, b, i);
        AtChar(a + b, i, "namespace", |a| - 1 - i);
        AtChar(a + b, i, "namespace", |a| - i);
      }
    }
  }

  lemma KeywordBlank(kw: string, w: char, t: string)
    requires IsKeyword(kw) && Separates(w)
    ensures !StartsWith([w] + t, kw)
  {
    if StartsWith([w] + t, kw) { AtChar([w] + t, 0, kw, 0); }
  }

  /** `u` is `v` with one more blank before a blank: a `w` before a `c`, or a space before a
      space. */
  ghost predicate OneMoreAt(u: string, v: string, x: string, y: string, w: char, c: char) {
    || (u == x + ([w] + ([c] + y)) && v == x + ([c] + y))
    || (u == x + (" " + (" " + y)) && v == x + (" " + y))
  }

  lemma OneMoreAfter(pre: string, u: string, v: string, x: string, y: string, w: char, c: char) returns (z: string)
    requires OneMoreAt(u, v, x, y, w, c)
    ensures OneMoreAt(pre + u, pre + v, z, y, w, c)
  {
    z := pre + x;
    Assoc(pre, x, [w] + ([c] + y));
    Assoc(pre, x, [c] + y);
    Assoc(pre, x, " " + (" " + y));
    Assoc(pre, x, " " + y);
  }

  lemma BlankCopied(kw: string, d: nat, sep: bool, w: char, t: string)
    requires IsKeyword(kw) && Separates(w)
    ensures Unwrap(kw, d, sep, [w] + t) == [w] + Unwrap(kw, d, d == 0, t)
  {
    KeywordBlank(kw, w, t);
    assert ([w] + t)[1..] == t;
  }

  lemma BlanksConcat(m: nat, n: nat)
    ensures Blanks(m) + Blanks(n) == Blanks(m + n)
  {
  }

  lemma HeadBlanked(kw: string, d: nat, sep: bool, a: string, t: string, b: string)
    requires AtHead(kw, d, sep, a + (t + b)) && '{' !in a && '{' !in t && IndexOf(b, '{') < |b|
    ensures var k := IndexOf(b, '{');
            Unwrap(kw, d, sep, a + (t + b))
            == Blanks(|a|) + (Blanks(|t|) + (Blanks(k + 1) + Unwrap(kw, 1, false, b[k + 1..])))
  {
    var k := IndexOf(b, '{');
    HeadIndex(a, t, b);
    BlanksThrice(|a|, |t|, k + 1, Unwrap(kw, 1, false, b[k + 1..]));
  }

  lemma HeadIndex(a: string, t: string, b: string)
    requires '{' !in a && '{' !in t
    ensures var s, k := a + (t + b), IndexOf(b, '{');
            IndexOf(s, '{') == |a| + |t| + k && (k < |b| ==> s[|a| + |t| + k + 1..] == b[k + 1..])
  {
    IndexBehind(t, b);
    IndexBehind(a, t + b);
    var k := IndexOf(b, '{');
    if k < |b| {
      DropPast(t, b, k + 1);
      DropPast(a, t + b, |t| + k + 1);
    }
  }

  lemma IndexBehind(a: string, b: string)
    requires '{' !in a
    ensures IndexOf(a + b, '{') == |a| + IndexOf(b, '{')
  {
    IndexOfFinds(a, '{');
    IndexOfConcat(a, b, '{');
  }

  lemma DropPast(a: string, b: string, k: nat)
    requires k <= |b|
    ensures (a + b)[|a| + k..] == b[k..]
  {
  }

  lemma BlanksThrice(m: nat, n: nat, k: nat, rest: string)
    ensures Blanks(m + n + k) + rest == Blanks(m) + (Blanks(n) + (Blanks(k) + rest))
  {
    BlanksConcat(m, n);
    BlanksConcat(m + n, k);
    Assoc(Blanks(m), Blanks(n), Blanks(k) + rest);
    Assoc(Blanks(m + n), Blanks(k), rest);
  }

  lemma HeadUnclosed(kw: string, d: nat, sep: bool, a: string, t: string, b: string)
    requires a != [] && AtHead(kw, d, sep, a + (t + b)) && '{' !in a && '{' !in t && IndexOf(b, '{') == |b|
    ensures Unwrap(kw, d, sep, a + (t + b)) == a + (t + b)
  {
    HeadIndex(a, t, b);
  }

  lemma OneMoreInHead(kw: string, d: nat, sep: bool, a: string, w: char, c: char, b: string)
    returns (x: string, y: string)
    requires a != [] && '{' !in a && Separates(w) && Separates(c)
    requires AtHead(kw, d, sep, a + ([w] + ([c] + b))) && AtHead(kw, d, sep, a + ([c] + b))
    ensures OneMoreAt(Unwrap(kw, d, sep, a + ([w] + ([c] + b))), Unwrap(kw, d, sep, a + ([c] + b)), x, y, w, c)
  {
    var k := IndexOf(b, '{');
    Assoc([w], [c], b);
    if k < |b| {
      HeadBlanked(kw, d, sep, a, [w] + [c], b);
      HeadBlanked(kw, d, sep, a, [c], b);
      x, y := Blanks(|a|), Blanks(k + 1) + Unwrap(kw, 1, false, b[k + 1..]);
      assert Blanks(2) == " " + " " && Blanks(1) == " ";
      Assoc(" ", " ", y);
    } else {
      HeadUnclosed(kw, d, sep, a, [w] + [c], b);
      HeadUnclosed(kw, d, sep, a, [c], b);
      x, y := a, b;
    }
  }

  lemma UnwrapPastHead(kw: string, d: nat, sep: bool, a: string, t: string)
    requires AtHead(kw, d, sep, a + t) && IndexOf(a, '{') < |a|
    ensures var j := IndexOf(a, '{'); Unwrap(kw, d, sep, a + t) == Blanks(j + 1) + Unwrap(kw, 1, false, a[j + 1..] + t)
  {
    IndexOfConcat(a, t, '{');
    DropConcat(a, t, IndexOf(a, '{') + 1);
  }

  /** One more blank before a blank is one more blank before a blank afterwards. */
  lemma {:induction false} UnwrapOneMore(kw: string, d: nat, sep: bool, a: string, w: char, c: char, b: string)
    returns (x: string, y: string)
    requires IsKeyword(kw) && Separates(w) && Separates(c)
    ensures OneMoreAt(Unwrap(kw, d, sep, a + ([w] + ([c] + b))), Unwrap(kw, d, sep, a + ([c] + b)), x, y, w, c)
    decreases |a|
  {
    var t, u := [w] + ([c] + b), [c] + b;
    if a == [] {
      assert a + t == t && a + u == u;
      BlankCopied(kw, d, sep, w, u);
      BlankCopied(kw, d, d == 0, c, b);
      BlankCopied(kw, d, sep, c, b);
      x, y := "", Unwrap(kw, d, d == 0, b);
      assert "" + ([w] + ([c] + y)) == [w] + ([c] + y) && "" + ([c] + y) == [c] + y;
    } else {
      KeywordBeforeBlank(kw, a, w, u, c, b);
      var j := IndexOf(a, '{');
      if !AtHead(kw, d, sep, a + t) {
        x, y := UnwrapOneMore(kw, NextDepth(d, a[0]), NextSep(d, a[0]), a[1..], w, c, b);
        PlainStep(kw, d, sep, a, t);
        PlainStep(kw, d, sep, a, u);
        x := OneMoreAfter([Copied(d, a[0])], Unwrap(kw, NextDepth(d, a[0]), NextSep(d, a[0]), a[1..] + t),
                          Unwrap(kw, NextDepth(d, a[0]), NextSep(d, a[0]), a[1..] + u), x, y, w, c);
      } else if j < |a| {
        x, y := UnwrapOneMore(kw, 1, false, a[j + 1..], w, c, b);
        UnwrapPastHead(kw, d, sep, a, t);
        UnwrapPastHead(kw, d, sep, a, u);
        x := OneMoreAfter(Blanks(j + 1), Unwrap(kw, 1, false, a[j + 1..] + t), Unwrap(kw, 1, false, a[j + 1..] + u),
                          x, y, w, c);
      } else {
        IndexOfFinds(a, '{');
        assert a[..j] == a;
        x, y := OneMoreInHead(kw, d, sep, a, w, c, b);
      }
    }
  }

  lemma KeywordBeforeBlank(kw: string, a: string, w: char, t: string, c: char, u: string)
    requires IsKeyword(kw) && Separates(w) && Separates(c)
    ensures StartsWith(a + ([w] + t), kw) <==> StartsWith(a + ([c] + u), kw)
  {
    var s, r, n := a + ([w] + t), a + ([c] + u), |kw|;
    if |a| >= n {
      assert s[0..n] == a[0..n] == r[0..n];
    } else {
      if |s| >= n { assert s[0..n][|a|] == w; }
      if |r| >= n { assert r[0..n][|a|] == c; }
    }
  }
}
