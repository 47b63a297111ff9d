/** Blanks and words: what normalising, trimming and ordering text means. */
module Words {
  import opened Text
  import opened Gate

  // ---- characters ----

  /** The white space of Python's `str`, by code point. */
  const SPACES := {0x9, 0xa, 0xb, 0xc, 0xd, 0x1c, 0x1d, 0x1e, 0x1f, 0x20, 0x85, 0xa0, 0x1680, 0x2000, 0x2001, 0x2002,
                   0x2003, 0x2004, 0x2005, 0x2006, 0x2007, 0x2008, 0x2009, 0x200a, 0x2028, 0x2029, 0x202f, 0x205f,
                   0x3000}

  /** The line boundaries among them. */
  const BREAKS := {0xa, 0xb, 0xc, 0xd, 0x1c, 0x1d, 0x1e, 0x85, 0x2028, 0x2029}

  /** Blanks are these characters and no other. */
  lemma SpacesAre(c: char)
    ensures IsSpace(c) <==> c as int in SPACES
  {
  }

  /** Lines end at these characters and no other. */
  lemma BreaksAre(c: char)
    ensures IsBreak(c) <==> c as int in BREAKS
  {
  }

  // ---- words and blanks ----

  /** Text with no blank in it. */
  predicate IsInk(w: string) {
    w != [] && forall i :: 0 <= i < |w| ==> !IsSpace(w[i])
  }

  /** Words with blanks before, between and behind them. */
  function Laid(ws: seq<string>, gs: seq<string>): string
    requires |gs| == |ws| + 1
  {
    if ws == [] then gs[0] else gs[0] + (ws[0] + Laid(ws[1..], gs[1..]))
  }

  predicate AreLaid(ws: seq<string>, gs: seq<string>) {
    && |gs| == |ws| + 1
    && (forall i :: 0 <= i < |ws| ==> IsInk(ws[i]))
    && (forall i :: 0 <= i < |gs| ==> AllSpace(gs[i]))
    && (forall i :: 0 < i < |ws| ==> gs[i] != [])
  }

  lemma {:induction false} WrittenInk(p: Pen, w: string)
    requires IsInk(w) && !p.Gap?
    ensures Written(p, w) == w && After(p, w) == Ink
    decreases w
  {
    if |w| == 1 {
      assert w[1..] == [];
    } else {
      assert forall i :: 0 <= i < |w[1..]| ==> w[1..][i] == w[i + 1];
      WrittenInk(Ink, w[1..]);
    }
  }

  lemma LaidTail(ws: seq<string>, gs: seq<string>)
    requires AreLaid(ws, gs) && ws != []
    ensures AreLaid(ws[1..], gs[1..]) && (ws[1..] != [] ==> gs[1] != [])
  {
    assert forall i :: 0 <= i < |ws[1..]| ==> ws[1..][i] == ws[i + 1];
    assert forall i :: 0 <= i < |gs[1..]| ==> gs[1..][i] == gs[i + 1];
  }

  lemma GapThenWord(w: string, rest: string)
    requires IsInk(w)
    ensures Written(Gap, w + rest) == " " + (w + Written(Ink, rest))
  {
    WrittenAfterGap(w + rest);
    WrittenConcat(Start, w, rest);
    WrittenInk(Start, w);
  }

  /** Behind a word, each further word is written with one space before it. */
  lemma {:induction false} LaidAfterInk(ws: seq<string>, gs: seq<string>)
    requires AreLaid(ws, gs) && (ws != [] ==> gs[0] != [])
    ensures Written(Ink, Laid(ws, gs)) == if ws == [] then "" else " " + Join(ws, " ")
    decreases ws
  {
    if ws == [] {
      WrittenBlank(Ink, gs[0]);
    } else {
      var rest := Laid(ws[1..], gs[1..]);
      LaidTail(ws, gs);
      LaidAfterInk(ws[1..], gs[1..]);
      WrittenConcat(Ink, gs[0], ws[0] + rest);
      WrittenBlank(Ink, gs[0]);
      GapThenWord(ws[0], rest);
      JoinOfWords(ws);
    }
  }

  lemma JoinOfWords(ws: seq<string>)
    requires ws != []
    ensures Join(ws, " ") == ws[0] + if |ws| == 1 then "" else " " + Join(ws[1..], " ")
  {
    if |ws| == 1 {
      assert ws[0] + "" == ws[0];
    } else {
      Assoc(ws[0], " ", Join(ws[1..], " "));
    }
  }

  /** The same by code points: words hold no blank of Python's, gaps nothing else. */
  predicate AreLaidOut(ws: seq<string>, gs: seq<string>) {
    && |gs| == |ws| + 1
    && (forall i :: 0 <= i < |ws| ==> ws[i] != [] && HoldsNone(ws[i]))
    && (forall i :: 0 <= i < |gs| ==> HoldsOnly(gs[i]))
    && (forall i :: 0 < i < |ws| ==> gs[i] != [])
  }

  predicate HoldsNone(w: string) {
    forall i :: 0 <= i < |w| ==> w[i] as int !in SPACES
  }

  predicate HoldsOnly(g: string) {
    forall i :: 0 <= i < |g| ==> g[i] as int in SPACES
  }

  lemma ByCodePoints(w: string)
    ensures HoldsNone(w) && w != [] ==> IsInk(w)
    ensures HoldsOnly(w) ==> AllSpace(w)
  {
    forall i | 0 <= i < |w| ensures IsSpace(w[i]) <==> w[i] as int in SPACES { SpacesAre(w[i]); }
  }

  lemma LaidOutIsLaid(ws: seq<string>, gs: seq<string>)
    requires AreLaidOut(ws, gs)
    ensures AreLaid(ws, gs)
  {
    forall i | 0 <= i < |ws| ensures IsInk(ws[i]) { ByCodePoints(ws[i]); }
    forall i | 0 <= i < |gs| ensures AllSpace(gs[i]) { ByCodePoints(gs[i]); }
  }

  /** Normalising puts exactly one space between the words and none around them. */
  lemma NormaliseWords(ws: seq<string>, gs: seq<string>)
    requires AreLaidOut(ws, gs)
    ensures Normalise(Laid(ws, gs)) == Join(ws, " ")
  {
    LaidOutIsLaid(ws, gs);
    NormaliseIsWritten(Laid(ws, gs));
    if ws == [] {
      WrittenBlank(Start, gs[0]);
    } else {
      var rest := Laid(ws[1..], gs[1..]);
      LaidTail(ws, gs);
      LaidAfterInk(ws[1..], gs[1..]);
      WrittenConcat(Start, gs[0], ws[0] + rest);
      WrittenBlank(Start, gs[0]);
      WrittenConcat(Start, ws[0], rest);
      WrittenInk(Start, ws[0]);
      JoinOfWords(ws);
    }
  }

  // ---- the order of the reports ----

  /** `a` is a proper beginning of `b`, or has the smaller character where they first differ. */
  predicate Precedes(a: string, b: string, i: int) {
    0 <= i <= |a| && i < |b| && a[..i] == b[..i] && (i == |a| || a[i] < b[i])
  }

  lemma PrecedesCons(a: string, b: string, i: nat)
    requires a != [] && b != [] && a[0] == b[0] && Precedes(a[1..], b[1..], i)
    ensures Precedes(a, b, i + 1)
  {
    assert a[..i + 1] == [a[0]] + a[1..][..i] && b[..i + 1] == [b[0]] + b[1..][..i];
  }

  lemma PrecedesTail(a: string, b: string, i: nat)
    requires Precedes(a, b, i) && i > 0
    ensures a[0] == b[0] && Precedes(a[1..], b[1..], i - 1)
  {
    assert a[0] == a[..i][0] && b[0] == b[..i][0];
    assert a[..i][1..] == a[1..][..i - 1] && b[..i][1..] == b[1..][..i - 1];
  }

  /** Names are reported in the order of their characters. */
  lemma {:induction false} BeforeIff(a: string, b: string)
    ensures Before(a, b) <==> exists i :: Precedes(a, b, i)
    decreases |a|
  {
    if Before(a, b) {
      if a == [] || a[0] < b[0] {
        assert Precedes(a, b, 0);
      } else {
        BeforeIff(a[1..], b[1..]);
        var i :| Precedes(a[1..], b[1..], i);
        PrecedesCons(a, b, i);
      }
    }
    if i :| Precedes(a, b, i) {
      if i > 0 {
        PrecedesTail(a, b, i);
        BeforeIff(a[1..], b[1..]);
      }
    }
  }
}
