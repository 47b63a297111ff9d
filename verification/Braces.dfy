/** Net brace depth of a text. */
module Braces {
  import opened Text

  function Weight(c: char): int {
    if c == '{' then 1 else if c == '}' then -1 else 0
  }

  /** Opening minus closing braces. */
  function Net(s: string): int {
    if s == [] then 0 else Weight(s[0]) + Net(s[1..])
  }

  /** Starting at depth `b`, the depth never drops below zero while reading `s`. */
  predicate Stays(b: int, s: string)
    decreases s
  {
    b >= 0 && (s == [] || Stays(b + Weight(s[0]), s[1..]))
  }

  predicate Balanced(s: string) {
    Stays(0, s) && Net(s) == 0
  }

  predicate Braceless(s: string) {
    '{' !in s && '}' !in s
  }

  lemma {:induction false} NetConcat(a: string, b: string)
    ensures Net(a + b) == Net(a) + Net(b)
  {
    if a == [] {
      assert a + b == b;
    } else {
      DropConcat(a, b, 1);
      NetConcat(a[1..], b);
    }
  }

  lemma {:induction false} NetBraceless(s: string)
    requires Braceless(s)
    ensures Net(s) == 0
  {
    if s != [] { NetBraceless(s[1..]); }
  }

  lemma {:induction false} StaysConcat(b: int, x: string, y: string)
    ensures Stays(b, x + y) <==> Stays(b, x) && Stays(b + Net(x), y)
    decreases x
  {
    if x == [] {
      assert x + y == y;
    } else {
      DropConcat(x, y, 1);
      StaysConcat(b + Weight(x[0]), x[1..], y);
    }
  }

  lemma {:induction false} StaysBraceless(b: int, s: string)
    requires Braceless(s) && b >= 0
    ensures Stays(b, s)
  {
    if s != [] { StaysBraceless(b, s[1..]); }
  }
}
