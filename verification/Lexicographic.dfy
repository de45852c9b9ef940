/** Lexicographic order on sequences of numbers. */
module Lexicographic {
  import opened Sequences

  predicate Below(a: seq<int>, b: seq<int>)
    decreases |a|
  {
    b != [] && (a == [] || a[0] < b[0] || (a[0] == b[0] && Below(a[1..], b[1..])))
  }

  lemma {:induction false} BelowIrreflexive(a: seq<int>)
    ensures !Below(a, a)
    decreases |a|
  {
    if a != [] {
      BelowIrreflexive(a[1..]);
    }
  }

  lemma {:induction false} BelowTransitive(a: seq<int>, b: seq<int>, c: seq<int>)
    requires Below(a, b) && Below(b, c)
    ensures Below(a, c)
    decreases |a|
  {
    if a != [] && a[0] == b[0] == c[0] {
      BelowTransitive(a[1..], b[1..], c[1..]);
    }
  }

  lemma {:induction false} BelowTotal(a: seq<int>, b: seq<int>)
    ensures Below(a, b) || a == b || Below(b, a)
    decreases |a|
  {
    if a != [] && b != [] && a[0] == b[0] {
      BelowTotal(a[1..], b[1..]);
      if a[1..] == b[1..] {
        assert a == [a[0]] + a[1..] == [b[0]] + b[1..] == b;
      }
    }
  }

  /** Sequences of equal length decide, and where they are equal what follows them does. */
  lemma {:induction false} BelowConcat(p: seq<int>, q: seq<int>, x: seq<int>, y: seq<int>)
    requires |p| == |q|
    ensures Below(p + x, q + y) <==> Below(p, q) || (p == q && Below(x, y))
    decreases |p|
  {
    if p == [] {
      EmptyLeft(x);
      EmptyLeft(y);
    } else {
      BelowConcat(p[1..], q[1..], x, y);
      assert (p + x)[0] == p[0] && (p + x)[1..] == p[1..] + x;
      assert (q + y)[0] == q[0] && (q + y)[1..] == q[1..] + y;
      assert p == [p[0]] + p[1..] && q == [q[0]] + q[1..];
    }
  }

  lemma BelowSingle(x: int, y: int)
    ensures Below([x], [y]) <==> x < y
  {
    assert [x][1..] == [] && [y][1..] == [];
  }
}
