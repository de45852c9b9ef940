/** Slicing facts used across the model. */
module Sequences {

  lemma JoinSlices<T>(s: seq<T>, a: nat, b: nat, c: nat)
    requires a <= b <= c <= |s|
    ensures s[a..b] + s[b..c] == s[a..c]
  {
  }

  lemma PrefixJoin<T>(a: seq<T>, b: seq<T>, s: seq<T>)
    requires a <= s && b <= s[|a|..]
    ensures a + b <= s
  {
    assert s == a + s[|a|..];
  }

  lemma EmptyLeft<T>(s: seq<T>)
    ensures [] + s == s
  {
  }

  lemma EmptyRight<T>(s: seq<T>)
    ensures s + [] == s
  {
  }

  lemma ConcatAssoc<T>(x: seq<T>, y: seq<T>, z: seq<T>)
    ensures (x + y) + z == x + (y + z)
  {
  }

  lemma SubSlice<T>(s: seq<T>, base: nat, n: nat, a: nat, k: nat)
    requires base + n <= |s| && a + k <= n
    ensures s[base..base + n][a..a + k] == s[base + a..base + a + k]
  {
    var t := s[base..base + n];
    var x, y := t[a..a + k], s[base + a..base + a + k];
    forall i | 0 <= i < k ensures x[i] == y[i] {
      assert t[a + i] == s[base + (a + i)];
    }
  }
}
