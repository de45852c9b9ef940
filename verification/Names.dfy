/** Rust's order on strings: lexicographic by code point, which UTF-8 preserves. */
module Names {
  import opened Lexicographic

  function Codes(s: string): (codes: seq<int>)
    ensures |codes| == |s| && forall i :: 0 <= i < |s| ==> codes[i] == s[i] as int
  {
    seq(|s|, i requires 0 <= i < |s| => s[i] as int)
  }

  predicate Less(a: string, b: string) {
    Below(Codes(a), Codes(b))
  }

  /** At the first place where they differ the smaller has the smaller code point, or has ended. */
  ghost predicate FirstDifference(a: string, b: string, k: nat) {
    && k <= |a| && k < |b| && a[..k] == b[..k]
    && (k == |a| || a[k] < b[k])
  }

  lemma LessIff(a: string, b: string)
    ensures Less(a, b) <==> exists k: nat :: FirstDifference(a, b, k)
  {
    if Less(a, b) {
      var k := Differs(a, b);
      assert FirstDifference(a, b, k);
    }
    if k: nat :| FirstDifference(a, b, k) {
      DiffersIsLess(a, b, k);
    }
  }

  lemma {:induction false} Differs(a: string, b: string) returns (k: nat)
    requires Less(a, b)
    ensures FirstDifference(a, b, k)
    decreases |a|
  {
    if a == [] || a[0] < b[0] {
      k := 0;
    } else {
      CodesTail(a);
      CodesTail(b);
      var m := Differs(a[1..], b[1..]);
      k := m + 1;
      assert a[..k] == [a[0]] + a[1..][..m] && b[..k] == [b[0]] + b[1..][..m];
    }
  }

  lemma CodesTail(s: string)
    requires s != []
    ensures Codes(s)[1..] == Codes(s[1..])
  {
  }

  lemma {:induction false} DiffersIsLess(a: string, b: string, k: nat)
    requires FirstDifference(a, b, k)
    ensures Less(a, b)
    decreases k
  {
    if k > 0 {
      assert a[0] == a[..k][0] == b[..k][0] == b[0];
      assert a[1..][..k - 1] == a[..k][1..] && b[1..][..k - 1] == b[..k][1..];
      CodesTail(a);
      CodesTail(b);
      DiffersIsLess(a[1..], b[1..], k - 1);
    }
  }

  lemma LessIrreflexive(a: string)
    ensures !Less(a, a)
  {
    BelowIrreflexive(Codes(a));
  }

  lemma LessTransitive(a: string, b: string, c: string)
    requires Less(a, b) && Less(b, c)
    ensures Less(a, c)
  {
    BelowTransitive(Codes(a), Codes(b), Codes(c));
  }

  lemma LessTotal(a: string, b: string)
    ensures Less(a, b) || a == b || Less(b, a)
  {
    BelowTotal(Codes(a), Codes(b));
    if Codes(a) == Codes(b) {
      forall i | 0 <= i < |a| ensures a[i] == b[i] {
        assert Codes(a)[i] == Codes(b)[i];
      }
    }
  }
}
