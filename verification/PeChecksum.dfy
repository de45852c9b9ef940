/**
 The PE image checksum (src/file/pe.rs, `checksum_of`): the file as little-endian 16-bit words,
 summed with the carry folded back after every word, the checksum field's two words skipped, plus
 the file length.
 */
module PeChecksum {
  import opened Bytes

  /** The loop compares even offsets only, so a field at an odd offset is never skipped. */
  predicate Skipped(field: nat, i: nat) {
    i == field || i == field + 2
  }

  /** The plain, unfolded sum of the words from offset i on; a last odd byte counts as a word. */
  function WordSum(bytes: seq<byte>, field: nat, i: nat): (n: nat)
    decreases |bytes| - i
  {
    if i + 1 < |bytes| then
      (if Skipped(field, i) then 0 else bytes[i] as int + 0x100 * (bytes[i + 1] as int)) + WordSum(bytes, field, i + 2)
    else if i < |bytes| then bytes[i]
    else 0
  }

  /** Two words and a last odd byte: low byte first, and the words of the field left out. */
  lemma FiveBytes(bytes: seq<byte>, field: nat)
    requires |bytes| == 5
    ensures var first, second := bytes[0] as int + 0x100 * bytes[1] as int, bytes[2] as int + 0x100 * bytes[3] as int;
            WordSum(bytes, field, 0)
            == (if field == 0 then 0 else first) + (if field == 0 || field == 2 then 0 else second) + bytes[4] as int
  {
    assert WordSum(bytes, field, 4) == bytes[4];
  }

  /**
   The end-around-carry representative of n: 0 for 0, else the number in 1..0xFFFF congruent to n
   modulo 0xFFFF, by repeated subtraction.
   */
  function Canon(n: nat): (c: nat)
    ensures c <= 0xFFFF
    ensures c == 0 <==> n == 0
  {
    if n <= 0xFFFF then n else Canon(n - 0xFFFF)
  }

  lemma {:induction false} CanonIsRemainder(n: nat)
    requires n > 0
    ensures Canon(n) == (n - 1) % 0xFFFF + 1
  {
    if n > 0xFFFF {
      CanonIsRemainder(n - 0xFFFF);
    }
  }

  /** What the checksum means: one congruence class and the length, in 32 bits. */
  function Checksum(bytes: seq<byte>, field: nat): (c: u32)
  {
    Wrap32(Canon(WordSum(bytes, field, 0)) + |bytes|)
  }

  /** `(sum & 0xFFFF) + (sum >> 16)` */
  function Fold(sum: nat): (s: nat)
  {
    sum % 0x1_0000 + sum / 0x1_0000
  }

  /** One addition and fold tracks the plain sum, and the result is again at most 0xFFFF. */
  lemma {:induction false} FoldTracksSum(total: nat, word: u16)
    ensures Fold(Canon(total) + word) == Canon(total + word)
  {
    if total > 0xFFFF {
      FoldTracksSum(total - 0xFFFF, word);
    } else {
      var t := total + word;
      assert Fold(t) == if t <= 0xFFFF then t else t - 0xFFFF;
    }
  }

  /** `sum += word; sum = (sum & 0xFFFF) + (sum >> 16)` */
  function AddWord(sum: nat, word: u16, ghost total: nat): (s: nat)
    requires sum == Canon(total)
    ensures s == Canon(total + word)
  {
    FoldTracksSum(total, word);
    Fold(sum + word)
  }

  /**
   `checksum_of`. The running sum never passes 0xFFFF after a fold; the final `u32` addition wraps
   only for files within 0xFFFF of a multiple of 4 GiB, and the result is the closed form above.
   */
  method ChecksumOf(bytes: seq<byte>, checksumFieldOffset: nat) returns (c: u32)
    ensures c == Checksum(bytes, checksumFieldOffset)
    ensures |bytes| + 0xFFFF < 0x1_0000_0000 ==> |bytes| <= c <= |bytes| + 0xFFFF
  {
    var sum: nat := 0;
    var i := 0;
    ghost var total: nat := 0;
    while i + 1 < |bytes|
      invariant 0 <= i <= |bytes|
      invariant total + WordSum(bytes, checksumFieldOffset, i) == WordSum(bytes, checksumFieldOffset, 0)
      invariant sum == Canon(total) <= 0xFFFF
    {
      if i == checksumFieldOffset || i == checksumFieldOffset + 2 {
        i := i + 2;
        continue;
      }
      var word := bytes[i] as int + 0x100 * (bytes[i + 1] as int);
      sum := AddWord(sum, word, total);
      total := total + word;
      i := i + 2;
    }
    if i < |bytes| {
      sum := AddWord(sum, bytes[i], total);
      total := total + bytes[i];
    }
    c := AddLength(sum, |bytes|);
  }

  /** `sum + bytes.len() as u32` */
  function AddLength(sum: nat, len: nat): (c: u32)
    requires sum <= 0xFFFF
    ensures c == Wrap32(sum + len)
  {
    WrapAbsorbs(sum, len);
    Wrap32(sum + Wrap32(len))
  }

  lemma {:induction false} WrapAbsorbs(a: nat, b: nat)
    ensures Wrap32(a + Wrap32(b)) == Wrap32(a + b)
  {
    if b >= 0x1_0000_0000 {
      WrapAbsorbs(a, b - 0x1_0000_0000);
    }
  }

  // ----- the field does not count -----

  predicate AgreeOutside(a: seq<byte>, b: seq<byte>, field: nat) {
    |a| == |b| && forall i :: 0 <= i < |a| && !(field <= i < field + 4) ==> a[i] == b[i]
  }

  lemma {:induction false} EvenFieldIgnored(a: seq<byte>, b: seq<byte>, field: nat, i: nat)
    requires AgreeOutside(a, b, field) && field + 4 <= |a| && field % 2 == 0 && i % 2 == 0
    ensures WordSum(a, field, i) == WordSum(b, field, i)
    decreases |a| - i
  {
    if i + 1 < |a| {
      EvenFieldIgnored(a, b, field, i + 2);
    }
  }

  // ----- every other byte counts -----

  /** What changing byte p by d adds to the word sum: a low byte counts once, a high byte 256 times. */
  function Weight(field: nat, p: nat): (w: nat)
    ensures w <= 0x100
  {
    if Skipped(field, p - p % 2) then 0 else if p % 2 == 0 then 1 else 0x100
  }

  lemma {:induction false} ByteChangeShiftsSum(bytes: seq<byte>, field: nat, p: nat, x: byte, i: nat)
    requires i <= p < |bytes| && i % 2 == 0
    requires p == |bytes| - 1 && p % 2 == 0 ==> !Skipped(field, p)
    ensures WordSum(bytes[p := x], field, i)
         == WordSum(bytes, field, i) + (x as int - bytes[p] as int) * Weight(field, p)
    decreases p - i
  {
    var changed := bytes[p := x];
    if p >= i + 2 {
      ByteChangeShiftsSum(bytes, field, p, x, i + 2);
    } else {
      SumSeesSuffix(bytes, changed, field, i + 2);
    }
  }

  lemma {:induction false} SumSeesSuffix(a: seq<byte>, b: seq<byte>, field: nat, i: nat)
    requires |a| == |b| && forall k :: i <= k < |a| ==> a[k] == b[k]
    ensures WordSum(a, field, i) == WordSum(b, field, i)
    decreases |a| - i
  {
    if i + 1 < |a| {
      SumSeesSuffix(a, b, field, i + 2);
    }
  }

  /** Two sums that differ by less than 0xFFFF, and differ, have different representatives. */
  lemma {:induction false} CanonSeparates(m: nat, n: nat)
    requires m < n < m + 0xFFFF
    ensures Canon(m) != Canon(n)
  {
    if m > 0xFFFF {
      CanonSeparates(m - 0xFFFF, n - 0xFFFF);
    } else if n > 0xFFFF {
      assert Canon(n) == n - 0xFFFF;
    }
  }

  lemma WeightedDifference(d: int, w: nat)
    requires -0xFF <= d <= 0xFF && d != 0 && (w == 1 || w == 0x100)
    ensures d * w != 0 && -0xFFFF < d * w < 0xFFFF
  {
  }

  /** Changing any one byte whose word is not skipped changes the checksum. */
  lemma ByteChangeDetected(bytes: seq<byte>, field: nat, p: nat, x: byte)
    requires p < |bytes| && x != bytes[p] && Weight(field, p) != 0
    ensures Checksum(bytes[p := x], field) != Checksum(bytes, field)
  {
    ByteChangeShiftsSum(bytes, field, p, x, 0);
    var m, n := WordSum(bytes[p := x], field, 0), WordSum(bytes, field, 0);
    WeightedDifference(x as int - bytes[p] as int, Weight(field, p));
    if m < n {
      CanonSeparates(m, n);
    } else {
      CanonSeparates(n, m);
    }
    if Canon(m) < Canon(n) {
      Wrap32Separates(Canon(m) + |bytes|, Canon(n) + |bytes|);
    } else {
      Wrap32Separates(Canon(n) + |bytes|, Canon(m) + |bytes|);
    }
  }

  /**
   The checksum does not depend on the four bytes of its own field if and only if the field starts
   at an even offset: at an odd one the loop never meets it.
   */
  lemma FieldIgnoredIffEven(bytes: seq<byte>, field: nat)
    requires field + 4 <= |bytes|
    ensures field % 2 == 0 <==>
              forall other :: AgreeOutside(bytes, other, field) ==> Checksum(other, field) == Checksum(bytes, field)
  {
    if field % 2 == 0 {
      forall other | AgreeOutside(bytes, other, field)
        ensures Checksum(other, field) == Checksum(bytes, field)
      {
        EvenFieldIgnored(bytes, other, field, 0);
      }
    } else {
      var x: byte := if bytes[field] == 0 then 1 else 0;
      ByteChangeDetected(bytes, field, field, x);
      assert AgreeOutside(bytes, bytes[field := x], field);
    }
  }

  // ----- a field at an odd offset counts -----

  /** What four bytes at an odd offset add to the sum: they are high, low, high and low bytes of words. */
  function OddFieldSum(four: seq<byte>): (n: nat)
    requires |four| == 4
  {
    0x100 * (four[0] as int) + four[1] as int + 0x100 * (four[2] as int) + four[3] as int
  }

  lemma ByteAtOdd(bytes: seq<byte>, field: nat, p: nat, x: byte)
    requires field % 2 == 1 && p < |bytes|
    ensures WordSum(bytes[p := x], field, 0)
         == WordSum(bytes, field, 0) + (x as int - bytes[p] as int) * if p % 2 == 0 then 1 else 0x100
  {
    ByteChangeShiftsSum(bytes, field, p, x, 0);
  }

  lemma TwoBytesAtOdd(bytes: seq<byte>, field: nat, p: nat, x: byte, y: byte)
    requires field % 2 == 1 && p % 2 == 1 && p + 1 < |bytes|
    ensures WordSum(bytes[p := x][p + 1 := y], field, 0) + (0x100 * (bytes[p] as int) + bytes[p + 1] as int)
         == WordSum(bytes, field, 0) + (0x100 * (x as int) + y as int)
  {
    ByteAtOdd(bytes, field, p, x);
    ByteAtOdd(bytes[p := x], field, p + 1, y);
  }

  lemma Replaced(bytes: seq<byte>, field: nat, four: seq<byte>)
    requires field + 4 <= |bytes| && |four| == 4
    ensures bytes[..field] + four + bytes[field + 4..]
         == bytes[field := four[0]][field + 1 := four[1]][field + 2 := four[2]][field + 3 := four[3]]
  {
  }

  lemma OddFieldCounts(bytes: seq<byte>, field: nat, four: seq<byte>)
    requires field % 2 == 1 && field + 4 <= |bytes| && |four| == 4
    ensures WordSum(bytes[..field] + four + bytes[field + 4..], field, 0) + OddFieldSum(bytes[field..field + 4])
         == WordSum(bytes, field, 0) + OddFieldSum(four)
  {
    var half := bytes[field := four[0]][field + 1 := four[1]];
    TwoBytesAtOdd(bytes, field, field, four[0], four[1]);
    TwoBytesAtOdd(half, field, field + 2, four[2], four[3]);
    Replaced(bytes, field, four);
  }

  /** Positive sums have one representative exactly if they differ by a multiple of 0xFFFF. */
  lemma {:induction false} SameClassIff(m: nat, n: nat)
    requires 0 < m <= n
    ensures Canon(m) == Canon(n) <==> (n - m) % 0xFFFF == 0
    decreases n - m
  {
    if n < m + 0xFFFF {
      if m < n {
        CanonSeparates(m, n);
      }
    } else {
      assert Canon(n) == Canon(n - 0xFFFF) by {
        assert n > 0xFFFF;
      }
      SameClassIff(m, n - 0xFFFF);
    }
  }
}
