/**
 Little-endian integers over byte sequences: what `to_le_bytes`, `from_le_bytes` and the
 bounds-checked `u16_at`/`u32_at`/`u64_at` readers compute.
 */
module Bytes {
  import opened Wrappers

  type byte = b: int | 0 <= b < 0x100
  type u16 = n: int | 0 <= n < 0x1_0000
  type u32 = n: int | 0 <= n < 0x1_0000_0000
  type u64 = n: int | 0 <= n < 0x1_0000_0000_0000_0000
  type i64 = n: int | -0x8000_0000_0000_0000 <= n < 0x8000_0000_0000_0000

  function Min(a: nat, b: nat): (m: nat)
  {
    if a <= b then a else b
  }

  /** `as u32`: n modulo 2^32, by repeated subtraction. */
  function Wrap32(n: nat): (r: u32)
    ensures n < 0x1_0000_0000 ==> r == n
  {
    if n < 0x1_0000_0000 then n else Wrap32(n - 0x1_0000_0000)
  }

  /** `n & 0xFFFF` */
  function Low16(n: nat): (r: u16)
    ensures n < 0x1_0000 ==> r == n
  {
    if n < 0x1_0000 then n else Low16(n - 0x1_0000)
  }

  lemma {:induction false} Wrap32IsRemainder(n: nat)
    ensures Wrap32(n) == n % 0x1_0000_0000
  {
    if n >= 0x1_0000_0000 {
      Wrap32IsRemainder(n - 0x1_0000_0000);
    }
  }

  lemma {:induction false} Low16IsRemainder(n: nat)
    ensures Low16(n) == n % 0x1_0000
  {
    if n >= 0x1_0000 {
      Low16IsRemainder(n - 0x1_0000);
    }
  }

  lemma {:induction false} Low16Multiple(n: nat, k: nat)
    ensures Low16(n + 0x1_0000 * k) == Low16(n)
  {
    if k > 0 {
      Low16Multiple(n, k - 1);
    }
  }

  /** Two numbers less than 2^32 apart wrap to the same number only if they are equal. */
  lemma {:induction false} Wrap32Separates(m: nat, n: nat)
    requires m < n < m + 0x1_0000_0000
    ensures Wrap32(m) != Wrap32(n)
  {
    if m >= 0x1_0000_0000 {
      Wrap32Separates(m - 0x1_0000_0000, n - 0x1_0000_0000);
    }
  }

  /** 256 to the power k. */
  ghost function Pow256(k: nat): (p: nat)
    ensures p >= 1
  {
    if k == 0 then 1 else 0x100 * Pow256(k - 1)
  }

  lemma Pow256Sizes()
    ensures Pow256(1) == 0x100
    ensures Pow256(2) == 0x1_0000
    ensures Pow256(4) == 0x1_0000_0000
    ensures Pow256(8) == 0x1_0000_0000_0000_0000
  {
    assert Pow256(2) == 0x100 * Pow256(1);
    assert Pow256(3) == 0x100 * Pow256(2);
    assert Pow256(4) == 0x100 * Pow256(3);
    assert Pow256(5) == 0x100 * Pow256(4);
    assert Pow256(6) == 0x100 * Pow256(5);
    assert Pow256(7) == 0x100 * Pow256(6);
    assert Pow256(8) == 0x100 * Pow256(7);
  }

  /** The number a byte sequence denotes, least significant byte first. */
  function LeNat(s: seq<byte>): (n: nat)
  {
    if s == [] then 0 else s[0] + 0x100 * LeNat(s[1..])
  }

  /** The k low-order bytes of n, least significant first. */
  function ToLe(n: nat, k: nat): (s: seq<byte>)
    ensures |s| == k
  {
    if k == 0 then [] else [n % 0x100] + ToLe(n / 0x100, k - 1)
  }

  lemma {:induction false} LeNatBound(s: seq<byte>)
    ensures LeNat(s) < Pow256(|s|)
  {
    if s != [] {
      LeNatBound(s[1..]);
    }
  }

  /** Decoding inverts encoding for every number that fits. */
  lemma {:induction false} LeNatOfToLe(n: nat, k: nat)
    requires n < Pow256(k)
    ensures LeNat(ToLe(n, k)) == n
  {
    if k > 0 {
      var t := ToLe(n / 0x100, k - 1);
      LeNatOfToLe(n / 0x100, k - 1);
      assert ToLe(n, k)[1..] == t;
    }
  }

  /** Encoding inverts decoding. */
  lemma {:induction false} ToLeOfLeNat(s: seq<byte>)
    ensures ToLe(LeNat(s), |s|) == s
  {
    if s != [] {
      ToLeOfLeNat(s[1..]);
      assert LeNat(s) % 0x100 == s[0] && LeNat(s) / 0x100 == LeNat(s[1..]);
      assert s == [s[0]] + s[1..];
    }
  }

  /** Least significant byte first. */
  lemma LeNatOfFour(a: byte, b: byte, c: byte, d: byte)
    ensures LeNat([a, b, c, d]) == a as int + 0x100 * (b as int) + 0x1_0000 * (c as int) + 0x100_0000 * (d as int)
  {
    assert [a, b, c, d][1..] == [b, c, d] && [b, c, d][1..] == [c, d] && [c, d][1..] == [d] && [d][1..] == [];
    assert LeNat([d]) == d as int + 0x100 * LeNat([]);
    assert LeNat([c, d]) == c as int + 0x100 * LeNat([d]);
    assert LeNat([b, c, d]) == b as int + 0x100 * LeNat([c, d]);
  }

  /** Small numbers are their byte and zeros. */
  lemma LowBytes(n: nat)
    requires n < 0x100
    ensures ToLe(n, 4) == [n, 0, 0, 0] && ToLe(n, 2) == [n, 0]
  {
    assert ToLe(n, 4) == [n] + ToLe(0, 3);
    assert ToLe(0, 3) == [0] + ToLe(0, 2);
    assert ToLe(0, 2) == [0] + ToLe(0, 1);
    assert ToLe(0, 1) == [0] + ToLe(0, 0);
    assert ToLe(n, 2) == [n] + ToLe(0, 1);
  }

  /** `bytes.get(offset..offset + k)` as a number. */
  function LeAt(bytes: seq<byte>, offset: nat, k: nat): (r: Option<nat>)
    ensures r.Some? <==> offset + k <= |bytes|
    ensures r.Some? ==> r.value < Pow256(k)
  {
    if offset + k <= |bytes| then
      LeNatBound(bytes[offset..offset + k]);
      Some(LeNat(bytes[offset..offset + k]))
    else None
  }

  function U16At(bytes: seq<byte>, offset: nat): (r: Option<nat>)
    ensures r.Some? <==> offset + 2 <= |bytes|
    ensures r.Some? ==> r.value < 0x1_0000
  {
    Pow256Sizes();
    LeAt(bytes, offset, 2)
  }

  function U32At(bytes: seq<byte>, offset: nat): (r: Option<nat>)
    ensures r.Some? <==> offset + 4 <= |bytes|
    ensures r.Some? ==> r.value < 0x1_0000_0000
  {
    Pow256Sizes();
    LeAt(bytes, offset, 4)
  }

  function U64At(bytes: seq<byte>, offset: nat): (r: Option<nat>)
    ensures r.Some? <==> offset + 8 <= |bytes|
    ensures r.Some? ==> r.value < 0x1_0000_0000_0000_0000
  {
    Pow256Sizes();
    LeAt(bytes, offset, 8)
  }

  /** The k bytes at `offset` are the number n, least significant byte first. */
  ghost predicate Holds(bytes: seq<byte>, offset: nat, n: nat, k: nat) {
    offset + k <= |bytes| && n < Pow256(k) && bytes[offset..offset + k] == ToLe(n, k)
  }

  /** A reader reads exactly what the bytes hold. */
  lemma HoldsIff(bytes: seq<byte>, offset: nat, n: nat, k: nat)
    ensures LeAt(bytes, offset, k) == Some(n) <==> Holds(bytes, offset, n, k)
  {
    if offset + k <= |bytes| {
      ToLeOfLeNat(bytes[offset..offset + k]);
      LeNatBound(bytes[offset..offset + k]);
    }
    if Holds(bytes, offset, n, k) {
      LeNatOfToLe(n, k);
    }
  }

  /** A reader sees only the bytes it covers. */
  lemma LeAtAgrees(a: seq<byte>, b: seq<byte>, offset: nat, k: nat)
    requires |a| == |b|
    requires forall i :: offset <= i < offset + k && i < |a| ==> a[i] == b[i]
    ensures LeAt(a, offset, k) == LeAt(b, offset, k)
  {
    if offset + k <= |a| {
      assert a[offset..offset + k] == b[offset..offset + k];
    }
  }

  /** A reader sees every byte it covers. */
  lemma LeAtDiffers(a: seq<byte>, b: seq<byte>, offset: nat, k: nat, p: nat)
    requires |a| == |b| && offset <= p < offset + k <= |a| && a[p] != b[p]
    ensures LeAt(a, offset, k) != LeAt(b, offset, k)
  {
    var x, y := a[offset..offset + k], b[offset..offset + k];
    assert x[p - offset] != y[p - offset];
    ToLeOfLeNat(x);
    ToLeOfLeNat(y);
  }

  /** Reading back what was written at an offset of a longer sequence. */
  lemma LeAtOfPlaced(pre: seq<byte>, n: nat, k: nat, post: seq<byte>)
    requires n < Pow256(k)
    ensures LeAt(pre + ToLe(n, k) + post, |pre|, k) == Some(n)
  {
    var all := pre + ToLe(n, k) + post;
    assert all[|pre|..|pre| + k] == ToLe(n, k);
    LeNatOfToLe(n, k);
  }

  lemma U32OfPlaced(pre: seq<byte>, n: nat, post: seq<byte>)
    requires n < 0x1_0000_0000
    ensures U32At(pre + ToLe(n, 4) + post, |pre|) == Some(n)
  {
    Pow256Sizes();
    LeAtOfPlaced(pre, n, 4, post);
  }

  lemma U64OfPlaced(pre: seq<byte>, n: nat, post: seq<byte>)
    requires n < 0x1_0000_0000_0000_0000
    ensures U64At(pre + ToLe(n, 8) + post, |pre|) == Some(n)
  {
    Pow256Sizes();
    LeAtOfPlaced(pre, n, 8, post);
  }

  /** Two's complement: the signed number of the same bits, in a type of `modulus` values. */
  function TwosComplement(n: nat, modulus: nat): (i: int)
    ensures i == n || i == n - modulus
  {
    if 2 * n < modulus then n else n - modulus
  }

  /** Two's complement: `u64 as i64`. */
  function AsSigned64(n: u64): (r: i64)
    ensures r == n || r == n - 0x1_0000_0000_0000_0000
  {
    TwosComplement(n, 0x1_0000_0000_0000_0000)
  }

  /** Two's complement: `i64 as u64`. */
  function AsUnsigned64(n: i64): (r: u64)
    ensures AsSigned64(r) == n
  {
    if n >= 0 then n else n + 0x1_0000_0000_0000_0000
  }
}
