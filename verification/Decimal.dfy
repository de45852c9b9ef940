/** Decimal and hexadecimal text of numbers, as Rust's `{}` and `{:0wX}` print them. */
module Decimal {

  function DigitChar(d: nat): (c: char)
    requires d < 16
  {
    "0123456789ABCDEF"[d]
  }

  /** `{}`: no leading zeros. */
  function Print(n: nat): (s: string)
    ensures |s| >= 1
  {
    if n < 10 then [DigitChar(n)] else Print(n / 10) + [DigitChar(n % 10)]
  }

  /** The low `width` digits of n in `base`, leading zeros kept. */
  function PrintFixed(n: nat, base: nat, width: nat): (s: string)
    requires 2 <= base <= 16
    ensures |s| == width
  {
    if width == 0 then [] else PrintFixed(n / base, base, width - 1) + [DigitChar(n % base)]
  }

  function DigitValue(c: char): (d: int)
    ensures -1 <= d < 10
    ensures d >= 0 ==> c == DigitChar(d)
  {
    if '0' <= c <= '9' then
      assert c == DigitChar(c as int - '0' as int);
      c as int - '0' as int
    else -1
  }

  /** The number a string of decimal digits denotes; -1 if another character occurs. */
  function Read(s: string): (n: int)
    ensures n >= -1
  {
    if s == [] then 0
    else
      var head := Read(s[..|s| - 1]);
      var last := DigitValue(s[|s| - 1]);
      if head < 0 || last < 0 then -1 else 10 * head + last
  }

  /** Reading a printed number gives it back. */
  lemma {:induction false} ReadPrint(n: nat)
    ensures Read(Print(n)) == n
  {
    if n >= 10 {
      ReadPrint(n / 10);
      var s := Print(n);
      assert s[..|s| - 1] == Print(n / 10);
    } else {
      assert Print(n)[..0] == [];
    }
  }

  lemma PrintInjective(a: nat, b: nat)
    requires Print(a) == Print(b)
    ensures a == b
  {
    ReadPrint(a);
    ReadPrint(b);
  }

  /** A printed number is digits only, and has no leading zero. */
  lemma {:induction false} PrintIsCanonical(n: nat)
    ensures forall i :: 0 <= i < |Print(n)| ==> '0' <= Print(n)[i] <= '9'
    ensures n > 0 || |Print(n)| > 1 ==> Print(n)[0] != '0'
    ensures |Print(n)| > 1 ==> n >= 10
  {
    if n >= 10 {
      PrintIsCanonical(n / 10);
      assert Print(n)[0] == Print(n / 10)[0];
    }
  }

  // ----- hexadecimal -----

  function Pow16(k: nat): (p: nat)
    ensures p >= 1
  {
    if k == 0 then 1 else 16 * Pow16(k - 1)
  }

  predicate UpperHex(c: char) {
    '0' <= c <= '9' || 'A' <= c <= 'F'
  }

  /** The number a string of upper-case hexadecimal digits denotes. */
  function ReadHex(s: string): (n: int)
  {
    if s == [] then 0 else 16 * ReadHex(s[..|s| - 1]) + HexDigit(s[|s| - 1])
  }

  function HexDigit(c: char): (d: int)
  {
    if '0' <= c <= '9' then c as int - 0x30 else c as int - 0x41 + 10
  }

  lemma DigitCharIs(d: nat)
    requires d < 16
    ensures UpperHex(DigitChar(d)) && HexDigit(DigitChar(d)) == d
  {
  }

  lemma ReadHexSnoc(s: string, c: char)
    ensures ReadHex(s + [c]) == 16 * ReadHex(s) + HexDigit(c)
  {
    assert (s + [c])[..|s|] == s;
  }

  /** A number that fits is printed in upper-case digits of which it is the value. */
  lemma {:induction false} PrintFixedIsHex(n: nat, width: nat)
    requires n < Pow16(width)
    ensures forall i :: 0 <= i < width ==> UpperHex(PrintFixed(n, 16, width)[i])
    ensures ReadHex(PrintFixed(n, 16, width)) == n
  {
    if width > 0 {
      PrintFixedIsHex(n / 16, width - 1);
      DigitCharIs(n % 16);
      ReadHexSnoc(PrintFixed(n / 16, 16, width - 1), DigitChar(n % 16));
    }
  }
}
