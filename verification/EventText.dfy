/**
 The text parsers of the ETW payload decoder (src/etw/schema.rs): UTF-16 and UTF-8 strings,
 NUL-terminated or of a declared size, and security identifiers.
 */
module EventText {
  import opened Wrappers
  import opened Bytes
  import opened Unicode
  import Decimal

  // ----- UTF-16 -----

  /** The whole little-endian 16-bit units of the data; an odd last byte is left over. */
  function WideUnits(data: seq<byte>): (units: seq<u16>)
  {
    if |data| < 2 then [] else [data[0] as int + 0x100 * (data[1] as int)] + WideUnits(data[2..])
  }

  /** How many units precede the first NUL; all of them if there is none. */
  function BeforeNul(units: seq<int>): (n: nat)
    ensures n <= |units|
    ensures forall i :: 0 <= i < n ==> units[i] != 0
    ensures n < |units| ==> units[n] == 0
  {
    if units == [] || units[0] == 0 then 0 else 1 + BeforeNul(units[1..])
  }

  lemma {:induction false} WideUnitsAt(data: seq<byte>, i: nat)
    ensures |WideUnits(data)| == |data| / 2
    ensures 2 * i + 1 < |data| ==>
              i < |WideUnits(data)| && WideUnits(data)[i] == data[2 * i] as int + 0x100 * (data[2 * i + 1] as int)
    decreases |data|
  {
    if |data| >= 2 {
      WideUnitsAt(data[2..], if i > 0 then i - 1 else 0);
    }
  }

  /** The first NUL is where the units before it are not NUL. */
  lemma {:induction false} BeforeNulIs(units: seq<int>, n: nat)
    requires n <= |units| && (n < |units| ==> units[n] == 0)
    requires forall i :: 0 <= i < n ==> units[i] != 0
    ensures BeforeNul(units) == n
  {
    if n > 0 {
      BeforeNulIs(units[1..], n - 1);
    }
  }

  /** NUL-terminated UTF-16; without a NUL all whole units are taken. */
  function Utf16CStr(data: seq<byte>): (r: Option<(string, nat)>)
    ensures r.Some? <==> |data| >= 2
    ensures r.Some? ==> 2 <= r.value.1 <= |data|
  {
    if |data| < 2 then None
    else
      var units := WideUnits(data);
      var n := BeforeNul(units);
      WideUnitsAt(data, 0);
      Some((DecodeUtf16Lossy(units[..n]), if n < |units| then 2 * (n + 1) else 2 * n))
  }

  /** UTF-16 of a declared byte length, cut at the first NUL; the whole length is consumed. */
  function Utf16Sized(data: seq<byte>, byteLen: nat): (r: Option<(string, nat)>)
    ensures r.Some? ==> 0 < r.value.1 == byteLen <= |data|
  {
    if byteLen == 0 || byteLen > |data| || byteLen % 2 != 0 then None
    else
      var units := WideUnits(data[..byteLen]);
      Some((DecodeUtf16Lossy(units[..BeforeNul(units)]), byteLen))
  }

  /** A loop has gone over these units of the data, none of them NUL. */
  ghost predicate Scanned(data: seq<byte>, units: seq<u16>) {
    units <= WideUnits(data) && |units| <= BeforeNul(WideUnits(data))
  }

  /** The scan goes on, or has found the first NUL. */
  lemma ScanNext(data: seq<byte>, units: seq<u16>)
    requires Scanned(data, units) && 2 * |units| + 1 < |data|
    ensures var unit: u16 := data[2 * |units|] as int + 0x100 * (data[2 * |units| + 1] as int);
            if unit == 0 then |units| < |WideUnits(data)| && BeforeNul(WideUnits(data)) == |units|
            else Scanned(data, units + [unit])
  {
    WideUnitsAt(data, |units|);
    if WideUnits(data)[|units|] != 0 {
      assert units + [WideUnits(data)[|units|]] == WideUnits(data)[..|units| + 1];
    }
  }

  /** The scan is over without a NUL. */
  lemma ScanEnds(data: seq<byte>, units: seq<u16>)
    requires Scanned(data, units) && 2 * |units| + 1 >= |data|
    ensures |WideUnits(data)| == |units| == BeforeNul(WideUnits(data)) && WideUnits(data)[..|units|] == units
  {
    WideUnitsAt(data, 0);
  }

  /** The unit loop of both UTF-16 parsers: the units before the first NUL, and whether there is one. */
  method ScanUnits(data: seq<byte>) returns (units: seq<u16>, ended: bool)
    ensures |units| == BeforeNul(WideUnits(data)) && units == WideUnits(data)[..|units|]
    ensures ended <==> |units| < |WideUnits(data)|
    ensures 2 * |units| <= |data| && (!ended ==> |data| <= 2 * |units| + 1)
  {
    units := [];
    var index := 0;
    while index + 1 < |data|
      invariant index == 2 * |units| <= |data| && Scanned(data, units)
    {
      var unit: u16 := data[index] as int + 0x100 * (data[index + 1] as int);
      ScanNext(data, units);
      if unit == 0 {
        return units, true;
      }
      units := units + [unit];
      index := index + 2;
    }
    ScanEnds(data, units);
    return units, false;
  }

  method ParseUtf16CStr(data: seq<byte>) returns (r: Option<(string, nat)>)
    ensures r == Utf16CStr(data)
  {
    if |data| < 2 {
      return None;
    }
    var units, ended := ScanUnits(data);
    return Some((DecodeUtf16Lossy(units), if ended then 2 * |units| + 2 else 2 * |units|));
  }

  method ParseUtf16Sized(data: seq<byte>, byteLen: nat) returns (r: Option<(string, nat)>)
    ensures r == Utf16Sized(data, byteLen)
  {
    if byteLen == 0 || byteLen > |data| || byteLen % 2 != 0 {
      return None;
    }
    var units, _ := ScanUnits(data[..byteLen]);
    return Some((DecodeUtf16Lossy(units), byteLen));
  }

  // ----- UTF-8 and ASCII -----

  /** `parse_ascii_sized` and `parse_utf8_sized`: strict UTF-8 up to the first NUL of a declared length. */
  function Utf8Sized(data: seq<byte>, byteLen: nat): (r: Option<(string, nat)>)
    ensures r.Some? ==> 0 < r.value.1 == byteLen <= |data|
  {
    if byteLen == 0 || byteLen > |data| then None
    else
      var text := DecodeUtf8(data[..BeforeNul(data[..byteLen])]);
      if text.None? then None else Some((text.value, byteLen))
  }

  /** `parse_ascii_cstr`: strict UTF-8 up to the first NUL, which is consumed too. */
  function Utf8CStr(data: seq<byte>): (r: Option<(string, nat)>)
    ensures r.Some? ==> r.value.1 <= |data| && (data != [] ==> r.value.1 >= 1)
  {
    var end := BeforeNul(data);
    var text := DecodeUtf8(data[..end]);
    if text.None? then None else Some((text.value, if end < |data| then end + 1 else end))
  }

  /** The bytes start with the text's encoding, which ends at a NUL or with them. */
  ghost predicate TextAt(data: seq<byte>, text: string) {
    && '\0' !in text && EncodeUtf8(text) <= data
    && (|EncodeUtf8(text)| == |data| || data[|EncodeUtf8(text)|] == 0)
  }

  lemma TextBeforeNul(data: seq<byte>, text: string)
    ensures DecodeUtf8(data[..BeforeNul(data)]) == Some(text) <==> TextAt(data, text)
  {
    var n, bytes := BeforeNul(data), EncodeUtf8(text);
    Utf8Iff(data[..n], text);
    NulOctetsAreNulChars(text);
    if bytes == data[..n] {
      assert 0 !in bytes;
    }
    if TextAt(data, text) {
      forall i | 0 <= i < |bytes| ensures data[i] != 0 {
        assert data[i] == bytes[i] && bytes[i] in bytes;
      }
      BeforeNulIs(data, |bytes|);
    }
  }

  /** Exactly the text that stands at the start of the data is read, and a NUL behind it is consumed. */
  lemma Utf8CStrIff(data: seq<byte>, text: string, n: nat)
    ensures Utf8CStr(data) == Some((text, n))
            <==> TextAt(data, text) && n == |EncodeUtf8(text)| + if |EncodeUtf8(text)| < |data| then 1 else 0
  {
    TextBeforeNul(data, text);
    Utf8Iff(data[..BeforeNul(data)], text);
  }

  /** Exactly the text at the start of the declared length is read, and the whole length is consumed. */
  lemma Utf8SizedIff(data: seq<byte>, byteLen: nat, text: string, n: nat)
    ensures Utf8Sized(data, byteLen) == Some((text, n))
            <==> 0 < byteLen <= |data| && n == byteLen && TextAt(data[..byteLen], text)
  {
    if 0 < byteLen <= |data| {
      var raw := data[..byteLen];
      TextBeforeNul(raw, text);
      assert raw[..BeforeNul(raw)] == data[..BeforeNul(raw)];
    }
  }

  // ----- security identifiers -----

  /** MS-DTYP section 2.4.2: revision, 48-bit authority, sub-authorities. */
  datatype Sid = Sid(revision: byte, authority: nat, subs: seq<u32>)

  predicate ValidSid(sid: Sid) {
    sid.authority < 0x1_0000_0000_0000 && |sid.subs| < 0x100
  }

  function BigEndian(b: seq<byte>): (n: nat)
  {
    if b == [] then 0 else BigEndian(b[..|b| - 1]) * 0x100 + b[|b| - 1]
  }

  function ToBigEndian(n: nat, k: nat): (b: seq<byte>)
    ensures |b| == k
  {
    if k == 0 then [] else ToBigEndian(n / 0x100, k - 1) + [n % 0x100]
  }

  lemma {:induction false} BigEndianOfTwo(a: byte, b: byte)
    ensures BigEndian([a, b]) == 0x100 * a as int + b as int
  {
    assert [a, b][..1] == [a] && [a][..0] == [];
    assert BigEndian([a]) == 0x100 * BigEndian([]) + a as int;
  }

  /** The six bytes of an authority, the highest first. */
  lemma {:induction false} AuthorityIs(b: seq<byte>)
    requires |b| == 6
    ensures BigEndian(b) == 0x100_0000_0000 * b[0] as int + 0x1_0000_0000 * b[1] as int + 0x100_0000 * b[2] as int
                            + 0x1_0000 * b[3] as int + 0x100 * b[4] as int + b[5] as int
  {
    assert b[..5][..4] == b[..4] && b[..4][..3] == b[..3] && b[..3][..2] == [b[0], b[1]];
    BigEndianOfTwo(b[0], b[1]);
    assert BigEndian(b[..3]) == 0x100 * BigEndian([b[0], b[1]]) + b[2] as int;
    assert BigEndian(b[..4]) == 0x100 * BigEndian(b[..3]) + b[3] as int;
    assert BigEndian(b[..5]) == 0x100 * BigEndian(b[..4]) + b[4] as int;
  }

  lemma {:induction false} BigEndianRoundTrip(n: nat, k: nat)
    requires n < Pow256(k)
    ensures BigEndian(ToBigEndian(n, k)) == n
  {
    if k > 0 {
      BigEndianRoundTrip(n / 0x100, k - 1);
      assert ToBigEndian(n, k)[..k - 1] == ToBigEndian(n / 0x100, k - 1);
    }
  }

  function SubBytes(subs: seq<u32>): (b: seq<byte>)
    ensures |b| == 4 * |subs|
  {
    if subs == [] then [] else ToLe(subs[0], 4) + SubBytes(subs[1..])
  }

  /** The binary form. */
  function EncodeSid(sid: Sid): (b: seq<byte>)
    requires ValidSid(sid)
    ensures |b| == 8 + 4 * |sid.subs|
  {
    [sid.revision, |sid.subs|] + ToBigEndian(sid.authority, 6) + SubBytes(sid.subs)
  }

  /** Each number in decimal with a dash before it. */
  function Dashed(numbers: seq<nat>): (s: string)
  {
    if numbers == [] then "" else Dashed(numbers[..|numbers| - 1]) + "-" + Decimal.Print(numbers[|numbers| - 1])
  }

  /** The string form `S-R-A-S1-S2-...` of MS-DTYP section 2.4.2.1, except that the authority is always in decimal. */
  function SidText(sid: Sid): (s: string)
  {
    "S" + Dashed([sid.revision, sid.authority] + sid.subs)
  }

  /** The whole little-endian 32-bit words of the data. */
  function Words(b: seq<byte>): (subs: seq<u32>)
  {
    if |b| < 4 then [] else
      LeNatBound(b[..4]);
      Pow256Sizes();
      [LeNat(b[..4])] + Words(b[4..])
  }

  /** The SID at the start of the data; None if the data is shorter than the SID it declares. */
  function DecodeSid(data: seq<byte>): (sid: Option<Sid>)
    ensures sid.Some? ==> |data| >= 8 && |sid.value.subs| == data[1] && 8 + 4 * |sid.value.subs| <= |data|
  {
    if |data| < 8 then None
    else
      var count: nat := data[1];
      if |data| < 8 + 4 * count then None
      else
        WordsCount(data[8..8 + 4 * count]);
        Some(Sid(data[0], BigEndian(data[2..8]), Words(data[8..8 + 4 * count])))
  }

  lemma {:induction false} WordsCount(b: seq<byte>)
    ensures |Words(b)| == |b| / 4
    decreases |b|
  {
    if |b| >= 4 {
      WordsCount(b[4..]);
    }
  }

  /** `parse_sid` in closed form. */
  function SidAt(data: seq<byte>): (r: Option<(string, nat)>)
    ensures r.Some? ==> 8 <= r.value.1 <= |data|
  {
    var sid := DecodeSid(data);
    if sid.None? then None else Some((SidText(sid.value), 8 + 4 * |sid.value.subs|))
  }

  lemma {:induction false} WordsOfSubBytes(subs: seq<u32>)
    ensures Words(SubBytes(subs)) == subs
  {
    if subs != [] {
      WordsOfSubBytes(subs[1..]);
      var b := SubBytes(subs);
      assert b[..4] == ToLe(subs[0], 4) && b[4..] == SubBytes(subs[1..]);
      Pow256Sizes();
      LeNatOfToLe(subs[0], 4);
    }
  }

  /** The parts of a SID's binary form, found again in front of whatever follows. */
  lemma SidParts(first: byte, count: byte, authority: seq<byte>, subs: seq<byte>, rest: seq<byte>)
    requires |authority| == 6
    ensures var data := [first, count] + authority + subs + rest;
            && |data| == 8 + |subs| + |rest| && data[0] == first && data[1] == count
            && data[2..8] == authority && data[8..8 + |subs|] == subs
  {
  }

  /** Every SID survives its binary form, whatever follows it. */
  lemma SidRoundTrip(sid: Sid, rest: seq<byte>)
    requires ValidSid(sid)
    ensures DecodeSid(EncodeSid(sid) + rest) == Some(sid)
    ensures SidAt(EncodeSid(sid) + rest) == Some((SidText(sid), |EncodeSid(sid)|))
  {
    var authority, subs := ToBigEndian(sid.authority, 6), SubBytes(sid.subs);
    SidParts(sid.revision, |sid.subs|, authority, subs, rest);
    Pow6();
    BigEndianRoundTrip(sid.authority, 6);
    WordsOfSubBytes(sid.subs);
  }

  /** The text determines the SID. */
  lemma SidTextInjective(a: Sid, b: Sid)
    requires SidText(a) == SidText(b)
    ensures a == b
  {
    var x, y := [a.revision, a.authority] + a.subs, [b.revision, b.authority] + b.subs;
    assert Dashed(x) == SidText(a)[1..] && Dashed(y) == SidText(b)[1..];
    DashedInjective(x, y);
    assert x[2..] == a.subs && y[2..] == b.subs;
    assert x[0] == a.revision && x[1] == a.authority;
  }

  lemma {:induction false} PrintHasNoDash(n: nat)
    ensures '-' !in Decimal.Print(n)
  {
    if n >= 10 {
      PrintHasNoDash(n / 10);
    }
  }

  lemma AroundDash(a: string, b: string, k: nat)
    ensures var s := a + "-" + b;
            && |s| == |a| + 1 + |b| && s[|a|] == '-' && s[..|a|] == a && s[|a| + 1..] == b
            && (|a| < k < |s| ==> s[k] in b)
  {
    var s := a + "-" + b;
    if |a| < k < |s| {
      assert s[k] == b[k - |a| - 1];
    }
  }

  /** A text splits at its last dash in one way. */
  lemma LastDash(a: string, b: string, c: string, d: string)
    requires a + "-" + b == c + "-" + d && '-' !in b && '-' !in d
    ensures a == c && b == d
  {
    AroundDash(a, b, |c|);
    AroundDash(c, d, |a|);
  }

  lemma {:induction false} DashedInjective(x: seq<nat>, y: seq<nat>)
    requires Dashed(x) == Dashed(y)
    ensures x == y
    decreases |x|
  {
    if x != [] && y != [] {
      var m, n := x[|x| - 1], y[|y| - 1];
      PrintHasNoDash(m);
      PrintHasNoDash(n);
      LastDash(Dashed(x[..|x| - 1]), Decimal.Print(m), Dashed(y[..|y| - 1]), Decimal.Print(n));
      Decimal.PrintInjective(m, n);
      DashedInjective(x[..|x| - 1], y[..|y| - 1]);
      assert x == x[..|x| - 1] + [m] && y == y[..|y| - 1] + [n];
    }
  }

  // ----- the standard's text -----

  /** Section 2.4.2.1 of MS-DTYP: an authority of 2^32 or more is written in twelve hexadecimal digits. */
  function StandardAuthority(authority: nat): (s: string)
  {
    if authority < 0x1_0000_0000 then Decimal.Print(authority) else "0x" + Decimal.PrintFixed(authority, 16, 12)
  }

  function StandardText(sid: Sid): (s: string)
  {
    "S-" + Decimal.Print(sid.revision) + "-" + StandardAuthority(sid.authority) + Dashed(sid.subs)
  }

  lemma FourParts(a: string, b: string, c: string, d: string)
    ensures (a + b) + c + d == a + (b + c + d)
  {
  }

  lemma DashedLast(all: seq<nat>, init: seq<nat>, last: nat)
    requires |all| == |init| + 1 && all[..|init|] == init && all[|init|] == last
    ensures Dashed(all) == Dashed(init) + "-" + Decimal.Print(last)
  {
  }

  lemma {:induction false} DashedConcat(x: seq<nat>, y: seq<nat>)
    ensures Dashed(x + y) == Dashed(x) + Dashed(y)
    decreases |y|
  {
    if y == [] {
      assert x + y == x;
    } else {
      var init, last := y[..|y| - 1], y[|y| - 1];
      DashedConcat(x, init);
      DashedLast(x + y, x + init, last);
      FourParts(Dashed(x), Dashed(init), "-", Decimal.Print(last));
    }
  }

  lemma SidTextParts(sid: Sid)
    ensures SidText(sid) == "S-" + Decimal.Print(sid.revision) + "-" + Decimal.Print(sid.authority) + Dashed(sid.subs)
  {
    DashedConcat([sid.revision, sid.authority], sid.subs);
    TwoDashed(sid.revision, sid.authority);
  }

  lemma {:induction false} PrintHasNoX(n: nat)
    ensures 'x' !in Decimal.Print(n)
  {
    if n >= 10 {
      PrintHasNoX(n / 10);
    }
  }

  /** A decimal number of two digits or more does not start like a hexadecimal one. */
  lemma NotHexadecimal(head: string, n: nat, hex: string, tail: string)
    requires n >= 10
    ensures head + Decimal.Print(n) + tail != head + ("0x" + hex) + tail
  {
    var digits := Decimal.Print(n);
    PrintHasNoX(n);
    assert |digits| >= 2 && digits[1] in digits;
    var at := |head| + 1;
    assert (head + digits + tail)[at] == digits[1];
    assert (head + ("0x" + hex) + tail)[at] == 'x';
  }

  /** The text printed is the standard's exactly if the authority is below 2^32. */
  lemma SidTextIsStandardIff(sid: Sid)
    ensures SidText(sid) == StandardText(sid) <==> sid.authority < 0x1_0000_0000
  {
    SidTextParts(sid);
    if sid.authority >= 0x1_0000_0000 {
      NotHexadecimal("S-" + Decimal.Print(sid.revision) + "-", sid.authority,
                     Decimal.PrintFixed(sid.authority, 16, 12), Dashed(sid.subs));
    }
  }

  lemma KnownNumbers()
    ensures Decimal.Print(1) == "1" && Decimal.Print(5) == "5" && Decimal.Print(32) == "32"
    ensures Decimal.Print(544) == "544"
  {
    assert Decimal.Print(3) == "3" && Decimal.Print(32) == Decimal.Print(3) + "2";
    assert Decimal.Print(54) == Decimal.Print(5) + "4" && Decimal.Print(544) == Decimal.Print(54) + "4";
  }

  /** The group of administrators. */
  lemma KnownSid(sid: Sid)
    requires sid == Sid(1, 5, [32, 544])
    ensures SidText(sid) == "S-1-5-32-544"
  {
    SidTextParts(sid);
    KnownNumbers();
    TwoDashed(32, 544);
  }

  lemma {:induction false} ToBigEndianOf(b: seq<byte>)
    ensures ToBigEndian(BigEndian(b), |b|) == b && BigEndian(b) < Pow256(|b|)
    decreases |b|
  {
    if b != [] {
      var init, last := b[..|b| - 1], b[|b| - 1];
      ToBigEndianOf(init);
      assert BigEndian(b) / 0x100 == BigEndian(init) && BigEndian(b) % 0x100 == last;
      assert b == init + [last];
    }
  }

  lemma {:induction false} SubBytesOfWords(b: seq<byte>)
    requires |b| % 4 == 0
    ensures SubBytes(Words(b)) == b
    decreases |b|
  {
    if |b| >= 4 {
      SubBytesOfWords(b[4..]);
      ToLeOfLeNat(b[..4]);
      assert Words(b)[1..] == Words(b[4..]);
      assert b == b[..4] + b[4..];
    }
  }

  /** A SID is read exactly where its binary form stands. */
  lemma DecodeSidIff(data: seq<byte>, sid: Sid)
    ensures DecodeSid(data) == Some(sid) <==> ValidSid(sid) && EncodeSid(sid) <= data
  {
    if DecodeSid(data) == Some(sid) {
      var n := 8 + 4 * |sid.subs|;
      ToBigEndianOf(data[2..8]);
      SubBytesOfWords(data[8..n]);
      Pow6();
      assert data[..n] == [data[0], data[1]] + data[2..8] + data[8..n];
      assert EncodeSid(sid) == data[..n];
    }
    if ValidSid(sid) && EncodeSid(sid) <= data {
      var rest := data[|EncodeSid(sid)|..];
      assert data == EncodeSid(sid) + rest;
      SidRoundTrip(sid, rest);
    }
  }

  /** S-1-4294967296, which the standard writes S-1-0x000100000000. */
  lemma LargeAuthorityDiffers()
    ensures var sid := Sid(1, 0x1_0000_0000, []); ValidSid(sid) && SidText(sid) != StandardText(sid)
  {
    SidTextIsStandardIff(Sid(1, 0x1_0000_0000, []));
  }

  // ----- the loops of `parse_sid` -----

  /** The fold over the six authority bytes. */
  method ReadAuthority(bytes: seq<byte>) returns (authority: nat)
    ensures authority == BigEndian(bytes)
  {
    authority := 0;
    for i := 0 to |bytes|
      invariant authority == BigEndian(bytes[..i])
    {
      assert bytes[..i + 1][..i] == bytes[..i];
      var next: nat := bytes[i];
      authority := authority * 0x100 + next;
    }
    assert bytes[..|bytes|] == bytes;
  }

  /** The text so far, with each sub-authority appended. */
  method WriteSubs(text: string, ghost head: seq<nat>, subs: seq<byte>) returns (r: string)
    requires text == "S" + Dashed(head)
    ensures r == "S" + Dashed(head + Words(subs))
  {
    r := text;
    var rest := subs;
    ghost var done := head;
    while |rest| >= 4
      invariant r == "S" + Dashed(done)
      invariant done + Words(rest) == head + Words(subs)
      decreases |rest|
    {
      var word := LeNat(rest[..4]);
      WordsHead(done, rest);
      DashedSnoc(done, word);
      r := r + "-" + Decimal.Print(word);
      done := done + [word];
      rest := rest[4..];
    }
    assert done + [] == done;
  }

  lemma WordsHead(done: seq<nat>, rest: seq<byte>)
    requires |rest| >= 4
    ensures done + Words(rest) == (done + [LeNat(rest[..4])]) + Words(rest[4..])
  {
  }

  lemma DashedSnoc(done: seq<nat>, word: nat)
    ensures Dashed(done + [word]) == Dashed(done) + "-" + Decimal.Print(word)
  {
    assert (done + [word])[..|done|] == done;
  }

  method ParseSid(data: seq<byte>) returns (r: Option<(string, nat)>)
    ensures r == SidAt(data)
  {
    if |data| < 8 {
      return None;
    }
    var count: nat := data[1];
    var len := 8 + 4 * count;
    if |data| < len {
      return None;
    }
    var authority := ReadAuthority(data[2..8]);
    TwoDashed(data[0], authority);
    var text := WriteSubs("S-" + Decimal.Print(data[0]) + "-" + Decimal.Print(authority), [data[0], authority],
                          data[8..len]);
    return Some((text, len));
  }

  lemma TwoDashed(a: nat, b: nat)
    ensures Dashed([a, b]) == "-" + Decimal.Print(a) + "-" + Decimal.Print(b)
  {
    assert [a, b][..1] == [a] && [a][..0] == [];
    assert Dashed([a]) == "" + "-" + Decimal.Print(a);
  }

  lemma Pow6()
    ensures Pow256(6) == 0x1_0000_0000_0000
  {
    Pow256Sizes();
    assert Pow256(5) == 0x100 * Pow256(4);
    assert Pow256(6) == 0x100 * Pow256(5);
  }
}
