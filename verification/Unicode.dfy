/**
 UTF-16 and UTF-8 over Dafny's `char`, which like Rust's is a Unicode scalar value: `encode_utf16`,
 `String::from_utf16_lossy` and the strict `String::from_utf8`.
 */
module Unicode {
  import opened Wrappers
  import opened Bytes

  const REPLACEMENT := '\U{FFFD}'

  // ----- UTF-16 -----

  predicate HighSurrogate(u: u16) { 0xD800 <= u < 0xDC00 }

  predicate LowSurrogate(u: u16) { 0xDC00 <= u < 0xE000 }

  predicate Surrogate(u: u16) { 0xD800 <= u < 0xE000 }

  function Units(c: char): (units: seq<u16>)
    ensures |units| == if c as int < 0x1_0000 then 1 else 2
    ensures c as int < 0x1_0000 ==> units == [c as int] && !Surrogate(units[0])
    ensures c as int >= 0x1_0000 ==>
              HighSurrogate(units[0]) && LowSurrogate(units[1]) && Combine(units[0], units[1]) == c
  {
    var v := c as int;
    if v < 0x1_0000 then [v]
    else
      var high, low := 0xD800 + (v - 0x1_0000) / 0x400, 0xDC00 + (v - 0x1_0000) % 0x400;
      [high, low]
  }

  /** The character of a surrogate pair. */
  function Combine(high: u16, low: u16): (c: char)
    requires HighSurrogate(high) && LowSurrogate(low)
  {
    (0x1_0000 + 0x400 * (high - 0xD800) + (low - 0xDC00)) as char
  }

  function EncodeUtf16(s: string): (units: seq<u16>)
  {
    if s == [] then [] else Units(s[0]) + EncodeUtf16(s[1..])
  }

  /** An unpaired surrogate becomes U+FFFD, and decoding goes on with the next unit. */
  function DecodeUtf16Lossy(units: seq<u16>): (s: string)
    decreases |units|
  {
    if units == [] then []
    else if !Surrogate(units[0]) then [units[0] as char] + DecodeUtf16Lossy(units[1..])
    else if HighSurrogate(units[0]) && |units| > 1 && LowSurrogate(units[1]) then
      [Combine(units[0], units[1])] + DecodeUtf16Lossy(units[2..])
    else [REPLACEMENT] + DecodeUtf16Lossy(units[1..])
  }

  /** Every string survives UTF-16. */
  lemma {:induction false} Utf16RoundTrip(s: string)
    ensures DecodeUtf16Lossy(EncodeUtf16(s)) == s
  {
    if s != [] {
      Utf16RoundTrip(s[1..]);
      var head, tail := Units(s[0]), EncodeUtf16(s[1..]);
      assert (head + tail)[|head|..] == tail;
      assert s == [s[0]] + s[1..];
    }
  }

  /** A surrogate without its partner is read as U+FFFD, and reading goes on behind it. */
  lemma LoneSurrogate(u: u16, rest: seq<u16>)
    requires 0xD800 <= u < 0xE000
    requires u < 0xDC00 && rest != [] ==> !(0xDC00 <= rest[0] < 0xE000)
    ensures DecodeUtf16Lossy([u] + rest) == "\U{FFFD}" + DecodeUtf16Lossy(rest)
  {
    assert ([u] + rest)[1..] == rest;
  }

  /** Only a NUL character gives a NUL unit. */
  lemma {:induction false} NulUnitsAreNulChars(s: string)
    ensures 0 in EncodeUtf16(s) <==> '\0' in s
  {
    if s != [] {
      NulUnitsAreNulChars(s[1..]);
      assert s == [s[0]] + s[1..];
    }
  }

  // ----- UTF-8 -----

  /** How many continuation bytes the value needs. */
  function Extra(v: nat): (k: nat)
    ensures k < 4
  {
    if v < 0x80 then 0 else if v < 0x800 then 1 else if v < 0x1_0000 then 2 else 3
  }

  /** What marks the lead byte of a character with k continuation bytes. */
  function LeadMark(k: nat): (m: nat)
    requires k < 4
  {
    if k == 0 then 0 else if k == 1 then 0xC0 else if k == 2 then 0xE0 else 0xF0
  }

  /** The k low-order groups of six bits, as continuation bytes. */
  function Tail(v: nat, k: nat): (b: seq<byte>)
    ensures |b| == k
  {
    if k == 0 then [] else Tail(v / 0x40, k - 1) + [0x80 + v % 0x40]
  }

  /** What is left of the value above them. */
  function Top(v: nat, k: nat): (t: nat)
  {
    if k == 0 then v else Top(v / 0x40, k - 1)
  }

  predicate Continuation(b: byte) { 0x80 <= b < 0xC0 }

  predicate Continuations(b: seq<byte>) {
    forall i :: 0 <= i < |b| ==> Continuation(b[i])
  }

  /** Appending the continuation bytes' groups to the bits of the lead byte. */
  function Join(top: nat, b: seq<byte>): (v: nat)
    requires Continuations(b)
  {
    if b == [] then top else Join(top, b[..|b| - 1]) * 0x40 + (b[|b| - 1] - 0x80)
  }

  lemma {:induction false} JoinOfTail(v: nat, k: nat)
    ensures Continuations(Tail(v, k)) && Join(Top(v, k), Tail(v, k)) == v
  {
    if k > 0 {
      JoinOfTail(v / 0x40, k - 1);
      assert Tail(v, k)[..k - 1] == Tail(v / 0x40, k - 1);
    }
  }

  lemma {:induction false} TailOfJoin(top: nat, b: seq<byte>)
    requires Continuations(b)
    ensures Top(Join(top, b), |b|) == top && Tail(Join(top, b), |b|) == b
  {
    if b != [] {
      var init, last := b[..|b| - 1], b[|b| - 1];
      TailOfJoin(top, init);
      assert Join(top, b) / 0x40 == Join(top, init) && Join(top, b) % 0x40 == last - 0x80;
      assert b == init + [last];
    }
  }

  lemma TopBounds(v: nat)
    requires v < 0x11_0000
    ensures var k := Extra(v);
            Top(v, k) < if k == 0 then 0x80 else if k == 1 then 0x20 else if k == 2 then 0x10 else 8
  {
    var once := v / 0x40;
    var twice := once / 0x40;
    if v >= 0x1_0000 {
      assert Top(v, 3) == Top(once, 2) == Top(twice, 1) == Top(twice / 0x40, 0);
    } else if v >= 0x800 {
      assert Top(v, 2) == Top(once, 1) == Top(twice, 0);
    } else if v >= 0x80 {
      assert Top(v, 1) == Top(once, 0);
    }
  }

  function Octets(c: char): (b: seq<byte>)
    ensures |b| == 1 + Extra(c as int)
  {
    var v := c as int;
    var k := Extra(v);
    TopBounds(v);
    [LeadMark(k) + Top(v, k)] + Tail(v, k)
  }

  /** The one to four bytes of a character, as section 3 of RFC 3629 gives them. */
  lemma OctetsAreUtf8(c: char)
    ensures var v := c as int;
            Octets(c) == if v < 0x80 then [v]
                         else if v < 0x800 then [0xC0 + v / 0x40, 0x80 + v % 0x40]
                         else if v < 0x1_0000 then [0xE0 + v / 0x1000, 0x80 + v / 0x40 % 0x40, 0x80 + v % 0x40]
                         else [0xF0 + v / 0x4_0000, 0x80 + v / 0x1000 % 0x40, 0x80 + v / 0x40 % 0x40, 0x80 + v % 0x40]
  {
    var v := c as int;
    var once := v / 0x40;
    var twice := once / 0x40;
    assert twice == v / 0x1000 && twice / 0x40 == v / 0x4_0000;
    assert Tail(v, 1) == [0x80 + v % 0x40] && Top(v, 1) == once;
    assert Tail(v, 2) == Tail(once, 1) + [0x80 + v % 0x40] && Top(v, 2) == Top(once, 1) == twice;
    assert Top(v, 3) == Top(once, 2) == Top(twice, 1) == Top(twice / 0x40, 0);
    assert Tail(v, 3) == Tail(once, 2) + [0x80 + v % 0x40] && Tail(once, 2) == Tail(twice, 1) + [0x80 + once % 0x40];
  }

  function EncodeUtf8(s: string): (b: seq<byte>)
  {
    if s == [] then [] else Octets(s[0]) + EncodeUtf8(s[1..])
  }

  lemma {:induction false} TailContinues(v: nat, k: nat)
    ensures Continuations(Tail(v, k))
  {
    if k > 0 {
      TailContinues(v / 0x40, k - 1);
    }
  }

  lemma NulOctet(c: char)
    ensures 0 in Octets(c) <==> c == '\0'
  {
    var v := c as int;
    TailContinues(v, Extra(v));
    if c == '\0' {
      assert Octets(c)[0] == 0;
    }
  }

  /** Only a NUL character gives a NUL byte. */
  lemma {:induction false} NulOctetsAreNulChars(s: string)
    ensures 0 in EncodeUtf8(s) <==> '\0' in s
  {
    if s != [] {
      NulOctetsAreNulChars(s[1..]);
      NulOctet(s[0]);
      assert s == [s[0]] + s[1..];
    }
  }

  /** How many continuation bytes a lead byte announces; None for a byte that leads nothing. */
  function Announced(lead: byte): (k: Option<nat>)
    ensures k.Some? ==> k.value < 4 && lead >= LeadMark(k.value)
  {
    if lead < 0x80 then Some(0)
    else if 0xC0 <= lead < 0xE0 then Some(1)
    else if 0xE0 <= lead < 0xF0 then Some(2)
    else if 0xF0 <= lead < 0xF8 then Some(3)
    else None
  }

  predicate IsScalarValue(v: nat) {
    v < 0xD800 || 0xE000 <= v < 0x11_0000
  }

  /** The first character: overlong forms, surrogates and values beyond U+10FFFF are refused. */
  function DecodeOne(b: seq<byte>): (c: Option<char>)
    requires b != []
    ensures c.Some? ==> Announced(b[0]).Some? && |b| >= 1 + Announced(b[0]).value
  {
    var k := Announced(b[0]);
    if k.None? || |b| < 1 + k.value || !Continuations(b[1..1 + k.value]) then None
    else
      var v := Join(b[0] - LeadMark(k.value), b[1..1 + k.value]);
      if IsScalarValue(v) && Extra(v) == k.value then Some(v as char) else None
  }

  /** `String::from_utf8`: the text, or None if the bytes are not well-formed UTF-8. */
  function DecodeUtf8(b: seq<byte>): (s: Option<string>)
    decreases |b|
  {
    if b == [] then Some([])
    else
      var c := DecodeOne(b);
      if c.None? then None
      else
        var rest := DecodeUtf8(b[1 + Announced(b[0]).value..]);
        if rest.None? then None else Some([c.value] + rest.value)
  }

  lemma LeadAnnounces(v: nat)
    requires v < 0x11_0000
    ensures LeadMark(Extra(v)) + Top(v, Extra(v)) < 0x100
    ensures Announced(LeadMark(Extra(v)) + Top(v, Extra(v))) == Some(Extra(v))
  {
    TopBounds(v);
  }

  lemma DecodeOneJoins(b: seq<byte>, v: nat, top: nat, tail: seq<byte>)
    requires b != [] && IsScalarValue(v) && Announced(b[0]) == Some(Extra(v)) && b[0] == LeadMark(Extra(v)) + top
    requires |b| >= 1 + Extra(v) && b[1..1 + Extra(v)] == tail && Continuations(tail) && Join(top, tail) == v
    ensures DecodeOne(b) == Some(v as char)
  {
  }

  lemma DecodeOneOfOctets(c: char, rest: seq<byte>)
    ensures DecodeOne(Octets(c) + rest) == Some(c)
    ensures Announced(Octets(c)[0]) == Some(Extra(c as int))
  {
    var v := c as int;
    var k := Extra(v);
    var b := Octets(c) + rest;
    assert b[0] == LeadMark(k) + Top(v, k) && b[1..1 + k] == Tail(v, k);
    LeadAnnounces(v);
    JoinOfTail(v, k);
    DecodeOneJoins(b, v, Top(v, k), Tail(v, k));
  }

  lemma OctetsAre(c: char, k: nat, lead: byte, tail: seq<byte>)
    requires k == Extra(c as int) && Tail(c as int, k) == tail && lead == LeadMark(k) + Top(c as int, k)
    ensures Octets(c) == [lead] + tail
  {
  }

  /** The value that the first bytes were joined to, taken apart again. */
  lemma JoinedFrom(b: seq<byte>) returns (v: nat)
    requires b != [] && DecodeOne(b).Some?
    ensures IsScalarValue(v) && DecodeOne(b).value == v as char
    ensures var k := Announced(b[0]).value;
            Extra(v) == k && Tail(v, k) == b[1..1 + k] && b[0] == LeadMark(k) + Top(v, k)
  {
    var k := Announced(b[0]).value;
    var top, tail := b[0] - LeadMark(k), b[1..1 + k];
    DecodedIs(b, top, tail);
    v := Join(top, tail);
    TailOfJoin(top, tail);
  }

  lemma DecodedIs(b: seq<byte>, top: nat, tail: seq<byte>)
    requires b != [] && DecodeOne(b).Some?
    requires var k := Announced(b[0]).value; top == b[0] - LeadMark(k) && tail == b[1..1 + k]
    ensures Continuations(tail)
    ensures var v := Join(top, tail); IsScalarValue(v) && Extra(v) == |tail| && DecodeOne(b) == Some(v as char)
  {
  }

  lemma OctetsOfDecodeOne(b: seq<byte>)
    requires b != [] && DecodeOne(b).Some?
    ensures Octets(DecodeOne(b).value) == b[..1 + Announced(b[0]).value]
  {
    var k := Announced(b[0]).value;
    var v := JoinedFrom(b);
    OctetsAre(v as char, k, b[0], b[1..1 + k]);
    assert b[..1 + k] == [b[0]] + b[1..1 + k];
  }

  /** The bytes are the encoding of the string exactly if decoding them gives it. */
  lemma Utf8Iff(b: seq<byte>, s: string)
    ensures DecodeUtf8(b) == Some(s) <==> EncodeUtf8(s) == b
  {
    if DecodeUtf8(b) == Some(s) {
      EncodeDecoded(b);
    }
    if EncodeUtf8(s) == b {
      DecodeEncoded(s);
    }
  }

  lemma {:induction false} DecodeCons(c: char, tail: seq<byte>, s: string)
    requires DecodeUtf8(tail) == Some(s)
    ensures DecodeUtf8(Octets(c) + tail) == Some([c] + s)
  {
    var head := Octets(c);
    DecodeOneOfOctets(c, tail);
    assert (head + tail)[0] == head[0] && (head + tail)[|head|..] == tail;
  }

  lemma {:induction false} DecodeEncoded(s: string)
    ensures DecodeUtf8(EncodeUtf8(s)) == Some(s)
  {
    if s != [] {
      DecodeEncoded(s[1..]);
      DecodeCons(s[0], EncodeUtf8(s[1..]), s[1..]);
      assert s == [s[0]] + s[1..];
    }
  }

  lemma {:induction false} EncodeDecoded(b: seq<byte>)
    requires DecodeUtf8(b).Some?
    ensures EncodeUtf8(DecodeUtf8(b).value) == b
    decreases |b|
  {
    if b != [] {
      var n := 1 + Announced(b[0]).value;
      OctetsOfDecodeOne(b);
      EncodeDecoded(b[n..]);
      var c, rest := DecodeOne(b).value, DecodeUtf8(b[n..]).value;
      assert DecodeUtf8(b).value == [c] + rest;
      assert ([c] + rest)[1..] == rest;
      assert b == b[..n] + b[n..];
    }
  }
}
