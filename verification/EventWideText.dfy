/**
 A UTF-16 text of a declared size whose out-type is a string type (src/etw/schema.rs, `parse_out_type_override`):
 the bytes before its first zero byte are tried as UTF-8 first, and only where they are none is it read as UTF-16.
 */
module EventWideText {
  import opened Wrappers
  import opened Bytes
  import opened Sequences
  import opened Unicode
  import opened EventText
  import opened EventSchema
  import opened EventRoundTrip
  import opened EventWire

  /** The text in UTF-16, filled up with NULs. */
  function Buffer(text: string, padding: nat): (b: seq<byte>)
  {
    WideBytes(EncodeUtf16(text) + Zeros(padding))
  }

  /** What the bytes before the first zero byte are in UTF-8. */
  function AsUtf8(buffer: seq<byte>): (r: Option<string>)
  {
    DecodeUtf8(buffer[..BeforeNul(buffer)])
  }

  // ----- when the UTF-8 reading is the text -----

  lemma BeforeNulConcat(x: seq<byte>, y: seq<byte>)
    ensures BeforeNul(x + y) <= |x| + BeforeNul(y)
    ensures 0 in x ==> BeforeNul(x + y) < |x|
  {
    var all, m := x + y, |x| + BeforeNul(y);
    if BeforeNul(y) < |y| {
      assert all[m] == y[BeforeNul(y)];
    }
    if k :| 0 <= k < |x| && x[k] == 0 {
      assert all[k] == 0;
    }
  }

  lemma {:induction false} WideBytesConcat(a: seq<u16>, b: seq<u16>)
    ensures WideBytes(a + b) == WideBytes(a) + WideBytes(b)
    decreases |a|
  {
    if a == [] {
      EmptyLeft(b);
      EmptyLeft(WideBytes(b));
    } else {
      WideBytesConcat(a[1..], b);
      assert (a + b)[1..] == a[1..] + b;
      ConcatAssoc(ToLe(a[0], 2), WideBytes(a[1..]), WideBytes(b));
    }
  }

  /** A character's bytes, then those of the others. */
  lemma {:induction false} BufferCons(text: string, padding: nat)
    requires text != ""
    ensures Buffer(text, padding) == WideBytes(Units(text[0])) + Buffer(text[1..], padding)
  {
    ConcatAssoc(Units(text[0]), EncodeUtf16(text[1..]), Zeros(padding));
    WideBytesConcat(Units(text[0]), EncodeUtf16(text[1..]) + Zeros(padding));
  }

  lemma FirstBytes(c: char)
    ensures var x := WideBytes(Units(c));
            && |x| == (if c as int < 0x1_0000 then 2 else 4)
            && x[0] == Units(c)[0] % 0x100 && x[1] == Units(c)[0] / 0x100
  {
    var units := Units(c);
    ToLe2(units[0]);
    assert WideBytes(units) == ToLe(units[0], 2) + WideBytes(units[1..]);
  }

  lemma {:induction false} EmptyBuffer(padding: nat)
    ensures BeforeNul(Buffer("", padding)) == 0
  {
    EmptyLeft(Zeros(padding));
    if padding > 0 {
      ToLe2(0);
      assert WideBytes(Zeros(padding)) == ToLe(0, 2) + WideBytes(Zeros(padding)[1..]);
    }
  }

  lemma CharIsLonger(c: char, rest: seq<byte>, n: nat)
    requires n >= BeforeNul(rest)
    ensures BeforeNul(WideBytes(Units(c)) + rest) <= |Octets(c)| + n
    ensures 0x800 <= c as int < 0x1_0000 ==> BeforeNul(WideBytes(Units(c)) + rest) < |Octets(c)| + n
  {
    var x := WideBytes(Units(c));
    FirstBytes(c);
    BeforeNulConcat(x, rest);
    if c as int < 0x80 {
      assert x[1] == 0;
    }
  }

  /** Before its first zero byte, a text has no more bytes in UTF-16 than it has in UTF-8. */
  lemma {:induction false} Utf8IsLonger(text: string, padding: nat)
    ensures |EncodeUtf8(text)| >= BeforeNul(Buffer(text, padding))
    ensures text != "" && 0x800 <= text[0] as int < 0x1_0000 ==>
              |EncodeUtf8(text)| > BeforeNul(Buffer(text, padding))
    decreases |text|
  {
    if text == "" {
      EmptyBuffer(padding);
    } else {
      Utf8IsLonger(text[1..], padding);
      BufferCons(text, padding);
      CharIsLonger(text[0], Buffer(text[1..], padding), |EncodeUtf8(text[1..])|);
    }
  }

  lemma SecondOctet(c: char)
    requires c as int >= 0x80
    ensures |Octets(c)| >= 2 && Continuation(Octets(c)[1])
  {
    var v := c as int;
    TailContinues(v, Extra(v));
    assert Octets(c)[1] == Tail(v, Extra(v))[0];
  }

  /** The first character of a text that the bytes before the first zero byte are in UTF-8 as well. */
  lemma SameTextIsAscii(text: string, padding: nat)
    requires text != "" && '\0' !in text && AsUtf8(Buffer(text, padding)) == Some(text)
    ensures |text| == 1 && text[0] as int < 0x80
  {
    var c, buffer := text[0], Buffer(text, padding);
    var n, octets := BeforeNul(buffer), EncodeUtf8(text);
    Utf8Iff(buffer[..n], text);
    FirstBytes(c);
    BufferCons(text, padding);
    assert buffer[1] == WideBytes(Units(c))[1];
    if c as int >= 0x80 {
      SecondOctet(c);
      assert octets[1] == Octets(c)[1] && buffer[..n][1] == buffer[1];
      Utf8IsLonger(text, padding);
      assert false;
    }
    OneOctet(text);
  }

  lemma OneOctet(text: string)
    requires text != "" && |EncodeUtf8(text)| <= 1
    ensures |text| == 1
  {
    Utf8NotEmpty(text[1..]);
  }

  lemma OneLetter(c: char)
    requires 0 < c as int < 0x80
    ensures DecodeUtf8([c as int]) == Some([c])
  {
    DecodeEncoded([c]);
    assert Octets(c) == [c as int];
    assert EncodeUtf8([c]) == Octets(c) + EncodeUtf8([c][1..]) == [c as int];
  }

  /** Of a text that starts with an ASCII letter, the bytes before the first zero byte are that letter. */
  lemma AsciiFirst(text: string, padding: nat)
    requires text != "" && 0 < text[0] as int < 0x80
    ensures AsUtf8(Buffer(text, padding)) == Some([text[0]])
  {
    var buffer := Buffer(text, padding);
    BufferCons(text, padding);
    FirstBytes(text[0]);
    assert buffer[0] == text[0] as int && buffer[1] == 0;
    BeforeNulIs(buffer, 1);
    assert buffer[..1] == [text[0] as int];
    OneLetter(text[0]);
  }

  lemma SameTextIff(text: string, padding: nat)
    requires '\0' !in text
    ensures AsUtf8(Buffer(text, padding)) == Some(text) <==> text == "" || (|text| == 1 && text[0] as int < 0x80)
  {
    if text == "" {
      EmptyBuffer(padding);
    } else if |text| == 1 && text[0] as int < 0x80 {
      AsciiFirst(text, padding);
      assert text == [text[0]];
    } else if AsUtf8(Buffer(text, padding)) == Some(text) {
      SameTextIsAscii(text, padding);
    }
  }

  // ----- the property -----

  lemma TriedAsUtf8(buffer: seq<byte>, rest: seq<byte>)
    requires buffer != []
    ensures Utf8Sized(buffer + rest, |buffer|)
         == if AsUtf8(buffer).Some? then Some((AsUtf8(buffer).value, |buffer|)) else None
  {
    var n := BeforeNul(buffer);
    assert (buffer + rest)[..|buffer|] == buffer;
    assert (buffer + rest)[..n] == buffer[..n];
  }

  lemma UntakenOverride(outType: OutType, data: seq<byte>, n: nat)
    requires TextOut(outType) && Utf8Sized(data, n).None?
    ensures OutTypeOverride(outType, n, data).None?
  {
  }

  lemma OverrideReads(prop: PropertyMeta, numerics: seq<Option<nat>>, buffer: seq<byte>, rest: seq<byte>)
    requires TextOut(prop.outType) && ResolveCount(prop, numerics) == 1
    requires buffer != [] && ResolveLength(prop, numerics) == |buffer|
    ensures PropertyValue(prop, numerics, buffer + rest)
         == if AsUtf8(buffer).Some? then Some(Parsed(Text(AsUtf8(buffer).value), |buffer|))
            else InTypeValue(prop.inType, |buffer|, buffer + rest)
  {
    var data, n, utf8 := buffer + rest, |buffer|, AsUtf8(buffer);
    assert utf8.Some? ==> OutTypeOverride(prop.outType, n, data) == Some(Parsed(Text(utf8.value), n)) by {
      TriedAsUtf8(buffer, rest);
      if utf8.Some? {
        SizedOverride(prop.outType, data, n, utf8.value);
      }
    }
    assert utf8.None? ==> OutTypeOverride(prop.outType, n, data).None? by {
      TriedAsUtf8(buffer, rest);
      if utf8.None? {
        UntakenOverride(prop.outType, data, n);
      }
    }
  }

  /**
   For every text without NUL and every padding: the value is the text unless the bytes before the first zero
   byte are well-formed UTF-8, and then what they are in UTF-8. So the text comes back exactly if they are
   not, or it is empty or a single ASCII letter.
   */
  lemma SizedWideAsStringIff(
    prop: PropertyMeta, numerics: seq<Option<nat>>, text: string, padding: nat, rest: seq<byte>)
    requires '\0' !in text && (text != "" || padding > 0)
    requires TextOut(prop.outType) && prop.inType.UnicodeString?
    requires ResolveCount(prop, numerics) == 1 && ResolveLength(prop, numerics) == |Buffer(text, padding)|
    ensures var buffer := Buffer(text, padding);
            PropertyValue(prop, numerics, buffer + rest)
            == Some(Parsed(Text(if AsUtf8(buffer).Some? then AsUtf8(buffer).value else text), |buffer|))
    ensures var buffer := Buffer(text, padding);
            (PropertyValue(prop, numerics, buffer + rest) == Some(Parsed(Text(text), |buffer|)))
            <==> AsUtf8(buffer).None? || text == "" || (|text| == 1 && text[0] as int < 0x80)
  {
    SizedWideRoundTrip(text, padding, rest);
    Utf16NotEmpty(text);
    OverrideReads(prop, numerics, Buffer(text, padding), rest);
    SameTextIff(text, padding);
  }

  /** Of a text that starts with an ASCII letter only that letter is shown. */
  lemma AsciiShowsFirstLetter(
    prop: PropertyMeta, numerics: seq<Option<nat>>, text: string, padding: nat, rest: seq<byte>)
    requires '\0' !in text && text != "" && text[0] as int < 0x80
    requires TextOut(prop.outType) && prop.inType.UnicodeString?
    requires ResolveCount(prop, numerics) == 1 && ResolveLength(prop, numerics) == |Buffer(text, padding)|
    ensures PropertyValue(prop, numerics, Buffer(text, padding) + rest)
         == Some(Parsed(Text([text[0]]), |Buffer(text, padding)|))
  {
    AsciiFirst(text, padding);
    SizedWideAsStringIff(prop, numerics, text, padding, rest);
  }
}
