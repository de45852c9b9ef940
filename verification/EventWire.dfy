/**
 What each kind of value looks like on the wire, and that the decoder (src/etw/schema.rs) reads every
 kind back, whatever follows it and whatever was decoded before it.
 */
module EventWire {
  import opened Wrappers
  import opened Bytes
  import opened Sequences
  import opened Unicode
  import opened EventText
  import opened EventSchema
  import opened EventRoundTrip
  import Decimal

  type i32 = n: int | -0x8000_0000 <= n < 0x8000_0000

  /** Numbers told by their in-type. */
  datatype Scalar =
    | ScU8(n8: byte)
    | ScU16(n16: u16)
    | ScU32(n32: u32)
    | ScU64(n64: u64)
    | ScI32(signed32: i32)
    | ScI64(signed64: i64)
    | ScBool(b: bool)
    | ScPointer32(p32: u32)
    | ScPointer64(p64: u64)
    | ScFileTime(ticks: u64)
    | ScHex32(h32: u32)
    | ScHex64(h64: u64)

  /** Values told by their out-type, whatever the in-type. */
  datatype Rendered =
    | RPort(port: u16)
    | RPid(pid: u32)
    | RIpV4(v4: seq<byte>)
    | RIpV6(v6: seq<byte>)
    | RSocketV4(port4: u16, address4: seq<byte>)
    | RSocketV6(header6: seq<byte>, address6: seq<byte>)
    | RStatus(code: u32)
    | RHexByte(b8: byte)
    | RHexWord(b16: u16)
    | RHexLong(b64: u64)
    | RFlag1(narrow: bool)
    | RFlag4(wide: bool)

  datatype Form =
    | Plain(scalar: Scalar)
    | Styled(rendered: Rendered)
    | GuidForm(data1: u32, data2: u16, data3: u16, data4: seq<byte>)
    | SidForm(sid: Sid)
    /** NUL-terminated texts, and texts in a buffer of a given size with NULs behind them. */
    | Ansi(ansi: string)
    | Wide(wide: string)
    | SizedAnsi(ansiText: string, ansiPadding: nat)
    | SizedWide(wideText: string, widePadding: nat)
    | Blob(blob: seq<byte>)
    | Elements(count: nat, elements: seq<byte>)

  predicate RenderedWell(r: Rendered) {
    match r
    case RIpV4(a) => |a| == 4
    case RIpV6(a) => |a| == 16
    case RSocketV4(_, a) => |a| == 4
    case RSocketV6(header, a) => |header| == 6 && |a| == 16
    case _ => true
  }

  predicate WellFormed(f: Form) {
    match f
    case Plain(_) => true
    case Styled(r) => RenderedWell(r)
    case GuidForm(_, _, _, data4) => |data4| == 8
    case SidForm(sid) => ValidSid(sid)
    case Ansi(text) => '\0' !in text
    case Wide(text) => '\0' !in text
    case SizedAnsi(text, padding) => '\0' !in text && (text != "" || padding > 0)
    case SizedWide(text, padding) => '\0' !in text && (text != "" || padding > 0)
    case Blob(bytes) => bytes != []
    case Elements(n, bytes) => n > 1 && bytes != []
  }

  type Wire = f: Form | WellFormed(f) witness Plain(ScU8(0))

  // ----- on the wire -----

  function Unsigned32(i: i32): (n: u32)
    ensures TwosComplement(n, 0x1_0000_0000) == i
  {
    if i >= 0 then i else i + 0x1_0000_0000
  }

  function ScalarBytes(s: Scalar): (b: seq<byte>)
    ensures b != []
  {
    match s
    case ScU8(n) => ToLe(n, 1)
    case ScU16(n) => ToLe(n, 2)
    case ScU32(n) => ToLe(n, 4)
    case ScU64(n) => ToLe(n, 8)
    case ScI32(i) => ToLe(Unsigned32(i), 4)
    case ScI64(i) => ToLe(AsUnsigned64(i), 8)
    case ScBool(b) => ToLe(if b then 1 else 0, 4)
    case ScPointer32(p) => ToLe(p, 4)
    case ScPointer64(p) => ToLe(p, 8)
    case ScFileTime(t) => ToLe(t, 8)
    case ScHex32(n) => ToLe(n, 4)
    case ScHex64(n) => ToLe(n, 8)
  }

  /** Ports are in network byte order; AF_INET is 2, AF_INET6 is 23. */
  function RenderedBytes(r: Rendered): (b: seq<byte>)
    requires RenderedWell(r)
    ensures b != []
  {
    match r
    case RPort(n) => ToBigEndian(n, 2)
    case RPid(n) => ToLe(n, 4)
    case RIpV4(a) => a
    case RIpV6(a) => a
    case RSocketV4(port, a) => ToLe(2, 2) + ToBigEndian(port, 2) + a
    case RSocketV6(header, a) => ToLe(23, 2) + header + a
    case RStatus(n) => ToLe(n, 4)
    case RHexByte(n) => ToLe(n, 1)
    case RHexWord(n) => ToLe(n, 2)
    case RHexLong(n) => ToLe(n, 8)
    case RFlag1(b) => ToLe(if b then 1 else 0, 1)
    case RFlag4(b) => ToLe(if b then 1 else 0, 4)
  }

  function Zeros(n: nat): (z: seq<byte>)
    ensures |z| == n && forall i :: 0 <= i < n ==> z[i] == 0
  {
    seq(n, _ => 0)
  }

  function OnWire(w: Wire): (b: seq<byte>)
    ensures b != []
  {
    match w
    case Plain(s) => ScalarBytes(s)
    case Styled(r) => RenderedBytes(r)
    case GuidForm(d1, d2, d3, d4) => ToLe(d1, 4) + ToLe(d2, 2) + ToLe(d3, 2) + d4
    case SidForm(sid) => EncodeSid(sid)
    case Ansi(text) => EncodeUtf8(text) + [0]
    case Wide(text) => Encode(DataStr(text))
    case SizedAnsi(text, padding) =>
      Utf8NotEmpty(text);
      EncodeUtf8(text) + Zeros(padding)
    case SizedWide(text, padding) =>
      Utf16NotEmpty(text);
      WideBytes(EncodeUtf16(text) + Zeros(padding))
    case Blob(bytes) => bytes
    case Elements(_, bytes) => bytes
  }

  lemma Utf8NotEmpty(text: string)
    ensures EncodeUtf8(text) == [] <==> text == []
  {
  }

  lemma Utf16NotEmpty(text: string)
    ensures EncodeUtf16(text) == [] <==> text == []
  {
  }

  // ----- what the decoder should show -----

  function ScalarShown(s: Scalar): (v: Value)
  {
    match s
    case ScU8(n) => U8(n)
    case ScU16(n) => U16(n)
    case ScU32(n) => U32(n)
    case ScU64(n) => U64(n)
    case ScI32(i) => I32(i)
    case ScI64(i) => I64(i)
    case ScBool(b) => Bool(b)
    case ScPointer32(p) => Pointer(p)
    case ScPointer64(p) => Pointer(p)
    case ScFileTime(t) => U64(t)
    case ScHex32(n) => Text(HexText(n, 8))
    case ScHex64(n) => Text(HexText(n, 16))
  }

  function RenderedShown(r: Rendered): (v: Value)
  {
    match r
    case RPort(n) => U16(n)
    case RPid(n) => U32(n)
    case RIpV4(a) => IpAddr(a)
    case RIpV6(a) => IpAddr(a)
    case RSocketV4(_, a) => IpAddr(a)
    case RSocketV6(_, a) => IpAddr(a)
    case RStatus(n) => Text(HexText(n, 8))
    case RHexByte(n) => Text(HexText(n, 2))
    case RHexWord(n) => Text(HexText(n, 4))
    case RHexLong(n) => Text(HexText(n, 16))
    case RFlag1(b) => Bool(b)
    case RFlag4(b) => Bool(b)
  }

  function Shown(w: Wire): (v: Value)
  {
    match w
    case Plain(s) => ScalarShown(s)
    case Styled(r) => RenderedShown(r)
    case GuidForm(d1, d2, d3, d4) => Guid(d1, d2, d3, d4)
    case SidForm(sid) => Text(SidText(sid))
    case Ansi(text) => Text(text)
    case Wide(text) => Text(text)
    case SizedAnsi(text, _) => Text(text)
    case SizedWide(text, _) => Text(text)
    case Blob(bytes) => Binary(bytes)
    case Elements(_, bytes) => Binary(bytes)
  }

  /** Hexadecimal texts: 0x and the digits, upper case, as many as the type has. */
  ghost predicate IsHexOf(text: string, n: nat, digits: nat) {
    && |text| == digits + 2 && text[0] == '0' && text[1] == 'x'
    && (forall i :: 2 <= i < |text| ==> Decimal.UpperHex(text[i]))
    && Decimal.ReadHex(text[2..]) == n
  }

  lemma HexTextIs(n: nat, digits: nat)
    requires n < Decimal.Pow16(digits)
    ensures IsHexOf(HexText(n, digits), n, digits)
  {
    var text := HexText(n, digits);
    Decimal.PrintFixedIsHex(n, digits);
    assert text[2..] == Decimal.PrintFixed(n, 16, digits);
  }

  lemma Pow16Sizes()
    ensures Decimal.Pow16(2) == 0x100 && Decimal.Pow16(4) == 0x1_0000
    ensures Decimal.Pow16(8) == 0x1_0000_0000 && Decimal.Pow16(16) == 0x1_0000_0000_0000_0000
  {
    Pow16Twice(1);
    Pow16Twice(2);
    Pow16Twice(4);
    Pow16Twice(8);
    assert Decimal.Pow16(1) == 16 * Decimal.Pow16(0);
  }

  lemma {:induction false} Pow16Sum(a: nat, b: nat)
    ensures Decimal.Pow16(a + b) == Decimal.Pow16(a) * Decimal.Pow16(b)
    decreases a
  {
    if a > 0 {
      Pow16Sum(a - 1, b);
      assert Decimal.Pow16(a + b) == 16 * (Decimal.Pow16(a - 1) * Decimal.Pow16(b));
    }
  }

  lemma Pow16Twice(k: nat)
    ensures Decimal.Pow16(2 * k) == Decimal.Pow16(k) * Decimal.Pow16(k)
  {
    Pow16Sum(k, k);
  }

  /** What is shown for a hexadecimal number, digit by digit. */
  lemma HexScalarShown(s: Scalar)
    ensures s.ScHex32? ==> ScalarShown(s).Text? && IsHexOf(ScalarShown(s).text, s.h32, 8)
    ensures s.ScHex64? ==> ScalarShown(s).Text? && IsHexOf(ScalarShown(s).text, s.h64, 16)
  {
    Pow16Sizes();
    match s
    case ScHex32(n) => HexTextIs(n, 8);
    case ScHex64(n) => HexTextIs(n, 16);
    case _ =>
  }

  lemma HexRenderedShown(r: Rendered)
    ensures r.RStatus? ==> RenderedShown(r).Text? && IsHexOf(RenderedShown(r).text, r.code, 8)
    ensures r.RHexByte? ==> RenderedShown(r).Text? && IsHexOf(RenderedShown(r).text, r.b8, 2)
    ensures r.RHexWord? ==> RenderedShown(r).Text? && IsHexOf(RenderedShown(r).text, r.b16, 4)
    ensures r.RHexLong? ==> RenderedShown(r).Text? && IsHexOf(RenderedShown(r).text, r.b64, 16)
  {
    Pow16Sizes();
    match r
    case RStatus(n) => HexTextIs(n, 8);
    case RHexByte(n) => HexTextIs(n, 2);
    case RHexWord(n) => HexTextIs(n, 4);
    case RHexLong(n) => HexTextIs(n, 16);
    case _ =>
  }

  // ----- which property tells which kind -----

  /** The in-type of a number, with the declared lengths that leave it a number. */
  predicate ScalarType(s: Scalar, inType: InType, length: nat) {
    match s
    case ScU8(_) => inType.UInt8? && length <= 1
    case ScU16(_) => inType.UInt16? && length <= 2
    case ScU32(_) => inType.UInt32? && length <= 4
    case ScU64(_) => inType.UInt64? && length <= 8
    case ScI32(_) => inType.Int32? && length <= 4
    case ScI64(_) => inType.Int64? && length <= 8
    case ScBool(_) => inType.Boolean?
    case ScPointer32(_) => inType.PointerType? && length == 4
    case ScPointer64(_) => inType.PointerType? && length != 4
    case ScFileTime(_) => inType.FileTime?
    case ScHex32(_) => inType.HexInt32?
    case ScHex64(_) => inType.HexInt64?
  }

  predicate RenderedType(r: Rendered, outType: OutType, length: nat) {
    match r
    case RPort(_) => outType.OutPort?
    case RPid(_) => outType.OutPid? || outType.OutTid?
    case RIpV4(_) => outType.OutIpV4?
    case RIpV6(_) => outType.OutIpV6?
    case RSocketV4(_, _) => outType.OutSocketAddress?
    case RSocketV6(_, _) => outType.OutSocketAddress?
    case RStatus(_) => outType.OutHResult? || outType.OutNtStatus? || outType.OutWin32Error? || outType.OutHexInt32?
    case RHexByte(_) => outType.OutHexInt8?
    case RHexWord(_) => outType.OutHexInt16?
    case RHexLong(_) => outType.OutHexInt64?
    case RFlag1(_) => outType.OutBoolean? && length < 4
    case RFlag4(_) => outType.OutBoolean? && length == 4
  }

  /** The size of a scalar in-type that a longer declared length turns into a blob. */
  function BlobBound(inType: InType): (n: Option<nat>)
  {
    match inType
    case UInt8 => Some(1)
    case UInt16 => Some(2)
    case UInt32 => Some(4)
    case UInt64 => Some(8)
    case Int32 => Some(4)
    case Int64 => Some(8)
    case OtherIn => Some(0)
    case _ => None
  }

  /** A kind that the in-type tells, given the length. */
  predicate FormType(w: Wire, inType: InType, length: nat) {
    match w
    case Plain(s) => ScalarType(s, inType, length)
    case GuidForm(_, _, _, _) => inType.GuidType?
    case SidForm(_) => inType.SidType?
    case Ansi(_) => inType.AnsiString? && length == 0
    case Wide(_) => inType.UnicodeString? && length <= 1
    case SizedAnsi(_, _) => inType.AnsiString? && length == |OnWire(w)|
    case SizedWide(_, _) => inType.UnicodeString? && length == |OnWire(w)|
    case Blob(bytes) => BlobBound(inType).Some? && length == |bytes| > BlobBound(inType).value
    case _ => false
  }

  /**
   How the size of an array follows from its property: from its elements, from one element's length, or as a
   whole.
   */
  predicate ArraySize(prop: PropertyMeta, length: nat, count: nat, size: nat) {
    if length == 0 then ElementSize(prop).Some? && size == ElementSize(prop).value * count
    else if length < count then size == length * count
    else size == length
  }

  /** The property, with the numbers decoded before it, tells this kind. */
  predicate Fits(prop: PropertyMeta, numerics: seq<Option<nat>>, w: Wire) {
    var length, count := ResolveLength(prop, numerics), ResolveCount(prop, numerics);
    match w
    case Elements(n, bytes) => count == n && ArraySize(prop, length, n, |bytes|)
    case Styled(r) => count == 1 && RenderedType(r, prop.outType, length)
    case _ =>
      && count == 1
      && (|| (prop.outType.OtherOut? && FormType(w, prop.inType, length))
          || (TextOut(prop.outType) && length == 0 && FormType(w, prop.inType, length))
          || (TextOut(prop.outType) && w.SizedAnsi? && length == |OnWire(w)|))
  }

  // ----- numbers -----

  lemma NumberReads(n: nat, k: nat, shape: Shape, rest: seq<byte>)
    requires n < Pow256(k)
    ensures Number(ToLe(n, k) + rest, k, shape) == Some(Parsed(Shaped(shape, n), k))
  {
    NumberRoundTrip(n, k, rest);
  }

  lemma SmallScalarReads(s: Scalar, inType: InType, length: nat, rest: seq<byte>)
    requires s.ScU8? || s.ScU16? || s.ScU32? || s.ScU64? || s.ScI32? || s.ScI64?
    requires ScalarType(s, inType, length)
    ensures InTypeValue(inType, length, ScalarBytes(s) + rest) == Some(Parsed(ScalarShown(s), |ScalarBytes(s)|))
  {
    Pow256Sizes();
    match s
    case ScU8(n) => NumberReads(n, 1, AsU8, rest);
    case ScU16(n) => NumberReads(n, 2, AsU16, rest);
    case ScU32(n) => NumberReads(n, 4, AsU32, rest);
    case ScU64(n) => NumberReads(n, 8, AsU64, rest);
    case ScI32(i) => NumberReads(Unsigned32(i), 4, AsI32, rest);
    case ScI64(i) => NumberReads(AsUnsigned64(i), 8, AsI64, rest);
  }

  lemma OtherScalarReads(s: Scalar, inType: InType, length: nat, rest: seq<byte>)
    requires !(s.ScU8? || s.ScU16? || s.ScU32? || s.ScU64? || s.ScI32? || s.ScI64?)
    requires ScalarType(s, inType, length)
    ensures InTypeValue(inType, length, ScalarBytes(s) + rest) == Some(Parsed(ScalarShown(s), |ScalarBytes(s)|))
  {
    Pow256Sizes();
    match s
    case ScBool(b) => NumberReads(if b then 1 else 0, 4, AsBool, rest);
    case ScPointer32(p) => NumberReads(p, 4, AsPointer, rest);
    case ScPointer64(p) => NumberReads(p, 8, AsPointer, rest);
    case ScFileTime(t) => NumberReads(t, 8, AsU64, rest);
    case ScHex32(n) => NumberReads(n, 4, AsHex(8), rest);
    case ScHex64(n) => NumberReads(n, 8, AsHex(16), rest);
  }

  // ----- values told by the out-type -----

  lemma PortReads(n: u16, rest: seq<byte>)
    ensures BigEndian((ToBigEndian(n, 2) + rest)[..2]) == n
  {
    Pow256Sizes();
    BigEndianRoundTrip(n, 2);
    assert (ToBigEndian(n, 2) + rest)[..2] == ToBigEndian(n, 2);
  }

  lemma SocketReads(family: nat, filler: seq<byte>, a: seq<byte>, rest: seq<byte>)
    requires (family == 2 && |filler| == 2 && |a| == 4) || (family == 23 && |filler| == 6 && |a| == 16)
    ensures SocketAddressAt(ToLe(family, 2) + filler + a + rest) == Some(Parsed(IpAddr(a), 2 + |filler| + |a|))
  {
    var head := ToLe(family, 2);
    var all := head + filler + a + rest;
    Pow256Sizes();
    LeNatOfToLe(family, 2);
    assert all[..2] == head;
    assert all[2 + |filler|..2 + |filler| + |a|] == a;
  }

  lemma AddressReads(r: Rendered, outType: OutType, length: nat, rest: seq<byte>)
    requires r.RPort? || r.RIpV4? || r.RIpV6? || r.RSocketV4? || r.RSocketV6?
    requires RenderedWell(r) && RenderedType(r, outType, length)
    ensures OutTypeOverride(outType, length, RenderedBytes(r) + rest)
         == Some(Parsed(RenderedShown(r), |RenderedBytes(r)|))
  {
    match r
    case RPort(n) => PortReads(n, rest);
    case RIpV4(a) => assert (a + rest)[..4] == a;
    case RIpV6(a) => assert (a + rest)[..16] == a;
    case RSocketV4(port, a) => SocketReads(2, ToBigEndian(port, 2), a, rest);
    case RSocketV6(header, a) => SocketReads(23, header, a, rest);
  }

  lemma RenderedNumberReads(r: Rendered, outType: OutType, length: nat, rest: seq<byte>)
    requires !(r.RPort? || r.RIpV4? || r.RIpV6? || r.RSocketV4? || r.RSocketV6?)
    requires RenderedType(r, outType, length)
    ensures OutTypeOverride(outType, length, RenderedBytes(r) + rest)
         == Some(Parsed(RenderedShown(r), |RenderedBytes(r)|))
  {
    Pow256Sizes();
    match r
    case RPid(n) => NumberReads(n, 4, AsU32, rest);
    case RStatus(n) => NumberReads(n, 4, AsHex(8), rest);
    case RHexByte(n) => NumberReads(n, 1, AsHex(2), rest);
    case RHexWord(n) => NumberReads(n, 2, AsHex(4), rest);
    case RHexLong(n) => NumberReads(n, 8, AsHex(16), rest);
    case RFlag1(b) => NumberReads(if b then 1 else 0, 1, AsBool, rest);
    case RFlag4(b) => NumberReads(if b then 1 else 0, 4, AsBool, rest);
  }

  /** Every value told by its out-type is read back, whatever its in-type. */
  lemma OutTypeRoundTrip(r: Rendered, outType: OutType, length: nat, rest: seq<byte>)
    requires RenderedWell(r) && RenderedType(r, outType, length)
    ensures OutTypeOverride(outType, length, RenderedBytes(r) + rest)
         == Some(Parsed(RenderedShown(r), |RenderedBytes(r)|))
  {
    if r.RPort? || r.RIpV4? || r.RIpV6? || r.RSocketV4? || r.RSocketV6? {
      AddressReads(r, outType, length, rest);
    } else {
      RenderedNumberReads(r, outType, length, rest);
    }
  }

  /**
   A boolean with a declared length beyond 4 has four bytes if that length is still there, else one: a wide flag
   is read back exactly if the bytes behind it make up the length, a narrow one exactly if they do not.
   */
  lemma LongBooleanIff(length: nat, b: bool, rest: seq<byte>)
    requires length > 4
    ensures OutTypeOverride(OutBoolean, length, RenderedBytes(RFlag4(b)) + rest) == Some(Parsed(Bool(b), 4))
            <==> length <= 4 + |rest|
    ensures OutTypeOverride(OutBoolean, length, RenderedBytes(RFlag1(b)) + rest) == Some(Parsed(Bool(b), 1))
            <==> length > 1 + |rest|
  {
    Pow256Sizes();
    NumberReads(if b then 1 else 0, 4, AsBool, rest);
    NumberReads(if b then 1 else 0, 1, AsBool, rest);
  }

  // ----- structures and texts -----

  lemma GuidParts(a: seq<byte>, b: seq<byte>, c: seq<byte>, d: seq<byte>, rest: seq<byte>)
    requires |a| == 4 && |b| == 2 && |c| == 2 && |d| == 8
    ensures var all := a + b + c + d + rest;
            |all| >= 16 && all[..4] == a && all[4..6] == b && all[6..8] == c && all[8..16] == d
  {
  }

  lemma GuidReads(d1: u32, d2: u16, d3: u16, d4: seq<byte>, rest: seq<byte>)
    requires |d4| == 8
    ensures GuidAt(ToLe(d1, 4) + ToLe(d2, 2) + ToLe(d3, 2) + d4 + rest) == Some(Parsed(Guid(d1, d2, d3, d4), 16))
  {
    GuidParts(ToLe(d1, 4), ToLe(d2, 2), ToLe(d3, 2), d4, rest);
    Pow256Sizes();
    LeNatOfToLe(d1, 4);
    LeNatOfToLe(d2, 2);
    LeNatOfToLe(d3, 2);
  }

  /** Where a NUL-free text ends at a NUL or at the end of the bytes, the scan finds its end. */
  lemma TextEnds(text: string, after: seq<byte>)
    requires '\0' !in text && (after == [] || after[0] == 0)
    ensures BeforeNul(EncodeUtf8(text) + after) == |EncodeUtf8(text)|
    ensures (EncodeUtf8(text) + after)[..|EncodeUtf8(text)|] == EncodeUtf8(text)
  {
    var bytes := EncodeUtf8(text);
    var all := bytes + after;
    NulOctetsAreNulChars(text);
    forall i | 0 <= i < |bytes| ensures all[i] != 0 {
      assert all[i] in bytes;
    }
    BeforeNulIs(all, |bytes|);
  }

  lemma AnsiReads(text: string, rest: seq<byte>)
    requires '\0' !in text
    ensures Utf8CStr(EncodeUtf8(text) + [0] + rest) == Some((text, |EncodeUtf8(text)| + 1))
  {
    assert EncodeUtf8(text) + [0] + rest == EncodeUtf8(text) + ([0] + rest);
    TextEnds(text, [0] + rest);
    DecodeEncoded(text);
  }

  /** UTF-8 in a buffer of the declared size, filled up with NULs. */
  lemma SizedUtf8Reads(text: string, padding: nat, rest: seq<byte>)
    requires '\0' !in text && (text != "" || padding > 0)
    ensures var buffer := EncodeUtf8(text) + Zeros(padding);
            buffer != [] && Utf8Sized(buffer + rest, |buffer|) == Some((text, |buffer|))
  {
    var bytes := EncodeUtf8(text);
    var buffer := bytes + Zeros(padding);
    Utf8NotEmpty(text);
    TextEnds(text, Zeros(padding));
    assert (buffer + rest)[..|buffer|] == buffer;
    assert (buffer + rest)[..|bytes|] == bytes;
    DecodeEncoded(text);
  }

  lemma UnitsBack(units: seq<u16>)
    ensures WideUnits(WideBytes(units)) == units
  {
    UnitsOfBytes(units, []);
    EmptyRight(WideBytes(units));
    EmptyRight(units);
  }

  lemma {:induction false} PaddedEnds(units: seq<u16>, zeros: seq<u16>)
    requires 0 !in units && (zeros == [] || zeros[0] == 0)
    ensures BeforeNul(units + zeros) == |units| && (units + zeros)[..|units|] == units
  {
    var all := units + zeros;
    forall i | 0 <= i < |units| ensures all[i] != 0 {
      assert all[i] in units;
    }
    BeforeNulIs(all, |units|);
  }

  /** The text of the units before the first NUL, which is consumed with them if there is one. */
  lemma {:induction false} Utf16CStrOf(data: seq<byte>, all: seq<u16>, n: nat)
    requires |data| >= 2 && WideUnits(data) == all && n == BeforeNul(all)
    ensures Utf16CStr(data) == Some((DecodeUtf16Lossy(all[..n]), if n < |all| then 2 * (n + 1) else 2 * n))
  {
  }

  /** UTF-16 up to a NUL, which is consumed; without one up to the last whole unit. */
  lemma {:induction false} Utf16CStrIs(units: seq<u16>, rest: seq<byte>, odd: seq<byte>)
    requires 0 !in units && |odd| <= 1
    ensures Utf16CStr(WideBytes(units) + [0, 0] + rest) == Some((DecodeUtf16Lossy(units), 2 * |units| + 2))
    ensures units != [] ==> Utf16CStr(WideBytes(units) + odd) == Some((DecodeUtf16Lossy(units), 2 * |units|))
  {
    var ended := WideBytes(units) + [0, 0] + rest;
    assert WideUnits(ended) == units + ([0] + WideUnits(rest)) by {
      UnitsOfString(units, rest);
      ConcatAssoc(units, [0], WideUnits(rest));
    }
    PaddedEnds(units, [0] + WideUnits(rest));
    Utf16CStrOf(ended, units + ([0] + WideUnits(rest)), |units|);
    if units != [] {
      UnitsOfBytes(units, odd);
      PaddedEnds(units, []);
      EmptyRight(units);
      Utf16CStrOf(WideBytes(units) + odd, units, |units|);
    }
  }

  /** A buffer of units with NULs behind the text, whatever follows it. */
  lemma {:induction false} SizedUnitsRead(units: seq<u16>, zeros: seq<u16>, rest: seq<byte>)
    requires 0 !in units && (zeros == [] || zeros[0] == 0) && |units| + |zeros| > 0
    ensures var buffer := WideBytes(units + zeros);
            Utf16Sized(buffer + rest, |buffer|) == Some((DecodeUtf16Lossy(units), |buffer|))
  {
    var buffer := WideBytes(units + zeros);
    assert (buffer + rest)[..|buffer|] == buffer;
    UnitsBack(units + zeros);
    PaddedEnds(units, zeros);
  }

  /** UTF-16 in a buffer of the declared size, filled up with NULs. */
  lemma SizedWideReads(text: string, padding: nat, rest: seq<byte>)
    requires '\0' !in text && (text != "" || padding > 0)
    ensures var buffer := WideBytes(EncodeUtf16(text) + Zeros(padding));
            |buffer| >= 2 && Utf16Sized(buffer + rest, |buffer|) == Some((text, |buffer|))
  {
    Utf16NotEmpty(text);
    NulUnitsAreNulChars(text);
    SizedUnitsRead(EncodeUtf16(text), Zeros(padding), rest);
    Utf16RoundTrip(text);
  }

  /** A scalar whose declared length exceeds its size, or an unknown type with a length, is read as that many bytes. */
  lemma BlobReads(inType: InType, blob: seq<byte>, rest: seq<byte>)
    requires BlobBound(inType).Some? && |blob| > BlobBound(inType).value
    ensures InTypeValue(inType, |blob|, blob + rest) == Some(Parsed(Binary(blob), |blob|))
  {
    assert (blob + rest)[..|blob|] == blob;
  }

  /** Every kind told by its in-type is read back, and takes exactly its own bytes. */
  lemma InTypeRoundTrip(w: Wire, inType: InType, length: nat, rest: seq<byte>)
    requires FormType(w, inType, length)
    ensures InTypeValue(inType, length, OnWire(w) + rest) == Some(Parsed(Shown(w), |OnWire(w)|))
  {
    match w
    case Plain(s) =>
      if s.ScU8? || s.ScU16? || s.ScU32? || s.ScU64? || s.ScI32? || s.ScI64? {
        SmallScalarReads(s, inType, length, rest);
      } else {
        OtherScalarReads(s, inType, length, rest);
      }
    case GuidForm(d1, d2, d3, d4) => GuidReads(d1, d2, d3, d4, rest);
    case SidForm(sid) => SidRoundTrip(sid, rest);
    case Blob(bytes) => BlobReads(inType, bytes, rest);
    case _ => TextRoundTrip(w, inType, length, rest);
  }

  lemma TextRoundTrip(w: Wire, inType: InType, length: nat, rest: seq<byte>)
    requires FormType(w, inType, length) && (w.Ansi? || w.Wide? || w.SizedAnsi? || w.SizedWide?)
    ensures InTypeValue(inType, length, OnWire(w) + rest) == Some(Parsed(Shown(w), |OnWire(w)|))
  {
    match w
    case Ansi(text) => AnsiRoundTrip(text, rest);
    case Wide(text) => WideRoundTrip(text, length, rest);
    case SizedAnsi(text, padding) => SizedAnsiRoundTrip(text, padding, rest);
    case SizedWide(text, padding) => SizedWideRoundTrip(text, padding, rest);
  }

  lemma AnsiRoundTrip(text: string, rest: seq<byte>)
    requires '\0' !in text
    ensures InTypeValue(AnsiString, 0, EncodeUtf8(text) + [0] + rest)
            == Some(Parsed(Text(text), |EncodeUtf8(text)| + 1))
  {
    AnsiReads(text, rest);
  }

  lemma WideRoundTrip(text: string, length: nat, rest: seq<byte>)
    requires '\0' !in text && length <= 1
    ensures var bytes := Encode(DataStr(text));
            InTypeValue(UnicodeString, length, bytes + rest) == Some(Parsed(Text(text), |bytes|))
  {
    StringRoundTripIff(text, rest);
  }

  lemma SizedAnsiRoundTrip(text: string, padding: nat, rest: seq<byte>)
    requires '\0' !in text && (text != "" || padding > 0)
    ensures var buffer := EncodeUtf8(text) + Zeros(padding);
            InTypeValue(AnsiString, |buffer|, buffer + rest) == Some(Parsed(Text(text), |buffer|))
  {
    SizedUtf8Reads(text, padding, rest);
  }

  lemma SizedWideRoundTrip(text: string, padding: nat, rest: seq<byte>)
    requires '\0' !in text && (text != "" || padding > 0)
    ensures var buffer := WideBytes(EncodeUtf16(text) + Zeros(padding));
            InTypeValue(UnicodeString, |buffer|, buffer + rest) == Some(Parsed(Text(text), |buffer|))
  {
    SizedWideReads(text, padding, rest);
  }

  // ----- what is left of the kinds -----

  /** A declared length beyond the data is as good as none. */
  lemma LongLengthIsIgnored(inType: InType, length: nat, data: seq<byte>)
    requires length > |data|
    ensures InTypeValue(inType, length, data) == InTypeValue(inType, 0, data)
  {
  }

  /** An in-type that is not known takes all there is, or its declared length. */
  lemma OtherTakesAll(data: seq<byte>)
    ensures InTypeValue(OtherIn, 0, data) == Some(Parsed(Binary(data), |data|))
  {
    assert data[..|data|] == data;
  }

  /** The bytes that a value of a fixed size needs; a pointer's declared length of 4 makes it a short one. */
  predicate SizeOf(inType: InType, length: nat, size: nat) {
    match inType
    case UInt8 => size == 1
    case UInt16 => size == 2
    case UInt32 => size == 4
    case UInt64 => size == 8
    case Int32 => size == 4
    case Int64 => size == 8
    case Boolean => size == 4
    case GuidType => size == 16
    case PointerType => size == if length == 4 then 4 else 8
    case FileTime => size == 8
    case HexInt32 => size == 4
    case HexInt64 => size == 8
    case _ => false
  }

  /** A value of a fixed size is read exactly if its bytes are there. */
  lemma {:induction false} InTypeReadsIff(inType: InType, length: nat, data: seq<byte>, size: nat)
    requires SizeOf(inType, length, size)
    ensures InTypeValue(inType, length, data).Some? <==> |data| >= size
  {
  }

  /** The bytes that an out-type which decides takes, without a declared length; None for those that do not. */
  function OutSize(outType: OutType): (size: Option<nat>)
    requires !outType.OutSocketAddress?
  {
    match outType
    case OutHexInt8 => Some(1)
    case OutHexInt16 => Some(2)
    case OutPort => Some(2)
    case OutHexInt64 => Some(8)
    case OutIpV6 => Some(16)
    case OutBoolean => Some(1)
    case OtherOut => None
    case _ => if TextOut(outType) then None else Some(4)
  }

  /** An out-type decides exactly if its bytes are there; otherwise, and for the other out-types, the in-type does. */
  lemma {:induction false} OutTypeDecidesIff(prop: PropertyMeta, length: nat, data: seq<byte>)
    requires !prop.outType.OutSocketAddress? && !TextOut(prop.outType)
    ensures var size := OutSize(prop.outType);
            OneValue(prop, length, data)
            == if size.Some? && |data| >= size.value then OutTypeOverride(prop.outType, length, data)
               else InTypeValue(prop.inType, length, data)
    ensures var size := OutSize(prop.outType);
            OutTypeOverride(prop.outType, length, data).Some? <==> size.Some? && |data| >= size.value
  {
  }

  /** A flag of four bytes, or of one, is false exactly if they are all zero. */
  lemma {:induction false} BooleanIs(length: nat, data: seq<byte>)
    requires |data| >= 4
    ensures var zero := data[0] == 0 && data[1] == 0 && data[2] == 0 && data[3] == 0;
            && InTypeValue(Boolean, length, data) == Some(Parsed(Bool(!zero), 4))
            && (4 <= length <= |data| ==> OutTypeOverride(OutBoolean, length, data) == Some(Parsed(Bool(!zero), 4)))
    ensures !(4 <= length <= |data|) ==>
              OutTypeOverride(OutBoolean, length, data) == Some(Parsed(Bool(data[0] != 0), 1))
  {
    assert data[..4] == [data[0], data[1], data[2], data[3]] && data[..1] == [data[0]] && [data[0]][1..] == [];
    LeNatOfFour(data[0], data[1], data[2], data[3]);
    assert LeNat([data[0]]) == data[0] as int + 0x100 * LeNat([]);
  }

  /** A port has its high byte first. */
  lemma PortIs(length: nat, data: seq<byte>)
    requires |data| >= 2
    ensures OutTypeOverride(OutPort, length, data) == Some(Parsed(U16(0x100 * data[0] as int + data[1] as int), 2))
  {
    assert data[..2] == [data[0], data[1]];
    BigEndianOfTwo(data[0], data[1]);
  }

  /** A socket address is read exactly for AF_INET with 8 bytes and AF_INET6 with 24. */
  lemma SocketAddressIff(data: seq<byte>)
    ensures SocketAddressAt(data).Some?
            <==> (|data| >= 8 && data[0] == 2 && data[1] == 0) || (|data| >= 24 && data[0] == 23 && data[1] == 0)
  {
    if |data| >= 2 {
      var two := data[..2];
      assert two == [data[0], data[1]] && two[1..] == [data[1]] && [data[1]][1..] == [];
      assert LeNat([data[1]]) == data[1] as int + 0x100 * LeNat([]);
      assert LeNat(two) == data[0] as int + 0x100 * LeNat([data[1]]);
    }
  }

  // ----- arrays -----

  /**
   The bytes of an array of more than one element: its declared length, times the count if it is below it; or, if
   there is none or it is beyond the data, the elements' size times the count.
   */
  ghost predicate ArrayTakes(prop: PropertyMeta, length: nat, count: nat, data: seq<byte>, n: nat) {
    var declared := if length < count then length * count else length;
    if 0 < length && declared <= |data| then n == declared
    else ElementSize(prop).Some? && n == ElementSize(prop).value * count && n <= |data|
  }

  /** An array is read exactly if such bytes are there, and then as they are. */
  lemma CountedValueIff(prop: PropertyMeta, length: nat, count: nat, data: seq<byte>, n: nat)
    requires count > 1
    ensures CountedValue(prop, length, count, data).Some? && CountedValue(prop, length, count, data).value.consumed == n
            <==> ArrayTakes(prop, length, count, data, n)
    ensures ArrayTakes(prop, length, count, data, n) ==>
              n <= |data| && CountedValue(prop, length, count, data) == Some(Parsed(Binary(data[..n]), n))
  {
  }

  /** An array of elements of known size with no declared length is read whole. */
  lemma ArrayWithoutLength(prop: PropertyMeta, count: nat, elements: seq<byte>, rest: seq<byte>)
    requires count > 1 && ElementSize(prop).Some? && |elements| == ElementSize(prop).value * count
    ensures CountedValue(prop, 0, count, elements + rest) == Some(Parsed(Binary(elements), |elements|))
  {
    assert (elements + rest)[..|elements|] == elements;
  }

  /**
   An array whose property declares the length of one element is read whole exactly if that length
   is below the count; otherwise the length is taken for that of the whole array.
   */
  lemma ArrayReadWholeIff(prop: PropertyMeta, length: nat, count: nat, elements: seq<byte>, rest: seq<byte>)
    requires count > 1 && length > 0 && |elements| == length * count
    ensures CountedValue(prop, length, count, elements + rest) == Some(Parsed(Binary(elements), |elements|))
            <==> length < count
  {
    LongerThanOne(length, count);
    if length < count {
      assert (elements + rest)[..|elements|] == elements;
    }
  }

  lemma LongerThanOne(length: nat, count: nat)
    requires count > 1 && length > 0
    ensures length < length * count
  {
  }

  /** Two 4-byte elements under a declared length of 4: only the first is read. */
  lemma ArrayCutShort(prop: PropertyMeta, a: u32, b: u32, rest: seq<byte>)
    ensures CountedValue(prop, 4, 2, ToLe(a, 4) + ToLe(b, 4) + rest) == Some(Parsed(Binary(ToLe(a, 4)), 4))
  {
    assert (ToLe(a, 4) + ToLe(b, 4) + rest)[..4] == ToLe(a, 4);
  }

  lemma ElementsRead(prop: PropertyMeta, length: nat, count: nat, elements: seq<byte>, rest: seq<byte>)
    requires count > 1 && elements != [] && ArraySize(prop, length, count, |elements|)
    ensures CountedValue(prop, length, count, elements + rest) == Some(Parsed(Binary(elements), |elements|))
  {
    if length == 0 {
      ArrayWithoutLength(prop, count, elements, rest);
    } else if length < count {
      ArrayReadWholeIff(prop, length, count, elements, rest);
    } else {
      assert (elements + rest)[..|elements|] == elements;
    }
  }

  /** A count in an earlier field is taken at its word exactly if it is at least 1 and fits 16 bits; else it is 1. */
  lemma ReferencedCountIff(prop: PropertyMeta, numerics: seq<Option<nat>>, k: nat, n: nat)
    requires prop.countIndex == Some(k) && k < |numerics| && numerics[k] == Some(n)
    ensures ResolveCount(prop, numerics) == n <==> 1 <= n < 0x1_0000
    ensures n == 0 || n >= 0x1_0000 ==> ResolveCount(prop, numerics) == 1
  {
  }

  /**
   A count field of 0 does not make an array of any property empty: where there is data left, one value is
   read, and takes at least one byte of what follows.
   */
  lemma CountOfZeroReadsOne(prop: PropertyMeta, numerics: seq<Option<nat>>, k: nat, data: seq<byte>)
    requires prop.countIndex == Some(k) && k < |numerics| && numerics[k] == Some(0) && data != []
    ensures PropertyValue(prop, numerics, data) == OneValue(prop, ResolveLength(prop, numerics), data)
    ensures var r := PropertyValue(prop, numerics, data); r.Some? ==> r.value.consumed >= 1
  {
  }

  /** One value takes as many bytes as an element of an array: the out-type agrees with the element's size. */
  predicate Uniform(prop: PropertyMeta) {
    && ElementSize(prop).Some? && !prop.outType.OutSocketAddress?
    && OutSize(prop.outType) in {None, ElementSize(prop)}
  }

  lemma OneElementTakes(prop: PropertyMeta, data: seq<byte>)
    requires Uniform(prop) && |data| >= ElementSize(prop).value
    ensures OneValue(prop, 0, data).Some? && OneValue(prop, 0, data).value.consumed == ElementSize(prop).value
  {
  }

  /** An array of sized elements takes the bytes of as many as its count field says exactly if that is not 0. */
  lemma ReferencedCountTakesIff(
    prop: PropertyMeta, numerics: seq<Option<nat>>, k: nat, n: nat, data: seq<byte>)
    requires prop.countIndex == Some(k) && k < |numerics| && numerics[k] == Some(n) && n < 0x1_0000
    requires Uniform(prop) && ResolveLength(prop, numerics) == 0
    requires |data| >= ElementSize(prop).value * (if n == 0 then 1 else n)
    ensures var r := PropertyValue(prop, numerics, data);
            r.Some? && (r.value.consumed == ElementSize(prop).value * n <==> n >= 1)
  {
    if n <= 1 {
      OneElementTakes(prop, data);
    }
  }

  // ----- every kind -----

  /**
   Every kind of value survives the wire, given whatever numbers were decoded before it and before whatever
   follows.
   */
  lemma WireRoundTrip(prop: PropertyMeta, numerics: seq<Option<nat>>, w: Wire, rest: seq<byte>)
    requires Fits(prop, numerics, w)
    ensures PropertyValue(prop, numerics, OnWire(w) + rest) == Some(Parsed(Shown(w), |OnWire(w)|))
  {
    var length := ResolveLength(prop, numerics);
    match w
    case Elements(n, bytes) => ElementsRead(prop, length, n, bytes, rest);
    case Styled(r) => OutTypeRoundTrip(r, prop.outType, length, rest);
    case _ => OneRoundTrip(prop, length, w, rest);
  }

  lemma OneRoundTrip(prop: PropertyMeta, length: nat, w: Wire, rest: seq<byte>)
    requires || (prop.outType.OtherOut? && FormType(w, prop.inType, length))
             || (TextOut(prop.outType) && length == 0 && FormType(w, prop.inType, length))
             || (TextOut(prop.outType) && w.SizedAnsi? && length == |OnWire(w)|)
    ensures OneValue(prop, length, OnWire(w) + rest) == Some(Parsed(Shown(w), |OnWire(w)|))
  {
    if TextOut(prop.outType) && length > 0 {
      SizedOverrideReads(prop.outType, w.ansiText, w.ansiPadding, rest);
    } else {
      NoOverride(prop.outType, length, OnWire(w) + rest);
      InTypeRoundTrip(w, prop.inType, length, rest);
    }
  }

  lemma NoOverride(outType: OutType, length: nat, data: seq<byte>)
    requires outType.OtherOut? || (TextOut(outType) && length == 0)
    ensures OutTypeOverride(outType, length, data).None?
  {
  }

  lemma SizedOverrideReads(outType: OutType, text: string, padding: nat, rest: seq<byte>)
    requires TextOut(outType) && '\0' !in text && (text != "" || padding > 0)
    ensures var buffer := EncodeUtf8(text) + Zeros(padding);
            OutTypeOverride(outType, |buffer|, buffer + rest) == Some(Parsed(Text(text), |buffer|))
  {
    var buffer := EncodeUtf8(text) + Zeros(padding);
    SizedUtf8Reads(text, padding, rest);
    SizedOverride(outType, buffer + rest, |buffer|, text);
  }

  lemma SizedOverride(outType: OutType, data: seq<byte>, n: nat, text: string)
    requires TextOut(outType) && 0 < n <= |data| && Utf8Sized(data, n) == Some((text, n))
    ensures OutTypeOverride(outType, n, data) == Some(Parsed(Text(text), n))
  {
  }
}
