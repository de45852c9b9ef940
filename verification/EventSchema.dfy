/**
 The ETW payload decoder (src/etw/schema.rs): a schema's properties are read off the payload one
 after the other; the count or length of a property may come from the number decoded for another.
 */
module EventSchema {
  import opened Wrappers
  import opened Bytes
  import opened EventText
  import Decimal

  datatype InType =
    | UInt8 | UInt16 | UInt32 | UInt64 | Int32 | Int64 | Boolean | GuidType | PointerType | FileTime
    | SidType | HexInt32 | HexInt64 | UnicodeString | AnsiString | OtherIn

  datatype OutType =
    | OutHexInt8 | OutHexInt16 | OutHexInt32 | OutHexInt64 | OutHResult | OutNtStatus | OutWin32Error
    | OutPort | OutPid | OutTid | OutIpV4 | OutIpV6 | OutSocketAddress | OutBoolean
    | OutUtf8 | OutString | OutJson | OutXml | OutReducedString | OtherOut

  datatype PropertyMeta = PropertyMeta(
    name: string,
    inType: InType,
    outType: OutType,
    length: u16,
    count: u16,
    countIndex: Option<nat>,
    lengthIndex: Option<nat>,
    mapName: Option<string>
  )

  datatype Value =
    | Text(text: string)
    | IpAddr(octets: seq<byte>)
    | U8(n: nat) | U16(n: nat) | U32(n: nat) | U64(n: nat)
    | I32(i: int) | I64(i: int)
    | Bool(b: bool)
    | Guid(data1: nat, data2: nat, data3: nat, data4: seq<byte>)
    | Binary(bytes: seq<byte>)
    | Pointer(n: nat)

  datatype Field = Field(name: string, value: Value)

  /** A decoded value and how many bytes it took. */
  datatype Parsed = Parsed(value: Value, consumed: nat)

  // ----- back-references -----

  /** The value as a number, if it is a number that is not negative. */
  function Numeric(value: Value): (n: Option<nat>)
  {
    match value
    case U8(n) => Some(n)
    case U16(n) => Some(n)
    case U32(n) => Some(n)
    case U64(n) => Some(n)
    case I32(i) => if i >= 0 then Some(i) else None
    case I64(i) => if i >= 0 then Some(i) else None
    case Pointer(n) => Some(n)
    case Bool(b) => Some(if b then 1 else 0)
    case _ => None
  }

  /** The value can stand for the number n: unsigned numbers, signed ones that are not negative, pointers, flags. */
  predicate CountsAs(v: Value, n: nat) {
    match v
    case U8(m) => n == m
    case U16(m) => n == m
    case U32(m) => n == m
    case U64(m) => n == m
    case Pointer(m) => n == m
    case I32(i) => i >= 0 && n == i
    case I64(i) => i >= 0 && n == i
    case Bool(b) => if b then n == 1 else n == 0
    case _ => false
  }

  lemma NumericIff(v: Value, n: nat)
    ensures Numeric(v) == Some(n) <==> CountsAs(v, n)
  {
  }

  /** The number another property decoded to, if it has one that fits 16 bits. */
  function Referenced(index: nat, numerics: seq<Option<nat>>): (n: Option<nat>)
    ensures n.Some? ==> n.value < 0x1_0000
  {
    if index < |numerics| && numerics[index].Some? && numerics[index].value < 0x1_0000 then numerics[index] else None
  }

  function AtLeastOne(n: nat): (m: nat)
    ensures m >= 1
  {
    if n == 0 then 1 else n
  }

  function ResolveCount(prop: PropertyMeta, numerics: seq<Option<nat>>): (count: nat)
    ensures 1 <= count < 0x1_0000
  {
    if prop.countIndex.Some? then
      var n := Referenced(prop.countIndex.value, numerics);
      if n.Some? then AtLeastOne(n.value) else 1
    else AtLeastOne(prop.count)
  }

  function ResolveLength(prop: PropertyMeta, numerics: seq<Option<nat>>): (length: nat)
    ensures length < 0x1_0000
  {
    if prop.lengthIndex.Some? then
      var n := Referenced(prop.lengthIndex.value, numerics);
      if n.Some? then n.value else prop.length
    else prop.length
  }

  // ----- single values -----

  function HexText(n: nat, digits: nat): (s: string)
  {
    "0x" + Decimal.PrintFixed(n, 16, digits)
  }

  /** The kinds of values a number can become. */
  datatype Shape = AsU8 | AsU16 | AsU32 | AsU64 | AsI32 | AsI64 | AsBool | AsPointer | AsHex(digits: nat)

  function Shaped(shape: Shape, n: nat): (value: Value)
  {
    match shape
    case AsU8 => U8(n)
    case AsU16 => U16(n)
    case AsU32 => U32(n)
    case AsU64 => U64(n)
    case AsI32 => I32(TwosComplement(n, 0x1_0000_0000))
    case AsI64 => I64(TwosComplement(n, 0x1_0000_0000_0000_0000))
    case AsBool => Bool(n != 0)
    case AsPointer => Pointer(n)
    case AsHex(digits) => Text(HexText(n, digits))
  }

  /** A little-endian number of k bytes. */
  function Number(data: seq<byte>, k: nat, shape: Shape): (r: Option<Parsed>)
    ensures r.Some? <==> k <= |data|
    ensures r.Some? ==> r.value.consumed == k
  {
    if k <= |data| then Some(Parsed(Shaped(shape, LeNat(data[..k])), k)) else None
  }

  function Blob(data: seq<byte>, k: nat): (r: Parsed)
    requires k <= |data|
    ensures r.consumed == k
  {
    Parsed(Binary(data[..k]), k)
  }

  /** A declared length beyond the scalar's own size makes it a blob. */
  function ScalarOrBlob(data: seq<byte>, size: nat, length: nat, shape: Shape): (r: Option<Parsed>)
    ensures r.Some? ==> r.value.consumed <= |data| && (size >= 1 ==> r.value.consumed >= 1)
  {
    if size < length <= |data| then Some(Blob(data, length)) else Number(data, size, shape)
  }

  function AsText(r: Option<(string, nat)>): (p: Option<Parsed>)
  {
    if r.None? then None else Some(Parsed(Text(r.value.0), r.value.1))
  }

  function GuidAt(data: seq<byte>): (r: Option<Parsed>)
    ensures r.Some? <==> |data| >= 16
    ensures r.Some? ==> r.value.consumed == 16
  {
    if |data| < 16 then None
    else Some(Parsed(Guid(LeNat(data[..4]), LeNat(data[4..6]), LeNat(data[6..8]), data[8..16]), 16))
  }

  /** AF_INET is 2, AF_INET6 is 23. */
  function SocketAddressAt(data: seq<byte>): (r: Option<Parsed>)
    ensures r.Some? ==> 8 <= r.value.consumed <= |data|
  {
    if |data| < 8 then None
    else if LeNat(data[..2]) == 2 then Some(Parsed(IpAddr(data[4..8]), 8))
    else if LeNat(data[..2]) == 23 && |data| >= 24 then Some(Parsed(IpAddr(data[8..24]), 24))
    else None
  }

  /** The out-type decides first; None leaves the value to its in-type. */
  function OutTypeOverride(outType: OutType, length: nat, data: seq<byte>): (r: Option<Parsed>)
    ensures r.Some? ==> 1 <= r.value.consumed <= |data|
  {
    match outType
    case OutHexInt8 => Number(data, 1, AsHex(2))
    case OutHexInt16 => Number(data, 2, AsHex(4))
    case OutHexInt32 => Number(data, 4, AsHex(8))
    case OutHexInt64 => Number(data, 8, AsHex(16))
    case OutHResult => Number(data, 4, AsHex(8))
    case OutNtStatus => Number(data, 4, AsHex(8))
    case OutWin32Error => Number(data, 4, AsHex(8))
    case OutPort => if |data| < 2 then None else Some(Parsed(U16(BigEndian(data[..2])), 2))
    case OutPid => Number(data, 4, AsU32)
    case OutTid => Number(data, 4, AsU32)
    case OutIpV4 => if |data| < 4 then None else Some(Parsed(IpAddr(data[..4]), 4))
    case OutIpV6 => if |data| < 16 then None else Some(Parsed(IpAddr(data[..16]), 16))
    case OutSocketAddress => SocketAddressAt(data)
    case OutBoolean => Number(data, if 4 <= length <= |data| then 4 else 1, AsBool)
    case OtherOut => None
    case _ => if 0 < length <= |data| then AsText(Utf8Sized(data, length)) else None
  }

  function InTypeValue(inType: InType, length: nat, data: seq<byte>): (r: Option<Parsed>)
    ensures r.Some? ==> r.value.consumed <= |data| && (data != [] ==> r.value.consumed >= 1)
  {
    match inType
    case UInt8 => ScalarOrBlob(data, 1, length, AsU8)
    case UInt16 => ScalarOrBlob(data, 2, length, AsU16)
    case UInt32 => ScalarOrBlob(data, 4, length, AsU32)
    case UInt64 => ScalarOrBlob(data, 8, length, AsU64)
    case Int32 => ScalarOrBlob(data, 4, length, AsI32)
    case Int64 => ScalarOrBlob(data, 8, length, AsI64)
    case Boolean => Number(data, 4, AsBool)
    case GuidType => GuidAt(data)
    case PointerType => Number(data, if length == 4 then 4 else 8, AsPointer)
    case FileTime => Number(data, 8, AsU64)
    case SidType => AsText(SidAt(data))
    case HexInt32 => Number(data, 4, AsHex(8))
    case HexInt64 => Number(data, 8, AsHex(16))
    case UnicodeString => AsText(if 2 <= length <= |data| then Utf16Sized(data, length) else Utf16CStr(data))
    case AnsiString => AsText(if 0 < length <= |data| then Utf8Sized(data, length) else Utf8CStr(data))
    case OtherIn => Some(Blob(data, if 0 < length <= |data| then length else |data|))
  }

  /** `parse_one_value` with the length resolved. */
  function OneValue(prop: PropertyMeta, length: nat, data: seq<byte>): (r: Option<Parsed>)
    ensures r.Some? ==> r.value.consumed <= |data| && (data != [] ==> r.value.consumed >= 1)
  {
    var override := OutTypeOverride(prop.outType, length, data);
    if override.Some? then override else InTypeValue(prop.inType, length, data)
  }

  // ----- arrays -----

  function ElementSize(prop: PropertyMeta): (size: Option<nat>)
    ensures size.Some? ==> size.value >= 1
  {
    if prop.outType.OutIpV4? then Some(4)
    else if prop.outType.OutIpV6? then Some(16)
    else
      match prop.inType
      case UInt8 => Some(1)
      case UInt16 => Some(2)
      case UInt32 => Some(4)
      case UInt64 => Some(8)
      case Int32 => Some(4)
      case Int64 => Some(8)
      case Boolean => Some(4)
      case GuidType => Some(16)
      case PointerType => Some(8)
      case FileTime => Some(8)
      case HexInt32 => Some(4)
      case HexInt64 => Some(8)
      case _ => None
  }

  /** A declared length that covers the count is the whole array's, a shorter one each element's. */
  function DeclaredBytes(length: nat, count: nat): (n: nat)
    ensures length > 0 && count > 0 ==> n >= 1
  {
    if length >= count then length
    else if length == 0 || count == 0 then 0
    else
      assert length * count >= 1;
      length * count
  }

  /** `parse_counted_value`: the bytes of the whole array. */
  function CountedValue(prop: PropertyMeta, length: nat, count: nat, data: seq<byte>): (r: Option<Parsed>)
    ensures r.Some? ==> r.value.consumed <= |data| && (count >= 1 ==> r.value.consumed >= 1)
  {
    var declared := DeclaredBytes(length, count);
    if count == 0 then Some(Blob(data, 0))
    else if length > 0 && declared <= |data| then Some(Blob(data, declared))
    else
      var size := ElementSize(prop);
      if size.None? then None
      else
        assert size.value * count >= 1;
        if size.value * count > |data| then None else Some(Blob(data, size.value * count))
  }

  /** One property at the start of what is left, given the numbers decoded before it. */
  function PropertyValue(prop: PropertyMeta, numerics: seq<Option<nat>>, data: seq<byte>): (r: Option<Parsed>)
    ensures r.Some? ==> r.value.consumed <= |data| && (data != [] ==> r.value.consumed >= 1)
  {
    var count := ResolveCount(prop, numerics);
    var length := ResolveLength(prop, numerics);
    if count > 1 then CountedValue(prop, length, count, data) else OneValue(prop, length, data)
  }
}
