/**
 What a provider writes (`EventData::encode`, src/etw/provider.rs) is what a consumer decodes
 (`parse_values`, src/etw/schema.rs).
 */
module EventRoundTrip {
  import opened Wrappers
  import opened Bytes
  import opened Sequences
  import opened Unicode
  import opened EventText
  import opened EventSchema
  import opened EventFields

  /** One field of an event; a float is known by its bits. */
  datatype EventData = DataU32(n: u32) | DataU64(wide: u64) | DataF32(bits: u32) | DataStr(text: string)

  function WideBytes(units: seq<u16>): (b: seq<byte>)
    ensures |b| == 2 * |units|
  {
    if units == [] then [] else ToLe(units[0], 2) + WideBytes(units[1..])
  }

  /** Strings are written in UTF-16 with a NUL at the end. */
  function Encode(d: EventData): (b: seq<byte>)
    ensures |b| >= 2
  {
    match d
    case DataU32(n) => ToLe(n, 4)
    case DataU64(n) => ToLe(n, 8)
    case DataF32(bits) => ToLe(bits, 4)
    case DataStr(text) => WideBytes(EncodeUtf16(text)) + [0, 0]
  }

  function EncodeAll(fields: seq<EventData>): (b: seq<byte>)
  {
    if fields == [] then [] else Encode(fields[0]) + EncodeAll(fields[1..])
  }

  /** What a consumer should see: the decoder has no float type and shows the bytes. */
  function Meaning(d: EventData): (v: Value)
  {
    match d
    case DataU32(n) => U32(n)
    case DataU64(n) => U64(n)
    case DataF32(bits) => Binary(ToLe(bits, 4))
    case DataStr(text) => Text(text)
  }

  predicate NulFree(d: EventData) {
    d.DataStr? ==> '\0' !in d.text
  }

  predicate TextOut(t: OutType) {
    t.OutUtf8? || t.OutString? || t.OutJson? || t.OutXml? || t.OutReducedString?
  }

  /** The manifest's property for such a field: its in-type, no array, no references, no special rendering. */
  predicate Describes(prop: PropertyMeta, d: EventData) {
    && prop.count <= 1 && prop.countIndex.None? && prop.lengthIndex.None?
    && (prop.outType.OtherOut? || (TextOut(prop.outType) && prop.length == 0))
    && match d
       case DataU32(_) => prop.inType.UInt32? && prop.length <= 4
       case DataU64(_) => prop.inType.UInt64? && prop.length <= 8
       case DataF32(_) => prop.inType.OtherIn? && prop.length == 4
       case DataStr(_) => prop.inType.UnicodeString? && prop.length <= 1
  }

  ghost predicate DescribesAll(props: seq<PropertyMeta>, fields: seq<EventData>) {
    |props| == |fields| && forall i :: 0 <= i < |props| ==> Describes(props[i], fields[i])
  }

  ghost predicate AllNulFree(fields: seq<EventData>) {
    forall i :: 0 <= i < |fields| ==> NulFree(fields[i])
  }

  /** The fields a consumer should see. */
  function Expected(props: seq<PropertyMeta>, fields: seq<EventData>): (r: seq<Field>)
    requires |props| == |fields|
  {
    seq(|props|, i requires 0 <= i < |props| => Field(props[i].name, Meaning(fields[i])))
  }

  // ----- one field -----

  lemma NumberRoundTrip(n: nat, k: nat, rest: seq<byte>)
    requires n < Pow256(k)
    ensures LeNat((ToLe(n, k) + rest)[..k]) == n
  {
    LeNatOfToLe(n, k);
    assert (ToLe(n, k) + rest)[..k] == ToLe(n, k);
  }

  lemma WideUnitsCons(low: byte, high: byte, rest: seq<byte>)
    ensures WideUnits([low, high] + rest) == [low as int + 0x100 * (high as int)] + WideUnits(rest)
  {
    assert ([low, high] + rest)[2..] == rest;
  }

  lemma ToLe2(u: u16)
    ensures ToLe(u, 2) == [u % 0x100, u / 0x100]
  {
    assert ToLe(u, 2) == [u % 0x100] + ToLe(u / 0x100, 1);
    assert ToLe(u / 0x100, 1) == [u / 0x100 % 0x100] + ToLe(u / 0x100 / 0x100, 0);
  }

  /** The units written are the units read, whatever follows them. */
  lemma {:induction false} UnitsOfBytes(units: seq<u16>, rest: seq<byte>)
    ensures WideUnits(WideBytes(units) + rest) == units + WideUnits(rest)
  {
    if units == [] {
      assert WideBytes(units) + rest == rest;
    } else {
      var u, later := units[0], units[1..];
      var tail := WideBytes(later) + rest;
      UnitsOfBytes(later, rest);
      ToLe2(u);
      WideUnitsCons(u % 0x100, u / 0x100, tail);
      ConcatAssoc([u % 0x100, u / 0x100], WideBytes(later), rest);
      ConcatAssoc([u], later, WideUnits(rest));
      assert units == [u] + later;
    }
  }

  /** The units of a NUL-terminated string. */
  lemma UnitsOfString(units: seq<u16>, rest: seq<byte>)
    ensures WideUnits(WideBytes(units) + [0, 0] + rest) == units + [0] + WideUnits(rest)
  {
    UnitsOfBytes(units, [0, 0] + rest);
    WideUnitsCons(0, 0, rest);
    assert WideBytes(units) + [0, 0] + rest == WideBytes(units) + ([0, 0] + rest);
    assert units + [0] + WideUnits(rest) == units + ([0] + WideUnits(rest));
  }

  /** A length of zero, an odd one, or one beyond the data is refused. */
  lemma Utf16SizedRefuses(data: seq<byte>, byteLen: nat)
    ensures Utf16Sized(data, byteLen).None? <==> byteLen == 0 || byteLen % 2 == 1 || byteLen > |data|
  {
  }

  /** A string decodes to its part before the first NUL unit. */
  lemma StringDecodes(text: string, rest: seq<byte>)
    ensures var units := EncodeUtf16(text);
            var n := BeforeNul(units);
            Utf16CStr(Encode(DataStr(text)) + rest) == Some((DecodeUtf16Lossy(units[..n]), 2 * (n + 1)))
  {
    var units := EncodeUtf16(text);
    var n := BeforeNul(units);
    var data := Encode(DataStr(text)) + rest;
    UnitsOfString(units, rest);
    var all := units + [0] + WideUnits(rest);
    BeforeNulIs(all, n);
    assert all[..n] == units[..n];
  }

  lemma {:induction false} NoNulDecoded(units: seq<u16>)
    requires 0 !in units
    ensures '\0' !in DecodeUtf16Lossy(units)
    decreases |units|
  {
    if units != [] {
      NoNulDecoded(units[1..]);
      if |units| > 1 {
        NoNulDecoded(units[2..]);
      }
    }
  }

  /** A string comes back exactly if it holds no NUL. */
  lemma StringRoundTripIff(text: string, rest: seq<byte>)
    ensures var r := Utf16CStr(Encode(DataStr(text)) + rest);
            && r.Some? && (r.value.0 == text <==> '\0' !in text)
            && ('\0' !in text ==> r.value.1 == |Encode(DataStr(text))|)
  {
    var units := EncodeUtf16(text);
    var n := BeforeNul(units);
    StringDecodes(text, rest);
    NulUnitsAreNulChars(text);
    if '\0' in text {
      assert 0 !in units[..n];
      NoNulDecoded(units[..n]);
    } else {
      assert n == |units| && units[..n] == units;
      Utf16RoundTrip(text);
    }
  }

  /** Such a property is decoded by its in-type, whatever was decoded before it. */
  lemma DecodedByInType(prop: PropertyMeta, numerics: seq<Option<nat>>, d: EventData, data: seq<byte>)
    requires Describes(prop, d)
    ensures PropertyValue(prop, numerics, data) == InTypeValue(prop.inType, prop.length, data)
  {
  }

  lemma NumberFieldRoundTrip(inType: InType, length: nat, d: EventData, rest: seq<byte>)
    requires d.DataU32? ==> inType.UInt32? && length <= 4
    requires d.DataU64? ==> inType.UInt64? && length <= 8
    requires d.DataF32? ==> inType.OtherIn? && length == 4
    requires !d.DataStr?
    ensures InTypeValue(inType, length, Encode(d) + rest) == Some(Parsed(Meaning(d), |Encode(d)|))
  {
    Pow256Sizes();
    match d
    case DataU32(n) => NumberRoundTrip(n, 4, rest);
    case DataU64(n) => NumberRoundTrip(n, 8, rest);
    case DataF32(bits) => assert (ToLe(bits, 4) + rest)[..4] == ToLe(bits, 4);
  }

  /** One field comes back, and takes exactly its own bytes, exactly if it holds no NUL. */
  lemma FieldRoundTrip(prop: PropertyMeta, numerics: seq<Option<nat>>, d: EventData, rest: seq<byte>)
    requires Describes(prop, d)
    ensures var r := PropertyValue(prop, numerics, Encode(d) + rest);
            && r.Some? && (r.value.value == Meaning(d) <==> NulFree(d))
            && (NulFree(d) ==> r.value.consumed == |Encode(d)|)
  {
    DecodedByInType(prop, numerics, d, Encode(d) + rest);
    if d.DataStr? {
      StringRoundTripIff(d.text, rest);
    } else {
      NumberFieldRoundTrip(prop.inType, prop.length, d, rest);
    }
  }

  // ----- whole events -----

  /** The steps show the fields from the k-th on. */
  ghost predicate Shows(steps: seq<Step>, props: seq<PropertyMeta>, fields: seq<EventData>, k: nat)
    requires k <= |props| == |fields|
    decreases |props| - k
  {
    if k == |props| then steps == []
    else
      && steps != []
      && steps[0].field == Field(props[k].name, Meaning(fields[k]))
      && Shows(steps[1..], props, fields, k + 1)
  }

  lemma {:induction false} ShowsCons(
    step: Step, tail: seq<Step>, props: seq<PropertyMeta>, fields: seq<EventData>, k: nat)
    requires k < |props| == |fields|
    ensures Shows([step] + tail, props, fields, k) <==>
            step.field == Field(props[k].name, Meaning(fields[k])) && Shows(tail, props, fields, k + 1)
  {
    assert ([step] + tail)[1..] == tail;
  }

  lemma {:induction false} ShowsIff(steps: seq<Step>, props: seq<PropertyMeta>, fields: seq<EventData>, k: nat)
    requires k <= |props| == |fields|
    ensures Shows(steps, props, fields, k) <==>
            && |steps| == |props| - k
            && forall i :: 0 <= i < |steps| ==> steps[i].field == Field(props[k + i].name, Meaning(fields[k + i]))
    decreases |props| - k
  {
    if k < |props| && steps != [] {
      var tail := steps[1..];
      ShowsIff(tail, props, fields, k + 1);
      if Shows(steps, props, fields, k) {
        forall i | 0 <= i < |steps| ensures steps[i].field == Field(props[k + i].name, Meaning(fields[k + i])) {
          if i > 0 {
            assert steps[i] == tail[i - 1];
          }
        }
      }
    }
  }

  lemma {:induction false} ConsumedCons(step: Step, tail: seq<Step>)
    ensures Consumed([step] + tail) == step.consumed + Consumed(tail)
    decreases |tail|
  {
    var all := [step] + tail;
    if tail == [] {
      assert all[..0] == [];
    } else {
      var init := tail[..|tail| - 1];
      ConsumedCons(step, init);
      assert all[..|all| - 1] == [step] + init;
    }
  }

  /** The first step from the k-th field on, and what is left for the others. */
  lemma StepHead(props: seq<PropertyMeta>, fields: seq<EventData>, numerics: seq<Option<nat>>)
    returns (step: Step, tail: seq<Step>)
    requires DescribesAll(props, fields) && |numerics| < |props|
    ensures var k := |numerics|;
            && StepsFrom(props, numerics, EncodeAll(fields[k..])) == [step] + tail
            && (step.field == Field(props[k].name, Meaning(fields[k])) <==> NulFree(fields[k]))
            && (NulFree(fields[k]) ==>
                  && step.consumed + |EncodeAll(fields[k + 1..])| == |EncodeAll(fields[k..])|
                  && tail == StepsFrom(props, numerics + [Numeric(step.field.value)], EncodeAll(fields[k + 1..])))
  {
    var k := |numerics|;
    var left := fields[k..];
    var d, rest := fields[k], EncodeAll(fields[k + 1..]);
    assert left[0] == d && left[1..] == fields[k + 1..];
    var data := Encode(d) + rest;
    assert EncodeAll(left) == data;
    FieldRoundTrip(props[k], numerics, d, rest);
    var p := PropertyValue(props[k], numerics, data).value;
    step := Step(Field(props[k].name, p.value), p.consumed);
    tail := StepsFrom(props, numerics + [Numeric(p.value)], data[p.consumed..]);
    if NulFree(d) {
      assert data[p.consumed..] == rest;
    }
  }

  /** These steps show the fields from the k-th on exactly if none holds a NUL, and then take all their bytes. */
  ghost predicate ComesBack(steps: seq<Step>, props: seq<PropertyMeta>, fields: seq<EventData>, k: nat)
    requires k <= |props| == |fields|
  {
    && (Shows(steps, props, fields, k) <==> AllNulFree(fields[k..]))
    && (AllNulFree(fields[k..]) ==> Consumed(steps) == |EncodeAll(fields[k..])|)
  }

  lemma {:induction false} RoundTripCons(
    props: seq<PropertyMeta>, fields: seq<EventData>, k: nat, step: Step, tail: seq<Step>)
    requires k < |props| == |fields|
    requires step.field == Field(props[k].name, Meaning(fields[k])) <==> NulFree(fields[k])
    requires NulFree(fields[k]) ==>
               && step.consumed + |EncodeAll(fields[k + 1..])| == |EncodeAll(fields[k..])|
               && ComesBack(tail, props, fields, k + 1)
    ensures ComesBack([step] + tail, props, fields, k)
  {
    NulFreeCons(fields, k);
    ShowsCons(step, tail, props, fields, k);
    ConsumedCons(step, tail);
  }

  /** Step by step: a field without NUL is shown and takes its own bytes, and the next step is the next field's. */
  ghost predicate Follows(steps: seq<Step>, props: seq<PropertyMeta>, fields: seq<EventData>, k: nat)
    requires k <= |props| == |fields|
    decreases |props| - k
  {
    if k == |props| then steps == []
    else
      && steps != []
      && (steps[0].field == Field(props[k].name, Meaning(fields[k])) <==> NulFree(fields[k]))
      && (NulFree(fields[k]) ==>
            && steps[0].consumed + |EncodeAll(fields[k + 1..])| == |EncodeAll(fields[k..])|
            && Follows(steps[1..], props, fields, k + 1))
  }

  lemma {:induction false} FollowsCons(
    step: Step, tail: seq<Step>, props: seq<PropertyMeta>, fields: seq<EventData>, k: nat)
    requires k < |props| == |fields|
    requires step.field == Field(props[k].name, Meaning(fields[k])) <==> NulFree(fields[k])
    requires NulFree(fields[k]) ==>
               && step.consumed + |EncodeAll(fields[k + 1..])| == |EncodeAll(fields[k..])|
               && Follows(tail, props, fields, k + 1)
    ensures Follows([step] + tail, props, fields, k)
  {
    assert ([step] + tail)[1..] == tail;
  }

  lemma {:induction false} StepsFollow(props: seq<PropertyMeta>, fields: seq<EventData>, numerics: seq<Option<nat>>)
    requires DescribesAll(props, fields) && |numerics| <= |props|
    ensures Follows(StepsFrom(props, numerics, EncodeAll(fields[|numerics|..])), props, fields, |numerics|)
    decreases |props| - |numerics|
  {
    var k := |numerics|;
    if k < |props| {
      var step, tail := StepHead(props, fields, numerics);
      if NulFree(fields[k]) {
        var more := numerics + [Numeric(step.field.value)];
        StepsFollow(props, fields, more);
        assert |more| == k + 1;
      }
      FollowsCons(step, tail, props, fields, k);
    }
  }

  lemma {:induction false} FollowingComesBack(
    steps: seq<Step>, props: seq<PropertyMeta>, fields: seq<EventData>, k: nat)
    requires k <= |props| == |fields| && Follows(steps, props, fields, k)
    ensures ComesBack(steps, props, fields, k)
    decreases |props| - k
  {
    if k < |props| {
      var tail := steps[1..];
      assert steps == [steps[0]] + tail;
      if NulFree(fields[k]) {
        FollowingComesBack(tail, props, fields, k + 1);
      }
      RoundTripCons(props, fields, k, steps[0], tail);
    }
  }

  lemma NulFreeCons(fields: seq<EventData>, k: nat)
    requires k < |fields|
    ensures AllNulFree(fields[k..]) <==> NulFree(fields[k]) && AllNulFree(fields[k + 1..])
  {
    var left, after := fields[k..], fields[k + 1..];
    if AllNulFree(left) {
      assert NulFree(left[0]);
      forall i | 0 <= i < |after| ensures NulFree(after[i]) {
        assert NulFree(left[i + 1]);
      }
    }
  }

  /**
   For every list of fields and a schema that describes it, the decoder returns the fields that were
   written exactly if no string holds a NUL; then every byte is consumed.
   */
  lemma EventRoundTripIff(props: seq<PropertyMeta>, fields: seq<EventData>)
    requires DescribesAll(props, fields)
    ensures FieldsOfPayload(props, EncodeAll(fields)) == Expected(props, fields) <==> AllNulFree(fields)
    ensures AllNulFree(fields) ==> Consumed(StepsFrom(props, [], EncodeAll(fields))) == |EncodeAll(fields)|
  {
    StepsFollow(props, fields, []);
    assert fields[0..] == fields;
    var steps := StepsFrom(props, [], EncodeAll(fields));
    FollowingComesBack(steps, props, fields, 0);
    ShowsIsExpected(steps, props, fields);
  }

  lemma ShowsIsExpected(steps: seq<Step>, props: seq<PropertyMeta>, fields: seq<EventData>)
    requires |props| == |fields|
    ensures Shows(steps, props, fields, 0) <==> FieldsOf(steps) == Expected(props, fields)
  {
    var shown, expected := FieldsOf(steps), Expected(props, fields);
    forall i | 0 <= i < |steps| ensures shown[i] == steps[i].field {
      FieldsOfAt(steps, i);
    }
    ShowsIff(steps, props, fields, 0);
    if shown == expected {
      forall i | 0 <= i < |steps| ensures steps[i].field == Field(props[i].name, Meaning(fields[i])) {
        assert shown[i] == expected[i];
      }
    }
  }
}
