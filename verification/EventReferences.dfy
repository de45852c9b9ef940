/**
 Lengths and counts that an ETW payload keeps in earlier fields (src/etw/schema.rs, `resolve_length`,
 `resolve_count`, `extract_numeric_value`), from the wire to the decoded event.
 */
module EventReferences {
  import opened Wrappers
  import opened Bytes
  import opened Unicode
  import opened EventSchema
  import opened EventFields
  import opened EventRoundTrip
  import opened EventWire
  import opened EventItems

  // ----- a referenced length or count is like a fixed one -----

  /** Field k holds the number n, below 2^16. */
  predicate Refers(values: seq<Value>, index: Option<nat>, n: nat) {
    index.Some? && index.value < |values| && CountsAs(values[index.value], n) && n < 0x1_0000
  }

  /**
   The property with its references replaced by what they stand for: a length that refers to no such number is
   the property's own, a count that refers to none is 1.
   */
  ghost predicate Fixes(prop: PropertyMeta, values: seq<Value>, fixed: PropertyMeta) {
    && fixed == prop.(lengthIndex := None, countIndex := None, length := fixed.length, count := fixed.count)
    && (forall n: nat :: Refers(values, prop.lengthIndex, n) ==> fixed.length == n)
    && ((forall n: nat :: !Refers(values, prop.lengthIndex, n)) ==> fixed.length == prop.length)
    && (forall n: nat :: Refers(values, prop.countIndex, n) ==> fixed.count == n)
    && ((forall n: nat :: !Refers(values, prop.countIndex, n)) ==>
          fixed.count == if prop.countIndex.None? then prop.count else 1)
  }

  function ValuesOf(steps: seq<Step>): (values: seq<Value>)
    ensures |values| == |steps| && forall i :: 0 <= i < |steps| ==> values[i] == steps[i].field.value
  {
    seq(|steps|, i requires 0 <= i < |steps| => steps[i].field.value)
  }

  lemma {:induction false} NumericsAt(steps: seq<Step>, i: nat)
    requires i < |steps|
    ensures NumericsOf(steps)[i] == Numeric(steps[i].field.value)
    decreases |steps|
  {
    if i < |steps| - 1 {
      NumericsAt(steps[..|steps| - 1], i);
    }
  }

  lemma ReferencedIff(steps: seq<Step>, index: nat, n: nat)
    ensures Referenced(index, NumericsOf(steps)) == Some(n) <==> Refers(ValuesOf(steps), Some(index), n)
  {
    if index < |steps| {
      NumericsAt(steps, index);
      NumericIff(steps[index].field.value, n);
    }
  }

  lemma FixedLengthIs(prop: PropertyMeta, steps: seq<Step>, fixed: PropertyMeta)
    requires Fixes(prop, ValuesOf(steps), fixed)
    ensures ResolveLength(prop, NumericsOf(steps)) == fixed.length
  {
    if prop.lengthIndex.Some? {
      var found := Referenced(prop.lengthIndex.value, NumericsOf(steps));
      if found.Some? {
        ReferencedIff(steps, prop.lengthIndex.value, found.value);
      } else {
        forall n: nat ensures !Refers(ValuesOf(steps), prop.lengthIndex, n) {
          ReferencedIff(steps, prop.lengthIndex.value, n);
        }
      }
    }
  }

  lemma FixedCountIs(prop: PropertyMeta, steps: seq<Step>, fixed: PropertyMeta)
    requires Fixes(prop, ValuesOf(steps), fixed)
    ensures ResolveCount(prop, NumericsOf(steps)) == if fixed.count == 0 then 1 else fixed.count
  {
    if prop.countIndex.Some? {
      var found := Referenced(prop.countIndex.value, NumericsOf(steps));
      if found.Some? {
        ReferencedIff(steps, prop.countIndex.value, found.value);
      } else {
        forall n: nat ensures !Refers(ValuesOf(steps), prop.countIndex, n) {
          ReferencedIff(steps, prop.countIndex.value, n);
        }
      }
    }
  }

  /** Only the resolved length and count of a property matter. */
  lemma SameResolved(prop: PropertyMeta, numerics: seq<Option<nat>>, fixed: PropertyMeta, data: seq<byte>)
    requires fixed == prop.(lengthIndex := None, countIndex := None, length := fixed.length, count := fixed.count)
    requires ResolveLength(prop, numerics) == fixed.length
    requires ResolveCount(prop, numerics) == if fixed.count == 0 then 1 else fixed.count
    ensures PropertyValue(prop, numerics, data) == PropertyValue(fixed, [], data)
  {
  }

  /**
   For every schema and payload: each field is what its property, with the lengths and counts that earlier
   fields hold put in their place, decodes right after those fields.
   */
  lemma ReferencesAreFixed(props: seq<PropertyMeta>, data: seq<byte>, i: nat, fixed: PropertyMeta)
    requires var steps := StepsFrom(props, [], data);
             i < |steps| && |steps| <= |props| && Fixes(props[i], ValuesOf(steps[..i]), fixed)
    ensures var steps := StepsFrom(props, [], data);
            && Consumed(steps[..i]) <= |data|
            && PropertyValue(fixed, [], data[Consumed(steps[..i])..])
               == Some(Parsed(steps[i].field.value, steps[i].consumed))
  {
    var steps := StepsFrom(props, [], data);
    FieldsTilePrefix(props, data);
    assert StepFits(props, data, steps, i);
    FixedLengthIs(props[i], steps[..i], fixed);
    FixedCountIs(props[i], steps[..i], fixed);
    SameResolved(props[i], NumericsOf(steps[..i]), fixed, data[Consumed(steps[..i])..]);
  }

  /** Without references, a count of 0 or 1 is one value of the property's length, a larger one an array. */
  lemma FixedPropertyIs(prop: PropertyMeta, data: seq<byte>)
    requires prop.lengthIndex.None? && prop.countIndex.None?
    ensures prop.count <= 1 ==> PropertyValue(prop, [], data) == OneValue(prop, prop.length, data)
    ensures prop.count > 1 ==> PropertyValue(prop, [], data) == CountedValue(prop, prop.length, prop.count, data)
  {
  }

  // ----- whole events -----

  /** The number that a value on the wire stands for: scalars, and ports, process IDs and flags. */
  predicate WireNumber(w: Wire, n: nat) {
    match w
    case Plain(ScU8(m)) => n == m
    case Plain(ScU16(m)) => n == m
    case Plain(ScU32(m)) => n == m
    case Plain(ScU64(m)) => n == m
    case Plain(ScI32(i)) => i >= 0 && n == i
    case Plain(ScI64(i)) => i >= 0 && n == i
    case Plain(ScBool(b)) => if b then n == 1 else n == 0
    case Plain(ScPointer32(m)) => n == m
    case Plain(ScPointer64(m)) => n == m
    case Plain(ScFileTime(m)) => n == m
    case Styled(RPort(m)) => n == m
    case Styled(RPid(m)) => n == m
    case Styled(RFlag1(b)) => if b then n == 1 else n == 0
    case Styled(RFlag4(b)) => if b then n == 1 else n == 0
    case _ => false
  }

  /** A field that refers to no other and is told by its own property. */
  ghost predicate Plainly(item: Item) {
    item.prop.lengthIndex.None? && item.prop.countIndex.None? && Fits(item.prop, [], item.wire)
  }

  /** All fields but the m-th refer to no other. */
  ghost predicate OthersPlain(items: seq<Item>, m: nat) {
    m < |items| && forall i :: 0 <= i < |items| && i != m ==> Plainly(items[i])
  }

  /** And the k-th, before it, stands for n, below 2^16. */
  ghost predicate OneReference(items: seq<Item>, k: nat, m: nat, n: nat) {
    OthersPlain(items, m) && k < m && n < 0x1_0000 && WireNumber(items[k].wire, n)
  }

  lemma PlainlyFits(item: Item, numerics: seq<Option<nat>>)
    requires Plainly(item)
    ensures Fits(item.prop, numerics, item.wire)
  {
  }

  lemma NumberOnWire(items: seq<Item>, k: nat, m: nat, n: nat)
    requires OneReference(items, k, m, n)
    ensures Numbers(items[..m])[k] == Some(n)
  {
    NumericIff(Shown(items[k].wire), n);
  }

  lemma {:induction false} OthersPlainDecodes(items: seq<Item>, m: nat, rest: seq<byte>)
    requires OthersPlain(items, m) && Fits(items[m].prop, Numbers(items[..m]), items[m].wire)
    ensures var fields := FieldsOfPayload(Props(items), Joined(items) + rest);
            |fields| == |items| && forall i :: 0 <= i < |items| ==> fields[i] == ItemField(items[i])
  {
    forall i | 0 <= i < |items| ensures FitsAt(items, i) {
      if i != m {
        PlainlyFits(items[i], Numbers(items[..i]));
      }
    }
    EventDecodes(items, rest);
  }

  /**
   A text or blob of n bytes whose length stands in an earlier field of any numeric type: the whole event is
   decoded, that field, all fields before it and all behind it.
   */
  lemma {:induction false} LengthOnTheWire(items: seq<Item>, k: nat, m: nat, n: nat, rest: seq<byte>)
    requires OneReference(items, k, m, n)
    requires items[m].wire.SizedAnsi? || items[m].wire.SizedWide? || items[m].wire.Blob?
    requires FormType(items[m].wire, items[m].prop.inType, n) && items[m].prop.outType.OtherOut?
    requires items[m].prop.lengthIndex == Some(k) && items[m].prop.countIndex.None? && items[m].prop.count <= 1
    ensures var fields := FieldsOfPayload(Props(items), Joined(items) + rest);
            |fields| == |items| && forall i :: 0 <= i < |items| ==> fields[i] == ItemField(items[i])
  {
    NumberOnWire(items, k, m, n);
    OthersPlainDecodes(items, m, rest);
  }

  /** An array of n elements of known size whose count stands in an earlier field of any numeric type, likewise. */
  lemma {:induction false} CountOnTheWire(items: seq<Item>, k: nat, m: nat, n: nat, size: nat, rest: seq<byte>)
    requires OneReference(items, k, m, n)
    requires items[m].wire.Elements? && items[m].wire.count == n && |items[m].wire.elements| == size * n
    requires items[m].prop.countIndex == Some(k) && items[m].prop.lengthIndex.None? && items[m].prop.length == 0
    requires BytesOfElement(items[m].prop, size)
    ensures var fields := FieldsOfPayload(Props(items), Joined(items) + rest);
            |fields| == |items| && forall i :: 0 <= i < |items| ==> fields[i] == ItemField(items[i])
  {
    NumberOnWire(items, k, m, n);
    ElementSizeIff(items[m].prop, size);
    OthersPlainDecodes(items, m, rest);
  }

  /** The k-th field, if it comes before the m-th at all, stands for no number below 2^16. */
  ghost predicate NoReference(items: seq<Item>, k: nat, m: nat) {
    OthersPlain(items, m) && (k < m ==> forall n: nat :: n < 0x1_0000 ==> !WireNumber(items[k].wire, n))
  }

  lemma NothingOnWire(items: seq<Item>, k: nat, m: nat)
    requires NoReference(items, k, m)
    ensures Referenced(k, Numbers(items[..m])).None?
  {
    if k < m && Numbers(items[..m])[k].Some? {
      var n := Numbers(items[..m])[k].value;
      NumericIff(Shown(items[k].wire), n);
      assert WireNumber(items[k].wire, n);
    }
  }

  /**
   A reference to a negative number, to one of 2^16 and more, to a text or to a later field falls back: to the
   property's own length, and to a count of 1.
   */
  lemma {:induction false} FallbackOnTheWire(items: seq<Item>, k: nat, m: nat, rest: seq<byte>)
    requires NoReference(items, k, m)
    requires items[m].prop.lengthIndex == Some(k) || items[m].prop.lengthIndex.None?
    requires items[m].prop.countIndex == Some(k) || (items[m].prop.countIndex.None? && items[m].prop.count <= 1)
    requires FormType(items[m].wire, items[m].prop.inType, items[m].prop.length) && items[m].prop.outType.OtherOut?
    ensures var fields := FieldsOfPayload(Props(items), Joined(items) + rest);
            |fields| == |items| && forall i :: 0 <= i < |items| ==> fields[i] == ItemField(items[i])
  {
    NothingOnWire(items, k, m);
    OthersPlainDecodes(items, m, rest);
  }

  /** The bytes of one element: the out-type decides for addresses, else the in-type. */
  predicate BytesOfElement(prop: PropertyMeta, size: nat) {
    if prop.outType.OutIpV4? then size == 4
    else if prop.outType.OutIpV6? then size == 16
    else
      || (size == 1 && prop.inType.UInt8?)
      || (size == 2 && prop.inType.UInt16?)
      || (size == 4 && (prop.inType.UInt32? || prop.inType.Int32? || prop.inType.Boolean? || prop.inType.HexInt32?))
      || (size == 8 && (prop.inType.UInt64? || prop.inType.Int64? || prop.inType.PointerType? || prop.inType.FileTime?
                        || prop.inType.HexInt64?))
      || (size == 16 && prop.inType.GuidType?)
  }

  lemma ElementSizeIff(prop: PropertyMeta, size: nat)
    ensures ElementSize(prop) == Some(size) <==> BytesOfElement(prop, size)
  {
  }

  // ----- an event in bytes -----

  /** A 32-bit length, a text of that length, and a byte behind it. */
  const LENGTH := PropertyMeta("len", UInt32, OtherOut, 0, 1, None, None, None)
  const NAME := PropertyMeta("name", AnsiString, OtherOut, 0, 1, None, Some(0), None)
  const FLAG := PropertyMeta("flag", UInt8, OtherOut, 0, 1, None, None, None)

  lemma AbcOctets()
    ensures EncodeUtf8("abc") == [0x61, 0x62, 0x63]
  {
    assert Octets('a') == [0x61] && Octets('b') == [0x62] && Octets('c') == [0x63];
    assert "abc"[1..] == "bc" && "bc"[1..] == "c" && "c"[1..] == "";
    assert EncodeUtf8("c") == Octets('c') + EncodeUtf8("");
    assert EncodeUtf8("bc") == Octets('b') + EncodeUtf8("c");
  }

  lemma KnownItems(items: seq<Item>)
    requires items == [Item(LENGTH, Plain(ScU32(3))), Item(NAME, SizedAnsi("abc", 0)), Item(FLAG, Plain(ScU8(7)))]
    ensures var fields := FieldsOfPayload(Props(items), Joined(items) + []);
            fields == [Field("len", U32(3)), Field("name", Text("abc")), Field("flag", U8(7))]
  {
    AbcOctets();
    LengthOnTheWire(items, 0, 1, 3, []);
  }

  lemma KnownBytes(items: seq<Item>)
    requires items == [Item(LENGTH, Plain(ScU32(3))), Item(NAME, SizedAnsi("abc", 0)), Item(FLAG, Plain(ScU8(7)))]
    ensures Joined(items) == [3, 0, 0, 0, 0x61, 0x62, 0x63, 7]
  {
    AbcOctets();
    LowBytes(3);
    assert ToLe(7, 1) == [7] + ToLe(0, 0);
    assert items[1..][1..] == [items[2]] && items[1..][1..][1..] == [];
    assert Joined([items[2]]) == OnWire(items[2].wire) + [];
    assert Joined(items[1..]) == OnWire(items[1].wire) + Joined([items[2]]);
  }

  /** 03 00 00 00 61 62 63 07 is a length of 3, "abc" and 7. */
  lemma KnownEvent()
    ensures FieldsOfPayload([LENGTH, NAME, FLAG], [3, 0, 0, 0, 0x61, 0x62, 0x63, 7])
         == [Field("len", U32(3)), Field("name", Text("abc")), Field("flag", U8(7))]
  {
    var items: seq<Item> :=
      [Item(LENGTH, Plain(ScU32(3))), Item(NAME, SizedAnsi("abc", 0)), Item(FLAG, Plain(ScU8(7)))];
    KnownItems(items);
    KnownBytes(items);
    assert Joined(items) + [] == Joined(items);
    assert Props(items) == [LENGTH, NAME, FLAG];
  }
}
