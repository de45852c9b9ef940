/**
 Whole events: any list of values on the wire, with lengths and counts taken from earlier fields, is
 decoded to exactly that list (src/etw/schema.rs, `parse_values`).
 */
module EventItems {
  import opened Wrappers
  import opened Bytes
  import opened Sequences
  import opened EventSchema
  import opened EventFields
  import opened EventRoundTrip
  import opened EventWire

  /** A field of an event: the property that describes it and its value on the wire. */
  datatype Item = Item(prop: PropertyMeta, wire: Wire)

  function Props(items: seq<Item>): (props: seq<PropertyMeta>)
    ensures |props| == |items|
    ensures forall i :: 0 <= i < |items| ==> props[i] == items[i].prop
  {
    seq(|items|, i requires 0 <= i < |items| => items[i].prop)
  }

  /** The numbers these fields decode to. */
  function Numbers(items: seq<Item>): (numerics: seq<Option<nat>>)
    ensures |numerics| == |items|
    ensures forall i :: 0 <= i < |items| ==> numerics[i] == Numeric(Shown(items[i].wire))
  {
    seq(|items|, i requires 0 <= i < |items| => Numeric(Shown(items[i].wire)))
  }

  /** The payload. */
  function Joined(items: seq<Item>): (b: seq<byte>)
  {
    if items == [] then [] else OnWire(items[0].wire) + Joined(items[1..])
  }

  function ItemField(item: Item): (f: Field)
  {
    Field(item.prop.name, Shown(item.wire))
  }

  function ItemStep(item: Item): (s: Step)
  {
    Step(ItemField(item), |OnWire(item.wire)|)
  }

  function ItemSteps(items: seq<Item>): (steps: seq<Step>)
    ensures |steps| == |items|
    decreases |items|
  {
    if items == [] then [] else [ItemStep(items[0])] + ItemSteps(items[1..])
  }

  /** The i-th property tells its value's kind, given the numbers of the fields before it. */
  ghost predicate FitsAt(items: seq<Item>, i: nat)
    requires i < |items|
  {
    Fits(items[i].prop, Numbers(items[..i]), items[i].wire)
  }

  ghost predicate FitsAll(items: seq<Item>) {
    forall i :: 0 <= i < |items| ==> FitsAt(items, i)
  }

  lemma {:induction false} NumbersSnoc(items: seq<Item>, k: nat)
    requires k < |items|
    ensures Numbers(items[..k]) + [Numeric(Shown(items[k].wire))] == Numbers(items[..k + 1])
  {
  }

  /** From the k-th field on, with anything behind the last. */
  lemma {:induction false} DecodesFrom(items: seq<Item>, k: nat, rest: seq<byte>)
    requires FitsAll(items) && k <= |items|
    ensures StepsFrom(Props(items), Numbers(items[..k]), Joined(items[k..]) + rest) == ItemSteps(items[k..])
    decreases |items| - k
  {
    var left := items[k..];
    if k < |items| {
      var item, later := items[k], items[k + 1..];
      assert left[0] == item && left[1..] == later;
      var numerics, tail := Numbers(items[..k]), Joined(later) + rest;
      assert Joined(left) + rest == OnWire(item.wire) + tail by {
        ConcatAssoc(OnWire(item.wire), Joined(later), rest);
      }
      assert FitsAt(items, k);
      WireRoundTrip(item.prop, numerics, item.wire, tail);
      NumbersSnoc(items, k);
      DecodesFrom(items, k + 1, rest);
      OneStep(Props(items), numerics, item, tail);
    }
  }

  lemma {:induction false} OneStep(props: seq<PropertyMeta>, numerics: seq<Option<nat>>, item: Item, tail: seq<byte>)
    requires |numerics| < |props| && props[|numerics|] == item.prop
    requires PropertyValue(item.prop, numerics, OnWire(item.wire) + tail)
          == Some(Parsed(Shown(item.wire), |OnWire(item.wire)|))
    ensures StepsFrom(props, numerics, OnWire(item.wire) + tail)
         == [ItemStep(item)] + StepsFrom(props, numerics + [Numeric(Shown(item.wire))], tail)
  {
    var head := OnWire(item.wire);
    assert (head + tail)[|head|..] == tail;
  }

  lemma {:induction false} ItemsConsume(items: seq<Item>)
    ensures Consumed(ItemSteps(items)) == |Joined(items)|
    decreases |items|
  {
    if items != [] {
      ItemsConsume(items[1..]);
      ConsumedCons(ItemStep(items[0]), ItemSteps(items[1..]));
    }
  }

  lemma {:induction false} StepAt(items: seq<Item>, i: nat)
    requires i < |items|
    ensures ItemSteps(items)[i] == ItemStep(items[i])
    decreases |items|
  {
    if i > 0 {
      StepAt(items[1..], i - 1);
    }
  }

  /**
   For every list of values of any kinds, each described by a property whose length and count may come
   from any earlier field: the decoder returns exactly the list, field by field, each field taking its
   own bytes, and consumes the whole payload; bytes behind it are not touched.
   */
  lemma {:induction false} EventDecodes(items: seq<Item>, rest: seq<byte>)
    requires FitsAll(items)
    ensures StepsFrom(Props(items), [], Joined(items) + rest) == ItemSteps(items)
    ensures Consumed(ItemSteps(items)) == |Joined(items)|
    ensures var fields := FieldsOfPayload(Props(items), Joined(items) + rest);
            |fields| == |items| && forall i :: 0 <= i < |items| ==> fields[i] == ItemField(items[i])
  {
    DecodesFrom(items, 0, rest);
    assert items[0..] == items && items[..0] == [];
    ItemsConsume(items);
    forall i | 0 <= i < |items| ensures FieldsOf(ItemSteps(items))[i] == ItemField(items[i]) {
      FieldsOfAt(ItemSteps(items), i);
      StepAt(items, i);
    }
  }

  // ----- references to any earlier field -----

  /** A length that stands in any earlier field is the property's length. */
  lemma LengthAtAnyField(prop: PropertyMeta, numerics: seq<Option<nat>>, k: nat, n: nat)
    requires prop.lengthIndex == Some(k) && k < |numerics| && numerics[k] == Some(n) && n < 0x1_0000
    ensures ResolveLength(prop, numerics) == n
  {
  }

  /** A text whose length stands in any earlier field is read back, whatever the other fields. */
  lemma TextAfterItsLength(prop: PropertyMeta, numerics: seq<Option<nat>>, k: nat, text: string, padding: nat,
                           rest: seq<byte>)
    requires '\0' !in text && (text != "" || padding > 0)
    requires var size := |OnWire(SizedAnsi(text, padding))|;
             && size < 0x1_0000
             && prop.lengthIndex == Some(k) && k < |numerics| && numerics[k] == Some(size)
    requires ResolveCount(prop, numerics) == 1
    requires TextOut(prop.outType) || (prop.outType.OtherOut? && prop.inType.AnsiString?)
    ensures var w := SizedAnsi(text, padding);
            PropertyValue(prop, numerics, OnWire(w) + rest) == Some(Parsed(Text(text), |OnWire(w)|))
  {
    var w: Wire := SizedAnsi(text, padding);
    LengthAtAnyField(prop, numerics, k, |OnWire(w)|);
    assert Fits(prop, numerics, w);
    WireRoundTrip(prop, numerics, w, rest);
  }

  /** An array whose count stands in any earlier field is read back whole, whatever the other fields. */
  lemma ArrayAfterItsCount(
    prop: PropertyMeta, numerics: seq<Option<nat>>, k: nat, count: nat, elements: seq<byte>, rest: seq<byte>)
    requires 1 < count < 0x1_0000 && elements != []
    requires prop.countIndex == Some(k) && k < |numerics| && numerics[k] == Some(count)
    requires ArraySize(prop, ResolveLength(prop, numerics), count, |elements|)
    ensures PropertyValue(prop, numerics, elements + rest) == Some(Parsed(Binary(elements), |elements|))
  {
    var w: Wire := Elements(count, elements);
    assert Fits(prop, numerics, w);
    WireRoundTrip(prop, numerics, w, rest);
  }

  // ----- what a provider writes -----

  function AsWire(d: EventData): (w: Wire)
    requires NulFree(d)
  {
    match d
    case DataU32(n) => Plain(ScU32(n))
    case DataU64(n) => Plain(ScU64(n))
    case DataF32(bits) => Blob(ToLe(bits, 4))
    case DataStr(text) => Wide(text)
  }

  /** The four kinds a provider writes are among the kinds here, with the same bytes, meaning and properties. */
  lemma WrittenIsWire(prop: PropertyMeta, numerics: seq<Option<nat>>, d: EventData)
    requires NulFree(d)
    ensures OnWire(AsWire(d)) == Encode(d) && Shown(AsWire(d)) == Meaning(d)
    ensures Describes(prop, d) ==> Fits(prop, numerics, AsWire(d))
  {
  }
}
