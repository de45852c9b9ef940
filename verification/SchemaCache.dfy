/**
 The per-session cache of the ETW decoder (src/etw/schema.rs): schemas by event key, value maps by
 name, and the labels that maps put in place of decoded values.
 */
module SchemaCache {
  import opened Wrappers
  import opened Bytes
  import opened EventSchema
  import opened EventFields
  import opened Memo

  datatype SchemaKey = SchemaKey(provider: nat, id: u16, opcode: byte, version: byte, level: byte)

  /** An event record; `moment` stands for all the rest that the system may look at. */
  datatype EventRecord = EventRecord(key: SchemaKey, payload: seq<byte>, moment: nat)

  type Schema = seq<PropertyMeta>

  datatype MapKind = ValueMap | Bitmap

  datatype MapKey = NumericKey(n: nat) | TextKey(text: string)

  datatype MapEntry = MapEntry(key: MapKey, caption: string)

  datatype MapDefinition = MapDefinition(kind: MapKind, entries: seq<MapEntry>)

  /** A map asked for by name while a record is decoded. */
  datatype MapQuery = MapQuery(record: EventRecord, name: string)

  /** What the system's event-information calls answer; they may fail, and may answer differently each time. */
  datatype Tdh = Tdh(schema: EventRecord -> Option<Schema>, eventMap: MapQuery -> Option<MapDefinition>)

  function KeyOf(record: EventRecord): (key: SchemaKey)
  {
    record.key
  }

  function NameOf(query: MapQuery): (name: string)
  {
    query.name
  }

  // ----- labels -----

  /** `value & bits == bits`, bit by bit. */
  predicate HasBits(value: nat, bits: nat) {
    bits == 0 || ((bits % 2 == 1 ==> value % 2 == 1) && HasBits(value / 2, bits / 2))
  }

  /** Binary digit k of n. */
  function Bit(n: nat, k: nat): (b: nat)
  {
    if k == 0 then n % 2 else Bit(n / 2, k - 1)
  }

  ghost predicate EachBit(value: nat, bits: nat) {
    forall k: nat :: Bit(bits, k) == 1 ==> Bit(value, k) == 1
  }

  lemma {:induction false} EachBitHalves(value: nat, bits: nat)
    ensures EachBit(value, bits) <==> (bits % 2 == 1 ==> value % 2 == 1) && EachBit(value / 2, bits / 2)
  {
    if EachBit(value, bits) {
      assert Bit(bits, 0) == 1 ==> Bit(value, 0) == 1;
      forall k: nat | Bit(bits / 2, k) == 1 ensures Bit(value / 2, k) == 1 {
        assert Bit(bits, k + 1) == 1 ==> Bit(value, k + 1) == 1;
      }
    }
    if (bits % 2 == 1 ==> value % 2 == 1) && EachBit(value / 2, bits / 2) {
      forall k: nat | Bit(bits, k) == 1 ensures Bit(value, k) == 1 {
        if k > 0 {
          assert Bit(bits / 2, k - 1) == 1 ==> Bit(value / 2, k - 1) == 1;
        }
      }
    }
  }

  /** All the bits are set exactly if each of them is. */
  lemma {:induction false} HasBitsIff(value: nat, bits: nat)
    ensures HasBits(value, bits) <==> EachBit(value, bits)
    decreases bits
  {
    if bits == 0 {
      forall k: nat ensures Bit(bits, k) == 0 {
        NoBits(k);
      }
    } else {
      HasBitsIff(value / 2, bits / 2);
      EachBitHalves(value, bits);
    }
  }

  lemma {:induction false} NoBits(k: nat)
    ensures Bit(0, k) == 0
  {
    if k > 0 {
      NoBits(k - 1);
    }
  }

  /** The first entry with exactly this number. */
  function ExactLabel(entries: seq<MapEntry>, value: nat): (caption: Option<string>)
  {
    if entries == [] then None
    else if entries[0].key == NumericKey(value) then Some(entries[0].caption)
    else ExactLabel(entries[1..], value)
  }

  predicate BitSet(entry: MapEntry, value: nat) {
    entry.key.NumericKey? && entry.key.n != 0 && HasBits(value, entry.key.n)
  }

  /** The labels of the entries whose bits are all set, in the map's order. */
  function BitLabels(entries: seq<MapEntry>, value: nat): (labels: seq<string>)
  {
    if entries == [] then []
    else
      var last := entries[|entries| - 1];
      BitLabels(entries[..|entries| - 1], value) + (if BitSet(last, value) then [last.caption] else [])
  }

  function Join(labels: seq<string>): (s: string)
  {
    if labels == [] then "" else if |labels| == 1 then labels[0] else labels[0] + "|" + Join(labels[1..])
  }

  function NumericLabel(m: MapDefinition, value: nat): (caption: Option<string>)
  {
    if m.kind.Bitmap? && BitLabels(m.entries, value) != [] then Some(Join(BitLabels(m.entries, value)))
    else ExactLabel(m.entries, value)
  }

  function LowerAscii(c: char): (l: char)
  {
    if 'A' <= c <= 'Z' then c + 32 as char else c
  }

  predicate SameIgnoringCase(a: string, b: string) {
    |a| == |b| && forall i :: 0 <= i < |a| ==> LowerAscii(a[i]) == LowerAscii(b[i])
  }

  function TextLabel(entries: seq<MapEntry>, value: string): (caption: Option<string>)
  {
    if entries == [] then None
    else if entries[0].key.TextKey? && SameIgnoringCase(entries[0].key.text, value) then Some(entries[0].caption)
    else TextLabel(entries[1..], value)
  }

  /** The label of a value: by its number, else by its text. */
  function LabelOf(m: MapDefinition, value: Value): (caption: Option<string>)
  {
    var n := Numeric(value);
    var byNumber := if n.Some? then NumericLabel(m, n.value) else None;
    if byNumber.Some? then byNumber
    else if value.Text? then TextLabel(m.entries, value.text) else None
  }

  function Labelled(m: Option<MapDefinition>, field: Field): (r: Field)
    ensures r.name == field.name
  {
    if m.None? then field
    else
      var caption := LabelOf(m.value, field.value);
      if caption.None? then field else field.(value := Text(caption.value))
  }

  method RenderNumeric(m: MapDefinition, value: nat) returns (caption: Option<string>)
    ensures caption == NumericLabel(m, value)
    ensures caption.None? <==> !HasNumber(m.entries, value) && (m.kind.Bitmap? ==> !HasSetBits(m.entries, value))
  {
    NumericLabelIff(m, value);
    if m.kind.Bitmap? {
      var labels := [];
      for i := 0 to |m.entries|
        invariant labels == BitLabels(m.entries[..i], value)
      {
        var entry := m.entries[i];
        assert m.entries[..i + 1][..i] == m.entries[..i];
        if entry.key.NumericKey? && entry.key.n != 0 && HasBits(value, entry.key.n) {
          labels := labels + [entry.caption];
        }
      }
      assert m.entries[..|m.entries|] == m.entries;
      if labels != [] {
        return Some(Join(labels));
      }
    }
    return ExactLabel(m.entries, value);
  }

  /** The bitmap's labels are those of the entries whose bits are set, and no others. */
  lemma {:induction false} BitLabelsAre(entries: seq<MapEntry>, value: nat, caption: string)
    ensures caption in BitLabels(entries, value) <==>
            exists i :: 0 <= i < |entries| && BitSet(entries[i], value) && entries[i].caption == caption
    decreases |entries|
  {
    if entries != [] {
      var init := entries[..|entries| - 1];
      BitLabelsAre(init, value, caption);
      if caption in BitLabels(init, value) {
        var i :| 0 <= i < |init| && BitSet(init[i], value) && init[i].caption == caption;
        assert BitSet(entries[i], value);
      }
      if i :| 0 <= i < |entries| && BitSet(entries[i], value) && entries[i].caption == caption {
        if i < |init| {
          assert BitSet(init[i], value) && init[i].caption == caption;
        }
      }
    }
  }

  /** An exact label is that of the first entry with the number. */
  lemma {:induction false} ExactLabelIsFirst(entries: seq<MapEntry>, value: nat, i: nat)
    requires i < |entries| && entries[i].key == NumericKey(value)
    requires forall j :: 0 <= j < i ==> entries[j].key != NumericKey(value)
    ensures ExactLabel(entries, value) == Some(entries[i].caption)
  {
    if i > 0 {
      ExactLabelIsFirst(entries[1..], value, i - 1);
    }
  }

  /** A text label is that of the first entry whose text differs at most in the case of ASCII letters. */
  lemma {:induction false} TextLabelIsFirst(entries: seq<MapEntry>, value: string, i: nat)
    requires i < |entries| && entries[i].key.TextKey? && SameIgnoringCase(entries[i].key.text, value)
    requires forall j :: 0 <= j < i ==> !(entries[j].key.TextKey? && SameIgnoringCase(entries[j].key.text, value))
    ensures TextLabel(entries, value) == Some(entries[i].caption)
  {
    if i > 0 {
      TextLabelIsFirst(entries[1..], value, i - 1);
    }
  }

  // ----- values without a label -----

  /** Some entry has exactly this number. */
  predicate HasNumber(entries: seq<MapEntry>, value: nat) {
    exists i :: 0 <= i < |entries| && entries[i].key == NumericKey(value)
  }

  /** The entry has a number that is not 0, and each of its binary digits that is 1 is 1 in the value. */
  ghost predicate CoversBits(entry: MapEntry, value: nat) {
    entry.key.NumericKey? && entry.key.n != 0 && forall k: nat :: Bit(entry.key.n, k) == 1 ==> Bit(value, k) == 1
  }

  ghost predicate HasSetBits(entries: seq<MapEntry>, value: nat) {
    exists i :: 0 <= i < |entries| && CoversBits(entries[i], value)
  }

  /** Letter by letter the same, or an ASCII capital and its small letter. */
  predicate SameLetters(a: string, b: string) {
    |a| == |b|
    && forall i :: 0 <= i < |a| ==>
         || a[i] == b[i]
         || ('A' <= a[i] <= 'Z' && b[i] as int == a[i] as int + 32)
         || ('A' <= b[i] <= 'Z' && a[i] as int == b[i] as int + 32)
  }

  predicate HasText(entries: seq<MapEntry>, value: string) {
    exists i :: 0 <= i < |entries| && entries[i].key.TextKey? && SameLetters(entries[i].key.text, value)
  }

  /** No entry of the map speaks of the value. */
  ghost predicate Unmapped(m: MapDefinition, value: Value) {
    && (forall n: nat :: CountsAs(value, n) ==>
                           !HasNumber(m.entries, n) && (m.kind.Bitmap? ==> !HasSetBits(m.entries, n)))
    && (value.Text? ==> !HasText(m.entries, value.text))
  }

  lemma SameLettersIff(a: string, b: string)
    ensures SameIgnoringCase(a, b) <==> SameLetters(a, b)
  {
    if |a| == |b| {
      forall i | 0 <= i < |a|
        ensures LowerAscii(a[i]) == LowerAscii(b[i])
                <==> || a[i] == b[i]
                     || ('A' <= a[i] <= 'Z' && b[i] as int == a[i] as int + 32)
                     || ('A' <= b[i] <= 'Z' && a[i] as int == b[i] as int + 32)
      {
        SameLetterIff(a[i], b[i]);
      }
    }
  }

  lemma SameLetterIff(a: char, b: char)
    ensures LowerAscii(a) == LowerAscii(b)
            <==> || a == b
                 || ('A' <= a <= 'Z' && b as int == a as int + 32)
                 || ('A' <= b <= 'Z' && a as int == b as int + 32)
  {
    LowerAsciiIs(a);
    LowerAsciiIs(b);
  }

  lemma LowerAsciiIs(c: char)
    ensures LowerAscii(c) as int == if 'A' <= c <= 'Z' then c as int + 32 else c as int
  {
  }

  lemma BitSetIff(entry: MapEntry, value: nat)
    ensures BitSet(entry, value) <==> CoversBits(entry, value)
  {
    if entry.key.NumericKey? {
      HasBitsIff(value, entry.key.n);
    }
  }

  lemma {:induction false} ExactLabelIff(entries: seq<MapEntry>, value: nat)
    ensures ExactLabel(entries, value).Some? <==> HasNumber(entries, value)
    decreases |entries|
  {
    if entries != [] {
      var rest := entries[1..];
      ExactLabelIff(rest, value);
      if HasNumber(rest, value) {
        var i :| 0 <= i < |rest| && rest[i].key == NumericKey(value);
        assert entries[i + 1].key == NumericKey(value);
      }
      if HasNumber(entries, value) && entries[0].key != NumericKey(value) {
        var i :| 0 <= i < |entries| && entries[i].key == NumericKey(value);
        assert rest[i - 1].key == NumericKey(value);
      }
    }
  }

  lemma {:induction false} TextLabelIff(entries: seq<MapEntry>, value: string)
    ensures TextLabel(entries, value).Some? <==> HasText(entries, value)
    decreases |entries|
  {
    if entries != [] {
      var rest := entries[1..];
      TextLabelIff(rest, value);
      if entries[0].key.TextKey? {
        SameLettersIff(entries[0].key.text, value);
      }
      if HasText(rest, value) {
        var i :| 0 <= i < |rest| && rest[i].key.TextKey? && SameLetters(rest[i].key.text, value);
        assert entries[i + 1] == rest[i];
      }
      if i :| 0 <= i < |entries| && entries[i].key.TextKey? && SameLetters(entries[i].key.text, value) {
        assert i > 0 ==> rest[i - 1] == entries[i];
      }
    }
  }

  lemma NoBitLabelsIff(entries: seq<MapEntry>, value: nat)
    ensures BitLabels(entries, value) != [] <==> HasSetBits(entries, value)
  {
    if BitLabels(entries, value) != [] {
      var caption := BitLabels(entries, value)[0];
      assert caption in BitLabels(entries, value);
      BitLabelsAre(entries, value, caption);
      var i :| 0 <= i < |entries| && BitSet(entries[i], value) && entries[i].caption == caption;
      BitSetIff(entries[i], value);
    }
    if i :| 0 <= i < |entries| && CoversBits(entries[i], value) {
      BitSetIff(entries[i], value);
      BitLabelsAre(entries, value, entries[i].caption);
    }
  }

  /** A number has no label exactly if no entry has it and, in a bitmap, no entry's bits are all set in it. */
  lemma NumericLabelIff(m: MapDefinition, value: nat)
    ensures NumericLabel(m, value).None?
            <==> !HasNumber(m.entries, value) && (m.kind.Bitmap? ==> !HasSetBits(m.entries, value))
  {
    ExactLabelIff(m.entries, value);
    NoBitLabelsIff(m.entries, value);
  }

  /** In a bitmap the set entries' captions together, if there are any; else that of the first equal entry. */
  lemma NumericLabelIs(m: MapDefinition, value: nat, i: nat)
    ensures m.kind.Bitmap? && HasSetBits(m.entries, value) ==>
              NumericLabel(m, value) == Some(Join(BitLabels(m.entries, value)))
    ensures !(m.kind.Bitmap? && HasSetBits(m.entries, value)) && i < |m.entries|
            && m.entries[i].key == NumericKey(value)
            && (forall j :: 0 <= j < i ==> m.entries[j].key != NumericKey(value))
            ==> NumericLabel(m, value) == Some(m.entries[i].caption)
  {
    NoBitLabelsIff(m.entries, value);
    if i < |m.entries| && m.entries[i].key == NumericKey(value)
       && (forall j :: 0 <= j < i ==> m.entries[j].key != NumericKey(value)) {
      ExactLabelIsFirst(m.entries, value, i);
    }
  }

  /** A value has no label exactly if no entry speaks of it. */
  lemma LabelOfIff(m: MapDefinition, value: Value)
    ensures LabelOf(m, value).None? <==> Unmapped(m, value)
  {
    var n := Numeric(value);
    if n.Some? {
      NumericIff(value, n.value);
      NumericLabelIff(m, n.value);
    }
    forall k: nat ensures CountsAs(value, k) <==> n == Some(k) {
      NumericIff(value, k);
    }
    if value.Text? {
      TextLabelIff(m.entries, value.text);
    }
  }

  /** A field without a map, or of which its map does not speak, is unchanged; any other shows a text. */
  lemma LabelledIff(m: Option<MapDefinition>, field: Field)
    ensures m.None? || Unmapped(m.value, field.value) ==> Labelled(m, field) == field
    ensures m.Some? && !Unmapped(m.value, field.value) ==>
              LabelOf(m.value, field.value).Some?
              && Labelled(m, field) == Field(field.name, Text(LabelOf(m.value, field.value).value))
  {
    if m.Some? {
      LabelOfIff(m.value, field.value);
    }
  }

  // ----- the text of a bitmap -----

  /** These are the positions of the entries whose bits are set, in the order of the table. */
  ghost predicate SetPositions(entries: seq<MapEntry>, value: nat, at: seq<nat>) {
    && (forall i :: 0 <= i < |at| ==> at[i] < |entries| && BitSet(entries[at[i]], value))
    && (forall i, j :: 0 <= i < j < |at| ==> at[i] < at[j])
    && (forall k :: 0 <= k < |entries| && BitSet(entries[k], value) ==> k in at)
  }

  lemma {:induction false} BitSetsInOrder(entries: seq<MapEntry>, value: nat) returns (at: seq<nat>)
    ensures SetPositions(entries, value, at) && |at| == |BitLabels(entries, value)|
    ensures forall i :: 0 <= i < |at| ==> BitLabels(entries, value)[i] == entries[at[i]].caption
    decreases |entries|
  {
    at := [];
    if entries != [] {
      var n := |entries| - 1;
      var init := entries[..n];
      at := BitSetsInOrder(init, value);
      forall k | 0 <= k < n && BitSet(entries[k], value) ensures k in at {
        assert init[k] == entries[k];
      }
      if BitSet(entries[n], value) {
        at := at + [n];
      }
    }
  }

  /** The captions of the entries whose bits are set, in the order of the table. */
  lemma BitLabelsInOrder(entries: seq<MapEntry>, value: nat) returns (at: seq<nat>)
    ensures |at| == |BitLabels(entries, value)| && forall i, j :: 0 <= i < j < |at| ==> at[i] < at[j]
    ensures forall i :: 0 <= i < |at| ==>
              at[i] < |entries| && CoversBits(entries[at[i]], value)
              && BitLabels(entries, value)[i] == entries[at[i]].caption
    ensures forall k :: 0 <= k < |entries| && CoversBits(entries[k], value) ==> k in at
  {
    at := BitSetsInOrder(entries, value);
    forall k | 0 <= k < |entries| ensures BitSet(entries[k], value) <==> CoversBits(entries[k], value) {
      BitSetIff(entries[k], value);
    }
  }

  /** Captions are put together with a bar between each two. */
  lemma {:induction false} JoinSnoc(labels: seq<string>, caption: string)
    ensures Join(labels + [caption]) == if labels == [] then caption else Join(labels) + "|" + caption
    decreases |labels|
  {
    if labels != [] {
      JoinSnoc(labels[1..], caption);
      assert (labels + [caption])[1..] == labels[1..] + [caption];
      if |labels| > 1 {
        var head, tail := labels[0] + "|", Join(labels[1..]);
        assert (head + tail) + "|" + caption == head + (tail + "|" + caption);
      }
    }
  }

  lemma KnownJoin()
    ensures Join(["READ", "WRITE", "EXECUTE"]) == "READ|WRITE|EXECUTE"
  {
    JoinSnoc([], "READ");
    JoinSnoc(["READ"], "WRITE");
    JoinSnoc(["READ", "WRITE"], "EXECUTE");
    assert [] + ["READ"] == ["READ"] && ["READ"] + ["WRITE"] == ["READ", "WRITE"];
    assert ["READ", "WRITE"] + ["EXECUTE"] == ["READ", "WRITE", "EXECUTE"];
  }

  // ----- decoding with maps -----

  /** The field's map, asked for afresh. */
  function FreshMap(tdh: Tdh, record: EventRecord, prop: PropertyMeta): (m: Option<MapDefinition>)
  {
    if prop.mapName.None? then None else tdh.eventMap(MapQuery(record, prop.mapName.value))
  }

  /** Each field with the label that the map of its own property gives it. */
  function FreshLabels(tdh: Tdh, record: EventRecord, props: Schema, fields: seq<Field>): (r: seq<Field>)
    requires |fields| <= |props|
    ensures |r| == |fields|
    ensures forall i :: 0 <= i < |r| ==> r[i] == Labelled(FreshMap(tdh, record, props[i]), fields[i])
  {
    seq(|fields|, i requires 0 <= i < |fields| => Labelled(FreshMap(tdh, record, props[i]), fields[i]))
  }

  /** The decoder without any cache. */
  function FreshFields(tdh: Tdh, record: EventRecord): (r: Option<seq<Field>>)
  {
    var schema := tdh.schema(record);
    if schema.None? then None
    else Some(FreshLabels(tdh, record, schema.value, FieldsOfPayload(schema.value, record.payload)))
  }

  /** A field is as it was, or shows a label of a map that was loaded under the name its own property gives. */
  ghost predicate LabelFrom(tdh: Tdh, prop: PropertyMeta, before: Field, after: Field) {
    || after == before
    || (prop.mapName.Some? && exists m ::
          Loads(NameOf, tdh.eventMap, prop.mapName.value, m) && after == Labelled(Some(m), before))
  }

  lemma LabelComesFrom(tdh: Tdh, table: map<string, MapDefinition>, query: MapQuery, prop: PropertyMeta, field: Field)
    requires Backed(table, NameOf, tdh.eventMap) && prop.mapName == Some(query.name)
    ensures LabelFrom(tdh, prop, field, Labelled(Lookup(table, NameOf, tdh.eventMap, query).0, field))
  {
    var m := Lookup(table, NameOf, tdh.eventMap, query).0;
    if query.name in table {
      assert Loads(NameOf, tdh.eventMap, query.name, table[query.name]);
    } else if m.Some? {
      assert NameOf(query) == query.name && tdh.eventMap(query) == Some(m.value);
      assert Loads(NameOf, tdh.eventMap, query.name, m.value);
    }
  }

  /** The assumptions under which a cache may stand for the system's answers. */
  ghost predicate Stable(tdh: Tdh) {
    DependsOnKey(KeyOf, tdh.schema) && DependsOnKey(NameOf, tdh.eventMap)
  }

  // ----- decoding with the tables -----

  datatype Tables = Tables(schemas: map<SchemaKey, Schema>, maps: map<string, MapDefinition>)

  const EMPTY := Tables(map[], map[])

  /** The map a property's field gets: the one in the table, or else the one loaded for this record. */
  function MapAnswer(tdh: Tdh, maps: map<string, MapDefinition>, record: EventRecord, prop: PropertyMeta)
    : (m: Option<MapDefinition>)
  {
    if prop.mapName.None? then None
    else Lookup(maps, NameOf, tdh.eventMap, MapQuery(record, prop.mapName.value)).0
  }

  function LabelsWith(
    tdh: Tdh, maps: map<string, MapDefinition>, record: EventRecord, props: Schema, fields: seq<Field>)
    : (r: seq<Field>)
    requires |fields| <= |props|
    ensures |r| == |fields|
    ensures forall i :: 0 <= i < |r| ==> r[i] == Labelled(MapAnswer(tdh, maps, record, props[i]), fields[i])
  {
    seq(|fields|, i requires 0 <= i < |fields| => Labelled(MapAnswer(tdh, maps, record, props[i]), fields[i]))
  }

  /** The table after these properties of a record have asked for their maps, in order. */
  function MapsAfter(tdh: Tdh, maps: map<string, MapDefinition>, record: EventRecord, props: Schema)
    : (after: map<string, MapDefinition>)
  {
    if props == [] then maps
    else
      var before := MapsAfter(tdh, maps, record, props[..|props| - 1]);
      var name := props[|props| - 1].mapName;
      if name.None? then before else Lookup(before, NameOf, tdh.eventMap, MapQuery(record, name.value)).1
  }

  /** One record: its fields with their labels, and the tables after it. */
  function DecodeWith(tdh: Tdh, t: Tables, record: EventRecord): (r: (Option<seq<Field>>, Tables))
  {
    var (schema, schemas) := Lookup(t.schemas, KeyOf, tdh.schema, record);
    if schema.None? then (None, t)
    else
      var fields := FieldsOfPayload(schema.value, record.payload);
      (Some(LabelsWith(tdh, t.maps, record, schema.value, fields)),
       Tables(schemas, MapsAfter(tdh, t.maps, record, schema.value[..|fields|])))
  }

  /** The records of a session, one after the other. */
  function DecodeAll(tdh: Tdh, t: Tables, records: seq<EventRecord>): (r: seq<Option<seq<Field>>>)
    ensures |r| == |records|
    decreases |records|
  {
    if records == [] then []
    else
      var (fields, after) := DecodeWith(tdh, t, records[0]);
      [fields] + DecodeAll(tdh, after, records[1..])
  }

  /** What the properties before it loaded does not change what a property of the same record is answered. */
  lemma {:induction false} AnswerStays(
    tdh: Tdh, maps: map<string, MapDefinition>, record: EventRecord, props: Schema, prop: PropertyMeta)
    ensures MapAnswer(tdh, MapsAfter(tdh, maps, record, props), record, prop) == MapAnswer(tdh, maps, record, prop)
    decreases |props|
  {
    if props != [] {
      AnswerStays(tdh, maps, record, props[..|props| - 1], prop);
    }
  }

  lemma MapsAfterSnoc(tdh: Tdh, maps: map<string, MapDefinition>, record: EventRecord, props: Schema, i: nat)
    requires i < |props|
    ensures var before := MapsAfter(tdh, maps, record, props[..i]);
            MapsAfter(tdh, maps, record, props[..i + 1])
            == if props[i].mapName.None? then before
               else Lookup(before, NameOf, tdh.eventMap, MapQuery(record, props[i].mapName.value)).1
  {
    assert props[..i + 1][..i] == props[..i];
  }

  lemma LabelsWithAre(
    tdh: Tdh, maps: map<string, MapDefinition>, record: EventRecord, props: Schema, fields: seq<Field>)
    requires Backed(maps, NameOf, tdh.eventMap) && |fields| <= |props|
    ensures var r := LabelsWith(tdh, maps, record, props, fields);
            && (forall i :: 0 <= i < |fields| ==> LabelFrom(tdh, props[i], fields[i], r[i]))
            && (Stable(tdh) ==> r == FreshLabels(tdh, record, props, fields))
  {
    var r := LabelsWith(tdh, maps, record, props, fields);
    forall i | 0 <= i < |fields|
      ensures LabelFrom(tdh, props[i], fields[i], r[i])
      ensures Stable(tdh) ==> r[i] == Labelled(FreshMap(tdh, record, props[i]), fields[i])
    {
      if props[i].mapName.Some? {
        LabelComesFrom(tdh, maps, MapQuery(record, props[i].mapName.value), props[i], fields[i]);
        if Stable(tdh) {
          LookupIsFresh(maps, NameOf, tdh.eventMap, MapQuery(record, props[i].mapName.value));
        }
      }
    }
  }

  /** There is no map, or it does not speak of the field's value. */
  ghost predicate SaysNothing(m: Option<MapDefinition>, field: Field) {
    m.None? || Unmapped(m.value, field.value)
  }

  lemma UnmappedStay(
    tdh: Tdh, maps: map<string, MapDefinition>, record: EventRecord, props: Schema, fields: seq<Field>)
    requires |fields| <= |props|
    ensures forall i :: 0 <= i < |fields| && SaysNothing(MapAnswer(tdh, maps, record, props[i]), fields[i]) ==>
                          LabelsWith(tdh, maps, record, props, fields)[i] == fields[i]
  {
    forall i | 0 <= i < |fields| && SaysNothing(MapAnswer(tdh, maps, record, props[i]), fields[i])
      ensures LabelsWith(tdh, maps, record, props, fields)[i] == fields[i]
    {
      LabelledIff(MapAnswer(tdh, maps, record, props[i]), fields[i]);
    }
  }

  /** Each table holds only what the system answered. */
  ghost predicate BackedTables(tdh: Tdh, t: Tables) {
    Backed(t.schemas, KeyOf, tdh.schema) && Backed(t.maps, NameOf, tdh.eventMap)
  }

  lemma {:induction false} MapsAfterBacked(
    tdh: Tdh, maps: map<string, MapDefinition>, record: EventRecord, props: Schema)
    requires Backed(maps, NameOf, tdh.eventMap)
    ensures Backed(MapsAfter(tdh, maps, record, props), NameOf, tdh.eventMap)
    decreases |props|
  {
    if props != [] {
      var n := |props| - 1;
      MapsAfterBacked(tdh, maps, record, props[..n]);
      if props[n].mapName.Some? {
        LookupKeepsBacked(MapsAfter(tdh, maps, record, props[..n]), NameOf, tdh.eventMap,
                          MapQuery(record, props[n].mapName.value));
      }
    }
  }

  lemma StableDecodesFresh(tdh: Tdh, t: Tables, record: EventRecord)
    requires Stable(tdh) && BackedTables(tdh, t)
    ensures DecodeWith(tdh, t, record).0 == FreshFields(tdh, record)
    ensures BackedTables(tdh, DecodeWith(tdh, t, record).1)
  {
    var schema := Lookup(t.schemas, KeyOf, tdh.schema, record).0;
    LookupKeepsBacked(t.schemas, KeyOf, tdh.schema, record);
    LookupIsFresh(t.schemas, KeyOf, tdh.schema, record);
    if schema.Some? {
      var fields := FieldsOfPayload(schema.value, record.payload);
      LabelsWithAre(tdh, t.maps, record, schema.value, fields);
      MapsAfterBacked(tdh, t.maps, record, schema.value[..|fields|]);
    }
  }

  lemma {:induction false} StableSession(tdh: Tdh, t: Tables, records: seq<EventRecord>, i: nat)
    requires Stable(tdh) && BackedTables(tdh, t) && i < |records|
    ensures DecodeAll(tdh, t, records)[i] == FreshFields(tdh, records[i])
    decreases i
  {
    StableDecodesFresh(tdh, t, records[0]);
    if i > 0 {
      StableSession(tdh, DecodeWith(tdh, t, records[0]).1, records[1..], i - 1);
    }
  }

  class Cache {
    var schemas: map<SchemaKey, Schema>
    var maps: map<string, MapDefinition>

    /** Both tables hold only what the system answered at some time. */
    ghost predicate Valid(tdh: Tdh)
      reads this
    {
      Backed(schemas, KeyOf, tdh.schema) && Backed(maps, NameOf, tdh.eventMap)
    }

    constructor ()
      ensures schemas == map[] && maps == map[]
    {
      schemas, maps := map[], map[];
    }

    method GetOrLoadMap(tdh: Tdh, record: EventRecord, name: string) returns (m: Option<MapDefinition>)
      modifies this`maps
      ensures (m, maps) == Lookup(old(maps), NameOf, tdh.eventMap, MapQuery(record, name))
    {
      if name in maps {
        return Some(maps[name]);
      }
      m := tdh.eventMap(MapQuery(record, name));
      if m.Some? {
        maps := maps[name := m.value];
      }
    }

    /** `apply_map_values`: field i gets the label of the map that property i names, and no other change. */
    method ApplyMapValues(tdh: Tdh, record: EventRecord, props: Schema, fields: seq<Field>) returns (r: seq<Field>)
      requires Valid(tdh) && |fields| <= |props|
      modifies this`maps
      ensures Valid(tdh)
      ensures |r| == |fields| && forall i :: 0 <= i < |r| ==> LabelFrom(tdh, props[i], fields[i], r[i])
      ensures Stable(tdh) ==> r == FreshLabels(tdh, record, props, fields)
      ensures r == LabelsWith(tdh, old(maps), record, props, fields)
      ensures forall i :: 0 <= i < |r| && SaysNothing(MapAnswer(tdh, old(maps), record, props[i]), fields[i]) ==>
                            r[i] == fields[i]
      ensures maps == MapsAfter(tdh, old(maps), record, props[..|fields|])
    {
      UnmappedStay(tdh, maps, record, props, fields);
      LabelsWithAre(tdh, maps, record, props, fields);
      MapsAfterBacked(tdh, maps, record, props[..|fields|]);
      r := LabelFields(tdh, record, props, fields);
    }

    /** Its loop. */
    method LabelFields(tdh: Tdh, record: EventRecord, props: Schema, fields: seq<Field>) returns (r: seq<Field>)
      requires |fields| <= |props|
      modifies this`maps
      ensures r == LabelsWith(tdh, old(maps), record, props, fields)
      ensures maps == MapsAfter(tdh, old(maps), record, props[..|fields|])
    {
      r := [];
      for i := 0 to |fields|
        invariant |r| == i && maps == MapsAfter(tdh, old(maps), record, props[..i])
        invariant forall j :: 0 <= j < i ==> r[j] == Labelled(MapAnswer(tdh, old(maps), record, props[j]), fields[j])
      {
        MapsAfterSnoc(tdh, old(maps), record, props, i);
        AnswerStays(tdh, old(maps), record, props[..i], props[i]);
        var field := LabelField(tdh, record, props[i], fields[i]);
        r := r + [field];
      }
    }

    method LabelField(tdh: Tdh, record: EventRecord, prop: PropertyMeta, field: Field) returns (r: Field)
      modifies this`maps
      ensures r == Labelled(MapAnswer(tdh, old(maps), record, prop), field)
      ensures maps == if prop.mapName.None? then old(maps)
                      else Lookup(old(maps), NameOf, tdh.eventMap, MapQuery(record, prop.mapName.value)).1
    {
      if prop.mapName.None? {
        return field;
      }
      var m := GetOrLoadMap(tdh, record, prop.mapName.value);
      r := Labelled(m, field);
    }

    /**
     `parse_event_fields`. Always: the fields are those that the record's schema, cached or loaded, decodes
     from the payload, each with at most a label from a map that its own property names. Where the
     system's answers depend on the key and the name alone, the result is that of the decoder without a cache.
     */
    method ParseEventFields(tdh: Tdh, record: EventRecord) returns (r: Option<seq<Field>>)
      requires Valid(tdh)
      modifies this
      ensures Valid(tdh)
      ensures Stable(tdh) ==> r == FreshFields(tdh, record)
      ensures r.None? <==> Lookup(old(schemas), KeyOf, tdh.schema, record).0.None?
      ensures r.None? ==> schemas == old(schemas) && maps == old(maps)
      ensures r.Some? ==>
                var props := Lookup(old(schemas), KeyOf, tdh.schema, record).0.value;
                var plain := FieldsOfPayload(props, record.payload);
                && |r.value| == |plain|
                && forall i :: 0 <= i < |plain| ==>
                     plain[i].name == props[i].name && LabelFrom(tdh, props[i], plain[i], r.value[i])
      ensures (r, Tables(schemas, maps)) == DecodeWith(tdh, Tables(old(schemas), old(maps)), record)
    {
      LookupKeepsBacked(schemas, KeyOf, tdh.schema, record);
      if Stable(tdh) {
        LookupIsFresh(schemas, KeyOf, tdh.schema, record);
      }
      if record.key !in schemas {
        var built := tdh.schema(record);
        if built.None? {
          return None;
        }
        schemas := schemas[record.key := built.value];
      }
      var schema := schemas[record.key];
      var fields := ParseValues(schema, record.payload);
      FieldsAreNamed(schema, record.payload);
      var labelled := ApplyMapValues(tdh, record, schema, fields);
      return Some(labelled);
    }
  }

  lemma {:induction false} DecodeAllAt(tdh: Tdh, t: Tables, records: seq<EventRecord>, k: nat)
    requires k < |records|
    ensures DecodeAll(tdh, t, records)[k] == DecodeWith(tdh, TablesAfter(tdh, t, records[..k]), records[k]).0
    decreases k
  {
    if k > 0 {
      DecodeAllAt(tdh, DecodeWith(tdh, t, records[0]).1, records[1..], k - 1);
      assert records[..k][1..] == records[1..][..k - 1];
    }
  }

  function TablesAfter(tdh: Tdh, t: Tables, records: seq<EventRecord>): (after: Tables)
    decreases |records|
  {
    if records == [] then t else TablesAfter(tdh, DecodeWith(tdh, t, records[0]).1, records[1..])
  }

  lemma {:induction false} TablesAfterSnoc(tdh: Tdh, t: Tables, records: seq<EventRecord>, i: nat)
    requires i < |records|
    ensures TablesAfter(tdh, t, records[..i + 1])
         == DecodeWith(tdh, TablesAfter(tdh, t, records[..i]), records[i]).1
    decreases i
  {
    if i > 0 {
      TablesAfterSnoc(tdh, DecodeWith(tdh, t, records[0]).1, records[1..], i - 1);
      assert records[..i][1..] == records[1..][..i - 1] && records[..i + 1][1..] == records[1..][..i];
    } else {
      assert records[..1][1..] == [] && records[..0] == [];
    }
  }

  /**
   A whole session is decoded as the tables say; every record as without a cache, if the system's answers are
   stable.
   */
  method DecodeSession(tdh: Tdh, records: seq<EventRecord>) returns (decoded: seq<Option<seq<Field>>>)
    ensures |decoded| == |records|
    ensures Stable(tdh) ==> forall i :: 0 <= i < |records| ==> decoded[i] == FreshFields(tdh, records[i])
    ensures decoded == DecodeAll(tdh, EMPTY, records)
  {
    var cache := new Cache();
    decoded := [];
    for i := 0 to |records|
      invariant fresh(cache) && cache.Valid(tdh) && |decoded| == i
      invariant Tables(cache.schemas, cache.maps) == TablesAfter(tdh, EMPTY, records[..i])
      invariant forall j :: 0 <= j < i ==> decoded[j] == DecodeAll(tdh, EMPTY, records)[j]
    {
      DecodeAllAt(tdh, EMPTY, records, i);
      TablesAfterSnoc(tdh, EMPTY, records, i);
      var fields := cache.ParseEventFields(tdh, records[i]);
      decoded := decoded + [fields];
    }
    if Stable(tdh) {
      forall i | 0 <= i < |records| ensures decoded[i] == FreshFields(tdh, records[i]) {
        StableSession(tdh, EMPTY, records, i);
      }
    }
  }

  /**
   What this asks of the system: the schema that loads for one record loads for every record of the same provider, id,
   opcode, version and level, and the map that loads for a name always loads for it.
   */
  lemma {:induction false} StableIff(tdh: Tdh)
    ensures Stable(tdh)
            <==>
            && (forall a: EventRecord, b: EventRecord ::
                  a.key == b.key && tdh.schema(a).Some? ==> tdh.schema(b) == tdh.schema(a))
            && (forall a: MapQuery, b: MapQuery ::
                  a.name == b.name && tdh.eventMap(a).Some? ==> tdh.eventMap(b) == tdh.eventMap(a))
  {
    if Stable(tdh) {
      forall a: EventRecord, b: EventRecord | a.key == b.key && tdh.schema(a).Some?
        ensures tdh.schema(b) == tdh.schema(a)
      {
        assert KeyOf(a) == KeyOf(b);
      }
      forall a: MapQuery, b: MapQuery | a.name == b.name && tdh.eventMap(a).Some?
        ensures tdh.eventMap(b) == tdh.eventMap(a)
      {
        assert NameOf(a) == NameOf(b);
      }
    }
  }

  /** Neither table ever gives a wrong answer exactly if schemas depend on the key alone and maps on the name alone. */
  lemma CachesAreFreshIff(tdh: Tdh)
    ensures AlwaysFresh(KeyOf, tdh.schema) && AlwaysFresh(NameOf, tdh.eventMap) <==> Stable(tdh)
  {
    MemoIsFreshIff(KeyOf, tdh.schema);
    MemoIsFreshIff(NameOf, tdh.eventMap);
  }

  /** Each field has the name of the property at its position. */
  lemma FieldsAreNamed(props: Schema, data: seq<byte>)
    ensures forall i :: 0 <= i < |FieldsOfPayload(props, data)| ==>
                          FieldsOfPayload(props, data)[i].name == props[i].name
  {
    var steps := StepsFrom(props, [], data);
    FieldsTilePrefix(props, data);
    forall i | 0 <= i < |steps| ensures FieldsOf(steps)[i].name == props[i].name {
      assert StepFits(props, data, steps, i);
      FieldsOfAt(steps, i);
    }
  }
}
