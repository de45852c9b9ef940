/**
 When the map table of the schema cache (src/etw/schema.rs) is harmless: maps are kept by name alone, so the map
 that one record loaded labels the fields of all later ones.
 */
module SchemaFreshness {
  import opened Wrappers
  import opened Bytes
  import opened EventSchema
  import opened EventFields
  import opened Memo
  import opened SchemaCache

  /** A property among these names the map. */
  predicate Names(props: Schema, name: string) {
    exists i :: 0 <= i < |props| && props[i].mapName == Some(name)
  }

  /** The properties of the fields that a record's payload yields. */
  function Decoding(schema: Schema, record: EventRecord): (props: Schema)
  {
    schema[..|FieldsOfPayload(schema, record.payload)|]
  }

  /** Decoding the record asks for a map of this name. */
  predicate Asks(tdh: Tdh, record: EventRecord, name: string) {
    tdh.schema(record).Some? && Names(Decoding(tdh.schema(record).value, record), name)
  }

  /** The map labels every field of the record whose property names it as the record's own map does. */
  ghost predicate LabelsAlike(tdh: Tdh, record: EventRecord, name: string, m: MapDefinition) {
    tdh.schema(record).Some? ==>
      var props := tdh.schema(record).value;
      var fields := FieldsOfPayload(props, record.payload);
      forall i :: 0 <= i < |fields| && props[i].mapName == Some(name) ==>
                    Labelled(Some(m), fields[i]) == Labelled(tdh.eventMap(MapQuery(record, name)), fields[i])
  }

  /** Whenever one record loads a map that another asks for, it labels the other's fields as its own map does. */
  ghost predicate Harmless(tdh: Tdh) {
    forall a, b, name, m ::
      Asks(tdh, a, name) && tdh.eventMap(MapQuery(a, name)) == Some(m) ==> LabelsAlike(tdh, b, name, m)
  }

  /** Every session is decoded as without tables. */
  ghost predicate SessionsAreFresh(tdh: Tdh) {
    forall records, i :: 0 <= i < |records| ==>
                           DecodeAll(tdh, EMPTY, records)[i] == FreshFields(tdh, records[i])
  }

  // ----- what the map table holds -----

  /** Each map was loaded by a record that asked for it. */
  ghost predicate Asked(tdh: Tdh, maps: map<string, MapDefinition>) {
    forall name :: name in maps ==> AskedFor(tdh, name, maps[name])
  }

  ghost predicate AskedFor(tdh: Tdh, name: string, m: MapDefinition) {
    exists a :: Asks(tdh, a, name) && tdh.eventMap(MapQuery(a, name)) == Some(m)
  }

  /** After a record, the table has what it had and what the record's properties loaded. */
  lemma {:induction false} MapsAfterIs(
    tdh: Tdh, maps: map<string, MapDefinition>, record: EventRecord, props: Schema, name: string)
    ensures var after := MapsAfter(tdh, maps, record, props);
            && (name in after
                <==> name in maps || (Names(props, name) && tdh.eventMap(MapQuery(record, name)).Some?))
            && (name in maps ==> after[name] == maps[name])
            && (name in after && name !in maps ==> tdh.eventMap(MapQuery(record, name)) == Some(after[name]))
    decreases |props|
  {
    if props != [] {
      var n := |props| - 1;
      MapsAfterIs(tdh, maps, record, props[..n], name);
      NamesSnoc(props, name);
    }
  }

  lemma NamesSnoc(props: Schema, name: string)
    requires props != []
    ensures Names(props, name) <==> Names(props[..|props| - 1], name) || props[|props| - 1].mapName == Some(name)
  {
    var init := props[..|props| - 1];
    if i :| 0 <= i < |props| && props[i].mapName == Some(name) {
      assert i < |init| ==> init[i].mapName == Some(name);
    }
    if i :| 0 <= i < |init| && init[i].mapName == Some(name) {
      assert props[i].mapName == Some(name);
    }
  }

  lemma AskedStays(tdh: Tdh, maps: map<string, MapDefinition>, record: EventRecord)
    requires Asked(tdh, maps) && tdh.schema(record).Some?
    ensures Asked(tdh, MapsAfter(tdh, maps, record, Decoding(tdh.schema(record).value, record)))
  {
    var props := Decoding(tdh.schema(record).value, record);
    var after := MapsAfter(tdh, maps, record, props);
    forall name | name in after ensures AskedFor(tdh, name, after[name]) {
      MapsAfterIs(tdh, maps, record, props, name);
      if name in maps {
        assert AskedFor(tdh, name, maps[name]);
      } else {
        assert Asks(tdh, record, name);
      }
    }
  }

  // ----- harmless maps give fresh sessions -----

  lemma HarmlessLabels(tdh: Tdh, maps: map<string, MapDefinition>, record: EventRecord)
    requires Harmless(tdh) && Asked(tdh, maps) && tdh.schema(record).Some?
    ensures var props := tdh.schema(record).value;
            var fields := FieldsOfPayload(props, record.payload);
            LabelsWith(tdh, maps, record, props, fields) == FreshLabels(tdh, record, props, fields)
  {
    var props := tdh.schema(record).value;
    var fields := FieldsOfPayload(props, record.payload);
    forall i | 0 <= i < |fields|
      ensures Labelled(MapAnswer(tdh, maps, record, props[i]), fields[i])
           == Labelled(FreshMap(tdh, record, props[i]), fields[i])
    {
      if props[i].mapName.Some? && props[i].mapName.value in maps {
        var name := props[i].mapName.value;
        assert AskedFor(tdh, name, maps[name]);
        assert LabelsAlike(tdh, record, name, maps[name]);
      }
    }
  }

  lemma HarmlessStep(tdh: Tdh, t: Tables, record: EventRecord)
    requires Harmless(tdh) && DependsOnKey(KeyOf, tdh.schema)
    requires Backed(t.schemas, KeyOf, tdh.schema) && Asked(tdh, t.maps)
    ensures var (fields, after) := DecodeWith(tdh, t, record);
            && fields == FreshFields(tdh, record)
            && Backed(after.schemas, KeyOf, tdh.schema) && Asked(tdh, after.maps)
  {
    LookupIsFresh(t.schemas, KeyOf, tdh.schema, record);
    LookupKeepsBacked(t.schemas, KeyOf, tdh.schema, record);
    if tdh.schema(record).Some? {
      HarmlessLabels(tdh, t.maps, record);
      AskedStays(tdh, t.maps, record);
    }
  }

  lemma {:induction false} HarmlessSession(tdh: Tdh, t: Tables, records: seq<EventRecord>, i: nat)
    requires Harmless(tdh) && DependsOnKey(KeyOf, tdh.schema)
    requires Backed(t.schemas, KeyOf, tdh.schema) && Asked(tdh, t.maps) && i < |records|
    ensures DecodeAll(tdh, t, records)[i] == FreshFields(tdh, records[i])
    decreases i
  {
    HarmlessStep(tdh, t, records[0]);
    if i > 0 {
      HarmlessSession(tdh, DecodeWith(tdh, t, records[0]).1, records[1..], i - 1);
    }
  }

  // ----- fresh sessions need harmless maps -----

  /** Two records: what the second shows when the first has loaded its map. */
  lemma SecondRecord(tdh: Tdh, a: EventRecord, b: EventRecord, name: string, m: MapDefinition)
    requires DependsOnKey(KeyOf, tdh.schema) && tdh.schema(b).Some?
    requires Asks(tdh, a, name) && tdh.eventMap(MapQuery(a, name)) == Some(m)
    ensures var props := tdh.schema(b).value;
            var fields := FieldsOfPayload(props, b.payload);
            var maps := DecodeWith(tdh, EMPTY, a).1.maps;
            && name in maps && maps[name] == m
            && DecodeAll(tdh, EMPTY, [a, b])[1] == Some(LabelsWith(tdh, maps, b, props, fields))
  {
    var after := DecodeWith(tdh, EMPTY, a).1;
    MapsAfterIs(tdh, map[], a, Decoding(tdh.schema(a).value, a), name);
    LookupKeepsBacked(map[], KeyOf, tdh.schema, a);
    LookupIsFresh(after.schemas, KeyOf, tdh.schema, b);
    assert [a, b][1..] == [b];
    var last := DecodeWith(tdh, after, b);
    assert DecodeAll(tdh, after, [b]) == [last.0] + DecodeAll(tdh, last.1, [b][1..]);
  }

  lemma FreshNeedsAlike(tdh: Tdh, a: EventRecord, b: EventRecord, name: string, m: MapDefinition)
    requires DependsOnKey(KeyOf, tdh.schema) && SessionsAreFresh(tdh)
    requires Asks(tdh, a, name) && tdh.eventMap(MapQuery(a, name)) == Some(m)
    ensures LabelsAlike(tdh, b, name, m)
  {
    if tdh.schema(b).Some? {
      SecondRecord(tdh, a, b, name, m);
      assert DecodeAll(tdh, EMPTY, [a, b])[1] == FreshFields(tdh, [a, b][1]);
      var props := tdh.schema(b).value;
      var fields := FieldsOfPayload(props, b.payload);
      var shown := LabelsWith(tdh, DecodeWith(tdh, EMPTY, a).1.maps, b, props, fields);
      assert shown == FreshLabels(tdh, b, props, fields);
      forall i | 0 <= i < |fields| && props[i].mapName == Some(name)
        ensures Labelled(Some(m), fields[i]) == Labelled(tdh.eventMap(MapQuery(b, name)), fields[i])
      {
        assert shown[i] == FreshLabels(tdh, b, props, fields)[i];
      }
    }
  }

  /**
   Where schemas depend on their key, every session shows the fields that decoding without tables shows if and
   only if each map that one record loads labels the fields of every other that names it as its own does.
   */
  lemma SessionsAreFreshIff(tdh: Tdh)
    requires DependsOnKey(KeyOf, tdh.schema)
    ensures SessionsAreFresh(tdh) <==> Harmless(tdh)
  {
    if Harmless(tdh) {
      forall records, i | 0 <= i < |records|
        ensures DecodeAll(tdh, EMPTY, records)[i] == FreshFields(tdh, records[i])
      {
        HarmlessSession(tdh, EMPTY, records, i);
      }
    }
    if SessionsAreFresh(tdh) {
      forall a, b, name, m | Asks(tdh, a, name) && tdh.eventMap(MapQuery(a, name)) == Some(m)
        ensures LabelsAlike(tdh, b, name, m)
      {
        FreshNeedsAlike(tdh, a, b, name, m);
      }
    }
  }

  // ----- two records -----

  /** One byte whose meaning a map called "state" gives. */
  const STATE_FIELD := PropertyMeta("field", UInt8, OtherOut, 0, 1, None, None, Some("state"))

  function OneLabel(caption: string): (m: MapDefinition)
  {
    MapDefinition(ValueMap, [MapEntry(NumericKey(1), caption)])
  }

  /** Two providers with a map of the same name, told apart by the provider of the record's key. */
  const TWO_MAPS := Tdh((_: EventRecord) => Some([STATE_FIELD]),
                        (q: MapQuery) => Some(OneLabel(if q.record.key.provider == 0 then "on" else "off")))

  function RecordOf(provider: nat): (record: EventRecord)
  {
    EventRecord(SchemaKey(provider, 0, 0, 0, 0), [1], 0)
  }

  lemma StatePayload()
    ensures FieldsOfPayload([STATE_FIELD], [1]) == [Field("field", U8(1))]
  {
    var step := Step(Field("field", U8(1)), 1);
    assert [1][..1] == [1] && LeNat([1]) == 1 + 0x100 * LeNat([1][1..]);
    assert PropertyValue(STATE_FIELD, [], [1]) == Some(Parsed(U8(1), 1));
    assert StepsFrom([STATE_FIELD], [Some(1)], [1][1..]) == [];
    assert StepsFrom([STATE_FIELD], [], [1]) == [step] + [];
    assert FieldsOf([step]) == FieldsOf([step][..0]) + [step.field];
  }

  lemma StateLabel(caption: string)
    ensures Labelled(Some(OneLabel(caption)), Field("field", U8(1))) == Field("field", Text(caption))
  {
    assert ExactLabel(OneLabel(caption).entries, 1) == Some(caption);
  }

  /** Two records of one field each, whose maps of the same name differ: the first record's map labels both. */
  lemma OneFieldEach(
    tdh: Tdh, a: EventRecord, b: EventRecord, prop: PropertyMeta, name: string, field: Field,
    first: MapDefinition, second: MapDefinition)
    requires DependsOnKey(KeyOf, tdh.schema) && tdh.schema(a) == tdh.schema(b) == Some([prop])
    requires prop.mapName == Some(name) && a.payload == b.payload && FieldsOfPayload([prop], a.payload) == [field]
    requires tdh.eventMap(MapQuery(a, name)) == Some(first) && tdh.eventMap(MapQuery(b, name)) == Some(second)
    ensures DecodeAll(tdh, EMPTY, [a, b])[1] == Some([Labelled(Some(first), field)])
    ensures FreshFields(tdh, b) == Some([Labelled(Some(second), field)])
  {
    OneFieldAsks(tdh, a, prop, name, field);
    SecondRecord(tdh, a, b, name, first);
    OneFieldLabelled(tdh, DecodeWith(tdh, EMPTY, a).1.maps, b, prop, name, field, first);
    OneFieldFresh(tdh, b, prop, name, field, second);
  }

  lemma OneFieldAsks(tdh: Tdh, a: EventRecord, prop: PropertyMeta, name: string, field: Field)
    requires tdh.schema(a) == Some([prop]) && prop.mapName == Some(name)
    requires FieldsOfPayload([prop], a.payload) == [field]
    ensures Asks(tdh, a, name)
  {
    assert Decoding([prop], a)[0].mapName == Some(name);
  }

  lemma OneFieldLabelled(
    tdh: Tdh, maps: map<string, MapDefinition>, b: EventRecord, prop: PropertyMeta, name: string, field: Field,
    m: MapDefinition)
    requires prop.mapName == Some(name) && name in maps && maps[name] == m
    ensures LabelsWith(tdh, maps, b, [prop], [field]) == [Labelled(Some(m), field)]
  {
  }

  lemma OneFieldFresh(tdh: Tdh, b: EventRecord, prop: PropertyMeta, name: string, field: Field, m: MapDefinition)
    requires tdh.schema(b) == Some([prop]) && prop.mapName == Some(name)
    requires FieldsOfPayload([prop], b.payload) == [field]
    requires tdh.eventMap(MapQuery(b, name)) == Some(m)
    ensures FreshFields(tdh, b) == Some([Labelled(Some(m), field)])
  {
    assert FreshLabels(tdh, b, [prop], [field]) == [Labelled(Some(m), field)];
  }

  /** The second provider's 1 means "off"; decoded after a record of the first it shows "on". */
  lemma WrongLabel()
    ensures DecodeAll(TWO_MAPS, EMPTY, [RecordOf(0), RecordOf(1)])[1] == Some([Field("field", Text("on"))])
    ensures FreshFields(TWO_MAPS, RecordOf(1)) == Some([Field("field", Text("off"))])
  {
    StatePayload();
    OneFieldEach(TWO_MAPS, RecordOf(0), RecordOf(1), STATE_FIELD, "state", Field("field", U8(1)),
                 OneLabel("on"), OneLabel("off"));
    StateLabel("on");
    StateLabel("off");
  }
}
