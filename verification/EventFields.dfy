/**
 `parse_values` (src/etw/schema.rs): the fields of a whole payload. The loop is proved against a
 recursive form, and that against a declarative one: fields that tile a prefix of the payload, each
 decoded by its own property with the numbers of the fields before it, until one cannot be decoded
 or the payload is used up.
 */
module EventFields {
  import opened Wrappers
  import opened Bytes
  import opened EventSchema
  import opened Sequences

  datatype Step = Step(field: Field, consumed: nat)

  /** What is decoded after the properties whose numbers are known, from the data that is left. */
  function StepsFrom(props: seq<PropertyMeta>, numerics: seq<Option<nat>>, data: seq<byte>): (steps: seq<Step>)
    ensures |steps| <= |props| - |numerics| || steps == []
    decreases |props| - |numerics|
  {
    if |numerics| >= |props| || data == [] then []
    else
      var prop := props[|numerics|];
      var parsed := PropertyValue(prop, numerics, data);
      if parsed.None? then []
      else
        [Step(Field(prop.name, parsed.value.value), parsed.value.consumed)]
        + StepsFrom(props, numerics + [Numeric(parsed.value.value)], data[parsed.value.consumed..])
  }

  function FieldsOf(steps: seq<Step>): (fields: seq<Field>)
    ensures |fields| == |steps|
  {
    if steps == [] then [] else FieldsOf(steps[..|steps| - 1]) + [steps[|steps| - 1].field]
  }

  /** All the fields of a payload. */
  function FieldsOfPayload(props: seq<PropertyMeta>, data: seq<byte>): (fields: seq<Field>)
    ensures |fields| <= |props|
  {
    FieldsOf(StepsFrom(props, [], data))
  }

  // ----- the declarative form -----

  /** The bytes taken by these fields. */
  function Consumed(steps: seq<Step>): (n: nat)
  {
    if steps == [] then 0 else Consumed(steps[..|steps| - 1]) + steps[|steps| - 1].consumed
  }

  function NumericsOf(steps: seq<Step>): (numerics: seq<Option<nat>>)
    ensures |numerics| == |steps|
  {
    if steps == [] then [] else NumericsOf(steps[..|steps| - 1]) + [Numeric(steps[|steps| - 1].field.value)]
  }

  /** What the property after these fields decodes to, from where they end. */
  function NextValue(props: seq<PropertyMeta>, before: seq<Step>, data: seq<byte>): (r: Option<Parsed>)
    requires |before| < |props| && Consumed(before) <= |data|
  {
    PropertyValue(props[|before|], NumericsOf(before), data[Consumed(before)..])
  }

  /** The i-th field is what its property decodes to right after the fields before it; it takes at least a byte. */
  ghost predicate StepFits(props: seq<PropertyMeta>, data: seq<byte>, steps: seq<Step>, i: nat)
    requires i < |steps|
  {
    && i < |props| && Consumed(steps[..i]) < |data|
    && NextValue(props, steps[..i], data) == Some(Parsed(steps[i].field.value, steps[i].consumed))
    && steps[i].field.name == props[i].name
    && steps[i].consumed >= 1
  }

  /** Nothing more can be decoded after these fields. */
  ghost predicate Ends(props: seq<PropertyMeta>, data: seq<byte>, steps: seq<Step>) {
    && |steps| <= |props| && Consumed(steps) <= |data|
    && (|steps| == |props| || Consumed(steps) == |data| || NextValue(props, steps, data).None?)
  }

  ghost predicate Fit(props: seq<PropertyMeta>, data: seq<byte>, steps: seq<Step>) {
    forall i :: 0 <= i < |steps| ==> StepFits(props, data, steps, i)
  }

  /** Fields that tile a prefix of the payload, as many as there can be. */
  ghost predicate IsDecoding(props: seq<PropertyMeta>, data: seq<byte>, steps: seq<Step>) {
    Fit(props, data, steps) && Ends(props, data, steps)
  }

  lemma {:induction false} Snoc(steps: seq<Step>, step: Step)
    ensures Consumed(steps + [step]) == Consumed(steps) + step.consumed
    ensures NumericsOf(steps + [step]) == NumericsOf(steps) + [Numeric(step.field.value)]
    ensures FieldsOf(steps + [step]) == FieldsOf(steps) + [step.field]
  {
    assert (steps + [step])[..|steps|] == steps;
  }

  lemma {:induction false} FitSnoc(props: seq<PropertyMeta>, data: seq<byte>, before: seq<Step>)
    requires Fit(props, data, before) && |before| < |props| && Consumed(before) < |data|
    requires NextValue(props, before, data).Some?
    ensures var p := NextValue(props, before, data).value;
            Fit(props, data, before + [Step(Field(props[|before|].name, p.value), p.consumed)])
  {
    var p := NextValue(props, before, data).value;
    var steps := before + [Step(Field(props[|before|].name, p.value), p.consumed)];
    forall i | 0 <= i < |steps| ensures StepFits(props, data, steps, i) {
      if i < |before| {
        assert StepFits(props, data, before, i);
        assert steps[..i] == before[..i];
      } else {
        assert steps[..i] == before;
      }
    }
  }

  /** Going on from a fitting beginning gives a decoding. */
  lemma {:induction false} StepsFromDecodes(props: seq<PropertyMeta>, data: seq<byte>, before: seq<Step>)
    requires Fit(props, data, before) && Consumed(before) <= |data| && |before| <= |props|
    ensures IsDecoding(props, data, before + StepsFrom(props, NumericsOf(before), data[Consumed(before)..]))
    decreases |props| - |before|
  {
    if |before| < |props| && Consumed(before) < |data| && NextValue(props, before, data).Some? {
      var step := NextStep(props, before, data);
      FitSnoc(props, data, before);
      StepsFromUnfolds(props, data, before);
      Snoc(before, step);
      StepsFromDecodes(props, data, before + [step]);
      ConcatAssoc(before, [step], StepsFrom(props, NumericsOf(before + [step]), data[Consumed(before + [step])..]));
    } else {
      EmptyRight(before);
    }
  }

  function NextStep(props: seq<PropertyMeta>, before: seq<Step>, data: seq<byte>): (step: Step)
    requires |before| < |props| && Consumed(before) <= |data| && NextValue(props, before, data).Some?
  {
    var p := NextValue(props, before, data).value;
    Step(Field(props[|before|].name, p.value), p.consumed)
  }

  lemma {:induction false} StepsFromUnfolds(props: seq<PropertyMeta>, data: seq<byte>, before: seq<Step>)
    requires |before| < |props| && Consumed(before) < |data| && NextValue(props, before, data).Some?
    ensures var step := NextStep(props, before, data);
            && Consumed(before + [step]) <= |data|
            && StepsFrom(props, NumericsOf(before), data[Consumed(before)..])
               == [step] + StepsFrom(props, NumericsOf(before + [step]), data[Consumed(before + [step])..])
  {
    var step := NextStep(props, before, data);
    Snoc(before, step);
    assert data[Consumed(before)..][step.consumed..] == data[Consumed(before + [step])..];
  }

  /** There is one decoding. */
  lemma {:induction false} DecodingIsUnique(props: seq<PropertyMeta>, data: seq<byte>, a: seq<Step>, b: seq<Step>,
                                            n: nat)
    requires IsDecoding(props, data, a) && IsDecoding(props, data, b) && n <= |a|
    ensures n <= |b| && a[..n] == b[..n]
  {
    if n > 0 {
      DecodingIsUnique(props, data, a, b, n - 1);
      var i := n - 1;
      assert StepFits(props, data, a, i);
      assert b[..|b|] == b;
      if i < |b| {
        assert StepFits(props, data, b, i);
      }
      assert a[..n] == a[..i] + [a[i]];
      assert i < |b| ==> b[..n] == b[..i] + [b[i]];
    }
  }

  /** The decoder computes the decoding, and only that. */
  lemma {:induction false} PayloadDecodingIff(props: seq<PropertyMeta>, data: seq<byte>, steps: seq<Step>)
    ensures steps == StepsFrom(props, [], data) <==> IsDecoding(props, data, steps)
  {
    var decoded := StepsFrom(props, [], data);
    StepsFromDecodes(props, data, []);
    assert data[0..] == data && [] + decoded == decoded;
    if IsDecoding(props, data, steps) {
      DecodingIsUnique(props, data, steps, decoded, |steps|);
      DecodingIsUnique(props, data, decoded, steps, |decoded|);
      assert steps[..|steps|] == steps && decoded[..|decoded|] == decoded;
    }
  }

  /** The fields tile a prefix of the payload: none is empty and together they do not pass its end. */
  lemma {:induction false} FieldsTilePrefix(props: seq<PropertyMeta>, data: seq<byte>)
    ensures var steps := StepsFrom(props, [], data);
            && |steps| <= |props| && |steps| <= Consumed(steps) <= |data|
            && forall i :: 0 <= i < |steps| ==> StepFits(props, data, steps, i)
  {
    var steps := StepsFrom(props, [], data);
    PayloadDecodingIff(props, data, steps);
    EachTakesAByte(props, data, steps, |steps|);
    assert steps[..|steps|] == steps;
  }

  lemma {:induction false} EachTakesAByte(props: seq<PropertyMeta>, data: seq<byte>, steps: seq<Step>, n: nat)
    requires Fit(props, data, steps) && n <= |steps|
    ensures n <= Consumed(steps[..n])
  {
    if n > 0 {
      EachTakesAByte(props, data, steps, n - 1);
      assert StepFits(props, data, steps, n - 1);
      assert steps[..n][..n - 1] == steps[..n - 1];
    }
  }

  // ----- shorter schemas -----

  function Shorter(a: nat, b: int): (m: nat)
  {
    if b < 0 then 0 else if a < b then a else b
  }

  /** Cutting the schema after k properties cuts the fields after k, and changes none of them. */
  lemma {:induction false} TruncatedStepsFrom(props: seq<PropertyMeta>, k: nat, numerics: seq<Option<nat>>,
                                              data: seq<byte>)
    requires k <= |props|
    ensures var all := StepsFrom(props, numerics, data);
            StepsFrom(props[..k], numerics, data) == all[..Shorter(|all|, k - |numerics|)]
    decreases |props| - |numerics|
  {
    if |numerics| < k && data != [] {
      var parsed := PropertyValue(props[|numerics|], numerics, data);
      if parsed.Some? {
        TruncatedStepsFrom(props, k, numerics + [Numeric(parsed.value.value)], data[parsed.value.consumed..]);
      }
    }
  }

  lemma {:induction false} FieldsOfPrefix(steps: seq<Step>, n: nat)
    requires n <= |steps|
    ensures FieldsOf(steps[..n]) == FieldsOf(steps)[..n]
    decreases |steps|
  {
    if n < |steps| {
      var init := steps[..|steps| - 1];
      FieldsOfPrefix(init, n);
      assert init[..n] == steps[..n];
    } else {
      assert steps[..n] == steps;
    }
  }

  lemma {:induction false} FieldsOfAt(steps: seq<Step>, i: nat)
    requires i < |steps|
    ensures FieldsOf(steps)[i] == steps[i].field
    decreases |steps|
  {
    if i < |steps| - 1 {
      FieldsOfAt(steps[..|steps| - 1], i);
    }
  }

  /** A shorter schema decodes exactly the first fields: references point back only. */
  lemma {:induction false} TruncatedSchema(props: seq<PropertyMeta>, k: nat, data: seq<byte>)
    requires k <= |props|
    ensures var all := FieldsOfPayload(props, data);
            FieldsOfPayload(props[..k], data) == all[..Shorter(|all|, k)]
  {
    var steps := StepsFrom(props, [], data);
    TruncatedStepsFrom(props, k, [], data);
    FieldsOfPrefix(steps, Shorter(|steps|, k));
  }

  // ----- the loop -----

  /** The table holds the numbers decoded so far, and nothing for the other properties. */
  ghost predicate Padded(table: seq<Option<nat>>, numerics: seq<Option<nat>>) {
    && |numerics| <= |table|
    && table[..|numerics|] == numerics
    && forall i :: |numerics| <= i < |table| ==> table[i] == None
  }

  /** A number not decoded yet is like no number at all: a forward reference falls back to the default. */
  lemma {:induction false} PaddingIsIrrelevant(
    prop: PropertyMeta, table: seq<Option<nat>>, numerics: seq<Option<nat>>, data: seq<byte>)
    requires Padded(table, numerics)
    ensures PropertyValue(prop, table, data) == PropertyValue(prop, numerics, data)
  {
    forall i: nat ensures Referenced(i, table) == Referenced(i, numerics) {
      if i < |numerics| {
        assert table[..|numerics|][i] == table[i];
      }
    }
  }

  /** After these steps the decoder goes on as if it had done them. */
  ghost predicate OnTrack(props: seq<PropertyMeta>, data: seq<byte>, steps: seq<Step>) {
    && |steps| <= |props| && Consumed(steps) <= |data|
    && StepsFrom(props, [], data) == steps + StepsFrom(props, NumericsOf(steps), data[Consumed(steps)..])
  }

  lemma {:induction false} OnTrackNext(props: seq<PropertyMeta>, data: seq<byte>, steps: seq<Step>, parsed: Parsed)
    requires OnTrack(props, data, steps) && |steps| < |props| && Consumed(steps) < |data|
    requires NextValue(props, steps, data) == Some(parsed)
    ensures OnTrack(props, data, steps + [Step(Field(props[|steps|].name, parsed.value), parsed.consumed)])
  {
    var step := Step(Field(props[|steps|].name, parsed.value), parsed.consumed);
    var rest := data[Consumed(steps)..];
    Snoc(steps, step);
    assert rest[parsed.consumed..] == data[Consumed(steps + [step])..];
    var more := StepsFrom(props, NumericsOf(steps + [step]), rest[parsed.consumed..]);
    assert StepsFrom(props, NumericsOf(steps), rest) == [step] + more;
    assert steps + ([step] + more) == (steps + [step]) + more;
  }

  lemma {:induction false} OnTrackEnds(props: seq<PropertyMeta>, data: seq<byte>, steps: seq<Step>)
    requires OnTrack(props, data, steps) && Ends(props, data, steps)
    ensures StepsFrom(props, [], data) == steps
  {
    assert StepsFrom(props, NumericsOf(steps), data[Consumed(steps)..]) == [];
    assert steps + [] == steps;
  }

  /** What the loop's variables say about the fields decoded so far. */
  ghost predicate LoopState(
    props: seq<PropertyMeta>, data: seq<byte>, steps: seq<Step>, offset: nat, fields: seq<Field>,
    table: seq<Option<nat>>)
  {
    && OnTrack(props, data, steps) && offset == Consumed(steps) && fields == FieldsOf(steps)
    && |table| == |props| && Padded(table, NumericsOf(steps))
  }

  lemma {:induction false} LoopNext(
    props: seq<PropertyMeta>, data: seq<byte>, steps: seq<Step>, offset: nat, fields: seq<Field>,
    table: seq<Option<nat>>, parsed: Parsed)
    requires LoopState(props, data, steps, offset, fields, table) && |steps| < |props| && offset < |data|
    requires PropertyValue(props[|steps|], table, data[offset..]) == Some(parsed)
    ensures var field := Field(props[|steps|].name, parsed.value);
            LoopState(props, data, steps + [Step(field, parsed.consumed)], offset + parsed.consumed, fields + [field],
                      table[|steps| := Numeric(parsed.value)])
  {
    PaddingIsIrrelevant(props[|steps|], table, NumericsOf(steps), data[offset..]);
    OnTrackNext(props, data, steps, parsed);
    Snoc(steps, Step(Field(props[|steps|].name, parsed.value), parsed.consumed));
    TableSnoc(table, NumericsOf(steps), Numeric(parsed.value));
  }

  /** Where the loop stops: at the end of the schema or of the data, or at a property that cannot be decoded. */
  lemma {:induction false} LoopEnds(
    props: seq<PropertyMeta>, data: seq<byte>, steps: seq<Step>, offset: nat, fields: seq<Field>,
    table: seq<Option<nat>>)
    requires LoopState(props, data, steps, offset, fields, table)
    requires |steps| == |props| || offset == |data| || PropertyValue(props[|steps|], table, data[offset..]).None?
    ensures fields == FieldsOfPayload(props, data)
  {
    if |steps| < |props| {
      PaddingIsIrrelevant(props[|steps|], table, NumericsOf(steps), data[offset..]);
    }
    OnTrackEnds(props, data, steps);
  }

  lemma {:induction false} LoopStarts(props: seq<PropertyMeta>, data: seq<byte>)
    ensures LoopState(props, data, [], 0, [], seq(|props|, _ => None))
  {
    assert data[0..] == data && [] + StepsFrom(props, [], data) == StepsFrom(props, [], data);
  }

  method ParseValues(props: seq<PropertyMeta>, data: seq<byte>) returns (fields: seq<Field>)
    ensures fields == FieldsOfPayload(props, data)
  {
    fields := [];
    var offset := 0;
    var table: seq<Option<nat>> := seq(|props|, _ => None);
    ghost var steps: seq<Step> := [];
    LoopStarts(props, data);
    for i := 0 to |props|
      invariant |steps| == i && offset <= |data| && |table| == |props|
      invariant LoopState(props, data, steps, offset, fields, table)
    {
      if offset >= |data| {
        break;
      }
      var prop := props[i];
      var parsed := PropertyValue(prop, table, data[offset..]);
      if parsed.None? {
        break;
      }
      var Parsed(value, consumed) := parsed.value;
      LoopNext(props, data, steps, offset, fields, table, parsed.value);
      steps := steps + [Step(Field(prop.name, value), consumed)];
      table := table[i := Numeric(value)];
      fields := fields + [Field(prop.name, value)];
      offset := offset + consumed;
    }
    LoopEnds(props, data, steps, offset, fields, table);
  }

  lemma {:induction false} TableSnoc(table: seq<Option<nat>>, numerics: seq<Option<nat>>, n: Option<nat>)
    requires Padded(table, numerics) && |numerics| < |table|
    ensures Padded(table[|numerics| := n], numerics + [n])
  {
  }
}
