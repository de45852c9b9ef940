/**
 Opcodes an ETW session discards (src/etw/session.rs, `OpcodeDrop`, `is_dropped`, `drop_opcodes`):
 one 256-bit set per event class, as four 64-bit words.
 */
module OpcodeDrops {

  datatype KernelEventClass = TcpIp | UdpIp | FileIo | Registry

  /** Provider GUIDs; those of the four classes are distinct from each other and from all others. */
  datatype Guid = ClassGuid(kernelClass: KernelEventClass) | OtherGuid(id: nat)

  datatype OpcodeDrop = OpcodeDrop(provider: Guid, opcodes: seq<bv64>) {
    predicate Valid() { |opcodes| == 4 }

    /** `self.opcodes[opcode / 64] >> (opcode % 64) & 1 == 1` */
    predicate Contains(opcode: bv8)
      requires Valid()
    {
      HasBit(opcodes[Word(opcode)], opcode)
    }
  }

  /** `usize::from(opcode / 64)` */
  function Word(opcode: bv8): (i: nat)
    ensures i < 4
  {
    if opcode / 64 == 0 then 0 else if opcode / 64 == 1 then 1 else if opcode / 64 == 2 then 2 else 3
  }

  predicate HasBit(word: bv64, opcode: bv8) {
    (word >> (opcode % 64)) & 1 == 1
  }

  function WithBit(word: bv64, opcode: bv8): (w: bv64)
  {
    word | (1 << (opcode % 64))
  }

  lemma BitOfWithBit(word: bv64, a: bv8, b: bv8)
    ensures HasBit(WithBit(word, a), b) <==> a % 64 == b % 64 || HasBit(word, b)
  {
  }

  lemma WordAndBitIdentify(a: bv8, b: bv8)
    requires Word(a) == Word(b) && a % 64 == b % 64
    ensures a == b
  {
    assert a / 64 == b / 64;
    assert a == (a / 64) * 64 + a % 64;
  }

  lemma EmptyWord(opcode: bv8)
    ensures !HasBit(0, opcode)
  {
  }

  // ----- the list of drops -----

  /** At most one entry per class, each with its four words. */
  ghost predicate ValidDrops(drops: seq<OpcodeDrop>) {
    && (forall i :: 0 <= i < |drops| ==> drops[i].Valid())
    && (forall i, j :: 0 <= i < j < |drops| ==> drops[i].provider != drops[j].provider)
  }

  /** Some entry of the class holds the opcode. */
  ghost predicate Listed(drops: seq<OpcodeDrop>, provider: Guid, opcode: bv8)
    requires ValidDrops(drops)
  {
    exists i :: 0 <= i < |drops| && drops[i].provider == provider && drops[i].Contains(opcode)
  }

  /** `is_dropped`: a linear scan. */
  method IsDropped(drops: seq<OpcodeDrop>, provider: Guid, opcode: bv8) returns (r: bool)
    requires ValidDrops(drops)
    ensures r <==> Listed(drops, provider, opcode)
  {
    for i := 0 to |drops|
      invariant forall k :: 0 <= k < i ==> !(drops[k].provider == provider && drops[k].Contains(opcode))
    {
      if drops[i].provider == provider && drops[i].Contains(opcode) {
        return true;
      }
    }
    return false;
  }

  /** The word set with more opcodes in it, in order. */
  method AddOpcodes(words: seq<bv64>, provider: Guid, opcodes: seq<bv8>) returns (r: seq<bv64>)
    requires |words| == 4
    ensures |r| == 4
    ensures forall op ::
              OpcodeDrop(provider, r).Contains(op) <==> OpcodeDrop(provider, words).Contains(op) || op in opcodes
  {
    r := words;
    for k := 0 to |opcodes|
      invariant |r| == 4
      invariant forall op ::
                  OpcodeDrop(provider, r).Contains(op)
                  <==> OpcodeDrop(provider, words).Contains(op) || op in opcodes[..k]
    {
      var opcode := opcodes[k];
      ghost var before := r;
      r := r[Word(opcode) := WithBit(r[Word(opcode)], opcode)];
      forall op: bv8
        ensures OpcodeDrop(provider, r).Contains(op) <==> OpcodeDrop(provider, before).Contains(op) || op == opcode
      {
        AddOne(before, provider, opcode, op);
      }
      assert opcodes[..k + 1] == opcodes[..k] + [opcode];
    }
    assert opcodes[..|opcodes|] == opcodes;
  }

  lemma AddOne(words: seq<bv64>, provider: Guid, opcode: bv8, op: bv8)
    requires |words| == 4
    ensures OpcodeDrop(provider, words[Word(opcode) := WithBit(words[Word(opcode)], opcode)]).Contains(op)
            <==> OpcodeDrop(provider, words).Contains(op) || op == opcode
  {
    BitOfWithBit(words[Word(opcode)], opcode, op);
    if Word(op) == Word(opcode) && op % 64 == opcode % 64 {
      WordAndBitIdentify(op, opcode);
    }
  }

  /** The part of the session builder that holds the drops. */
  class Builder {
    var opcodeDrops: seq<OpcodeDrop>

    constructor ()
      ensures opcodeDrops == []
    {
      opcodeDrops := [];
    }

    /** `drop_opcodes`: calls for the same class accumulate, other classes are untouched. */
    method DropOpcodes(kernelClass: KernelEventClass, opcodes: seq<bv8>)
      requires ValidDrops(opcodeDrops)
      modifies this
      ensures ValidDrops(opcodeDrops)
      ensures forall g, op ::
                Listed(opcodeDrops, g, op)
                <==> old(Listed(opcodeDrops, g, op)) || (g == ClassGuid(kernelClass) && op in opcodes)
    {
      var guid := ClassGuid(kernelClass);
      ghost var before := opcodeDrops;
      var index := 0;
      while index < |opcodeDrops| && opcodeDrops[index].provider != guid
        invariant 0 <= index <= |opcodeDrops|
        invariant forall k :: 0 <= k < index ==> opcodeDrops[k].provider != guid
      {
        index := index + 1;
      }
      if index == |opcodeDrops| {
        opcodeDrops := opcodeDrops + [OpcodeDrop(guid, [0, 0, 0, 0])];
      }
      ghost var grown := opcodeDrops;
      var words := AddOpcodes(opcodeDrops[index].opcodes, guid, opcodes);
      opcodeDrops := opcodeDrops[index := OpcodeDrop(guid, words)];
      forall g: Guid, op: bv8
        ensures Listed(opcodeDrops, g, op) <==> Listed(before, g, op) || (g == guid && op in opcodes)
      {
        GrownListsTheSame(before, grown, guid, g, op);
        ReplaceEntry(grown, opcodeDrops, index, guid, opcodes, g, op);
      }
    }
  }

  /** An added empty entry lists nothing. */
  lemma GrownListsTheSame(before: seq<OpcodeDrop>, grown: seq<OpcodeDrop>, guid: Guid, g: Guid, op: bv8)
    requires ValidDrops(before) && ValidDrops(grown)
    requires grown == before || grown == before + [OpcodeDrop(guid, [0, 0, 0, 0])]
    ensures Listed(grown, g, op) <==> Listed(before, g, op)
  {
    EmptyWord(op);
    assert !OpcodeDrop(guid, [0, 0, 0, 0]).Contains(op);
    if Listed(before, g, op) {
      var i :| 0 <= i < |before| && before[i].provider == g && before[i].Contains(op);
      assert grown[i] == before[i];
    }
  }

  lemma ReplaceEntry(grown: seq<OpcodeDrop>, drops: seq<OpcodeDrop>, index: nat, guid: Guid, opcodes: seq<bv8>,
                     g: Guid, op: bv8)
    requires ValidDrops(grown) && ValidDrops(drops) && index < |grown| && grown[index].provider == guid
    requires |drops| == |grown| && drops[index].provider == guid
    requires forall i :: 0 <= i < |grown| && i != index ==> drops[i] == grown[i]
    requires drops[index].Contains(op) <==> grown[index].Contains(op) || op in opcodes
    ensures Listed(drops, g, op) <==> Listed(grown, g, op) || (g == guid && op in opcodes)
  {
    if Listed(grown, g, op) {
      var i :| 0 <= i < |grown| && grown[i].provider == g && grown[i].Contains(op);
      assert drops[i].provider == g && drops[i].Contains(op);
    }
    if g == guid && op in opcodes {
      assert drops[index].Contains(op);
    }
    if Listed(drops, g, op) {
      var i :| 0 <= i < |drops| && drops[i].provider == g && drops[i].Contains(op);
      if i == index && grown[index].Contains(op) {
        assert grown[i].provider == g && grown[i].Contains(op);
      } else if i != index {
        assert grown[i].provider == g && grown[i].Contains(op);
      }
    }
  }

  datatype Call = Call(kernelClass: KernelEventClass, opcodes: seq<bv8>)

  ghost predicate Named(calls: seq<Call>, g: Guid, op: bv8) {
    exists i :: 0 <= i < |calls| && ClassGuid(calls[i].kernelClass) == g && op in calls[i].opcodes
  }

  /**
   For every sequence of `drop_opcodes` calls: an event is dropped exactly when some call named its
   class and its opcode, and there is at most one entry per class.
   */
  method Configure(calls: seq<Call>) returns (drops: seq<OpcodeDrop>)
    ensures ValidDrops(drops)
    ensures forall g, op :: Listed(drops, g, op) <==> Named(calls, g, op)
  {
    var builder := new Builder();
    for i := 0 to |calls|
      invariant ValidDrops(builder.opcodeDrops)
      invariant forall g, op :: Listed(builder.opcodeDrops, g, op) <==> Named(calls[..i], g, op)
    {
      forall g: Guid, op: bv8
        ensures Named(calls[..i + 1], g, op)
                <==> Named(calls[..i], g, op) || (g == ClassGuid(calls[i].kernelClass) && op in calls[i].opcodes)
      {
        NamedSnoc(calls, i, g, op);
      }
      builder.DropOpcodes(calls[i].kernelClass, calls[i].opcodes);
    }
    assert calls[..|calls|] == calls;
    drops := builder.opcodeDrops;
  }

  lemma NamedSnoc(calls: seq<Call>, i: nat, g: Guid, op: bv8)
    requires i < |calls|
    ensures Named(calls[..i + 1], g, op)
            <==> Named(calls[..i], g, op) || (g == ClassGuid(calls[i].kernelClass) && op in calls[i].opcodes)
  {
    var longer, shorter := calls[..i + 1], calls[..i];
    assert longer == shorter + [calls[i]];
    if Named(shorter, g, op) {
      var k :| 0 <= k < |shorter| && ClassGuid(shorter[k].kernelClass) == g && op in shorter[k].opcodes;
      assert longer[k] == shorter[k];
    }
    if g == ClassGuid(calls[i].kernelClass) && op in calls[i].opcodes {
      assert longer[i] == calls[i];
    }
  }
}
