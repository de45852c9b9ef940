/**
 The 32-bit addition of the RVA translation (src/file/pe.rs, `rva_to_offset`), which an
 overflow-checked build stops at: which section tables let it overflow, and what that means for the
 import walk.
 */
module PeOverflow {
  import opened Wrappers
  import opened Bytes
  import opened Sequences
  import opened PeHeaders
  import opened PeImports

  // ----- addresses -----

  /** The end of the addresses a section claims. */
  function ClaimEnd(s: Section): (end: nat)
    ensures end <= 0xFFFF_FFFF
  {
    var extent: int := if s.virtualSize >= s.rawSize then s.virtualSize else s.rawSize;
    Min(s.virtualAddress as int + extent, 0xFFFF_FFFF)
  }

  /** The first address whose translation by the section does not fit 32 bits. */
  function FirstBeyond(s: Section): (rva: nat)
    ensures rva > 0
  {
    s.virtualAddress as int + 0x1_0000_0000 - s.rawOffset as int
  }

  lemma ClaimsAre(s: Section, rva: u32)
    ensures Claims(s, rva) <==> s.virtualAddress <= rva < ClaimEnd(s)
    ensures Claims(s, rva) ==> (OffsetOverflows(s, rva) <==> rva >= FirstBeyond(s))
  {
  }

  /** Section k is the first in the table that claims the address. */
  predicate FirstClaims(sections: seq<Section>, k: nat, rva: u32)
    requires k < |sections|
  {
    Claims(sections[k], rva) && forall i :: 0 <= i < k ==> !Claims(sections[i], rva)
  }

  predicate OverflowsAt(sections: seq<Section>, k: nat, rva: u32)
    requires k < |sections|
  {
    FirstClaims(sections, k, rva) && OffsetOverflows(sections[k], rva)
  }

  /** Translating the address overflows. */
  ghost predicate Overflows(sections: seq<Section>, rva: u32) {
    exists k :: 0 <= k < |sections| && OverflowsAt(sections, k, rva)
  }

  ghost predicate NeverOverflows(sections: seq<Section>) {
    forall rva: u32 :: !Overflows(sections, rva)
  }

  // ----- the addresses to try -----

  /** Where an address beyond the room of section k can first be free of the sections before it. */
  function Candidate(sections: seq<Section>, k: nat, j: nat): (rva: nat)
    requires j <= k < |sections|
  {
    if j == k then FirstBeyond(sections[k]) else ClaimEnd(sections[j])
  }

  predicate TriedOverflow(sections: seq<Section>, k: nat, j: nat)
    requires j <= k < |sections|
  {
    Candidate(sections, k, j) < 0x1_0000_0000 && OverflowsAt(sections, k, Candidate(sections, k, j))
  }

  /** The largest candidate up to x, among the ends of the first m sections and the section's own limit. */
  lemma {:induction false} LargestCandidate(sections: seq<Section>, k: nat, m: nat, x: nat) returns (j: nat)
    requires m <= k < |sections| && FirstBeyond(sections[k]) <= x
    ensures j <= k && FirstBeyond(sections[k]) <= Candidate(sections, k, j) <= x
    ensures forall i :: 0 <= i < m && ClaimEnd(sections[i]) <= x ==> ClaimEnd(sections[i]) <= Candidate(sections, k, j)
  {
    if m == 0 {
      j := k;
    } else {
      j := LargestCandidate(sections, k, m - 1, x);
      if Candidate(sections, k, j) < ClaimEnd(sections[m - 1]) <= x {
        j := m - 1;
      }
    }
  }

  /** If any address overflows in section k, then one of the candidates does. */
  lemma CandidateOverflows(sections: seq<Section>, k: nat, rva: u32) returns (j: nat)
    requires k < |sections| && OverflowsAt(sections, k, rva)
    ensures j <= k && TriedOverflow(sections, k, j)
  {
    ClaimsAre(sections[k], rva);
    j := LargestCandidate(sections, k, k, rva);
    var c: u32 := Candidate(sections, k, j);
    ClaimsAre(sections[k], c);
    forall i | 0 <= i < k ensures !Claims(sections[i], c) {
      assert !Claims(sections[i], rva);
      ClaimsAre(sections[i], rva);
      ClaimsAre(sections[i], c);
    }
  }

  /** An address whose translation overflows, found among finitely many; None exactly if there is none at all. */
  method FindOverflow(sections: seq<Section>) returns (r: Option<u32>)
    ensures r.Some? ==> Overflows(sections, r.value)
    ensures r.None? <==> NeverOverflows(sections)
  {
    for k := 0 to |sections|
      invariant forall a, b :: 0 <= b <= a < k ==> !TriedOverflow(sections, a, b)
    {
      for j := 0 to k + 1
        invariant forall b :: 0 <= b < j ==> !TriedOverflow(sections, k, b)
      {
        if TriedOverflow(sections, k, j) {
          assert Overflows(sections, Candidate(sections, k, j));
          return Some(Candidate(sections, k, j));
        }
      }
    }
    forall rva: u32 ensures !Overflows(sections, rva) {
      if Overflows(sections, rva) {
        var k :| 0 <= k < |sections| && OverflowsAt(sections, k, rva);
        var j := CandidateOverflows(sections, k, rva);
      }
    }
    r := None;
  }

  /** Sections whose claimed addresses all have room below 4 GiB never overflow. */
  lemma RoomyNeverOverflows(sections: seq<Section>)
    requires forall i :: 0 <= i < |sections| ==> ClaimEnd(sections[i]) <= FirstBeyond(sections[i])
    ensures NeverOverflows(sections)
  {
    forall rva: u32 ensures !Overflows(sections, rva) {
      forall k | 0 <= k < |sections| ensures !OverflowsAt(sections, k, rva) {
        ClaimsAre(sections[k], rva);
      }
    }
  }

  // ----- the walk of an overflow-checked build -----

  /** A value, or the panic of an addition that overflowed. */
  datatype Checked<+T> = Fine(value: T) | Overflowed {
    predicate IsFailure() { Overflowed? }
    function PropagateFailure<U>(): Checked<U>
      requires Overflowed?
    {
      Overflowed
    }
    function Extract(): T
      requires Fine?
    {
      value
    }
  }

  function CheckedRvaIn(sections: seq<Section>, rva: u32): (r: Checked<Option<u32>>)
  {
    if sections == [] then Fine(None)
    else if !Claims(sections[0], rva) then CheckedRvaIn(sections[1..], rva)
    else if OffsetOverflows(sections[0], rva) then Overflowed
    else Fine(Some(SectionOffset(sections[0], rva)))
  }

  function CheckedRva(h: Headers, rva: u32): (r: Checked<Option<u32>>)
  {
    if rva == 0 then Fine(None) else CheckedRvaIn(h.sections, rva)
  }

  lemma OverflowsTail(sections: seq<Section>, rva: u32)
    requires sections != [] && !Claims(sections[0], rva)
    ensures Overflows(sections, rva) <==> Overflows(sections[1..], rva)
  {
    var tail := sections[1..];
    if Overflows(sections, rva) {
      var k :| 0 <= k < |sections| && OverflowsAt(sections, k, rva);
      assert k > 0;
      forall i | 0 <= i < k - 1 ensures !Claims(tail[i], rva) {
        assert !Claims(sections[i + 1], rva);
      }
      assert OverflowsAt(tail, k - 1, rva);
    }
    if Overflows(tail, rva) {
      var k :| 0 <= k < |tail| && OverflowsAt(tail, k, rva);
      forall i | 0 <= i < k + 1 ensures !Claims(sections[i], rva) {
        assert i > 0 ==> !Claims(tail[i - 1], rva);
      }
      assert OverflowsAt(sections, k + 1, rva);
    }
  }

  /** The translation panics exactly at the addresses that overflow, and otherwise answers as before. */
  lemma {:induction false} CheckedRvaIs(sections: seq<Section>, rva: u32)
    ensures CheckedRvaIn(sections, rva)
         == if Overflows(sections, rva) then Overflowed else Fine(RvaToOffsetIn(sections, rva))
    decreases |sections|
  {
    if sections != [] {
      if Claims(sections[0], rva) {
        assert OffsetOverflows(sections[0], rva) ==> OverflowsAt(sections, 0, rva);
        forall k | 0 < k < |sections| ensures !OverflowsAt(sections, k, rva) {
        }
      } else {
        OverflowsTail(sections, rva);
        CheckedRvaIs(sections[1..], rva);
      }
    }
  }

  lemma CheckedRvaOr(h: Headers, rva: u32)
    ensures CheckedRva(h, rva) == if Overflows(h.sections, rva) then Overflowed else Fine(RvaToOffset(h, rva))
  {
    CheckedRvaIs(h.sections, rva);
    if rva == 0 {
      forall k | 0 <= k < |h.sections| ensures !OverflowsAt(h.sections, k, rva) {
        ClaimsAre(h.sections[k], rva);
      }
    }
  }

  function CheckedResolve(h: Headers, bytes: seq<byte>, thunk: nat): (r: Checked<Option<seq<byte>>>)
  {
    if thunk >= OrdinalFlag(h) then Fine(Some(OrdinalSymbol(Low16(thunk))))
    else if thunk >= 0x1_0000_0000 then Fine(None)
    else
      var offset :- CheckedRva(h, thunk);
      if offset.None? then Fine(None)
      else
        var name := ReadCString(bytes, offset.value + 2);
        Fine(if name.None? then None else Some(Lower(name.value)))
  }

  function CheckedThunks(h: Headers, bytes: seq<byte>, offset: nat, dll: seq<byte>, rounds: nat)
    : (r: Checked<seq<Import>>)
    decreases rounds, bytes
  {
    var thunk := ThunkAt(h, bytes, offset);
    if rounds == 0 || thunk.None? || thunk.value == 0 then Fine([])
    else
      var symbol :- CheckedResolve(h, bytes, thunk.value);
      var rest :- CheckedThunks(h, bytes, offset + ThunkSize(h), dll, rounds - 1);
      Fine((if symbol.Some? then [Import(dll, symbol.value)] else []) + rest)
  }

  function CheckedContribution(h: Headers, bytes: seq<byte>, d: Descriptor): (r: Checked<seq<Import>>)
  {
    var nameOffset :- CheckedRva(h, d.nameRva);
    var name := if nameOffset.None? then None else ReadCString(bytes, nameOffset.value);
    if name.None? then Fine([]) else CheckedTable(h, bytes, d, Lower(name.value))
  }

  function CheckedTable(h: Headers, bytes: seq<byte>, d: Descriptor, dll: seq<byte>): (r: Checked<seq<Import>>)
  {
    var thunks :- CheckedRva(h, if d.originalFirstThunk != 0 then d.originalFirstThunk else d.firstThunk);
    if thunks.None? then Fine([]) else CheckedThunks(h, bytes, thunks.value, dll, CAP)
  }

  function CheckedContributions(h: Headers, bytes: seq<byte>, ds: seq<Descriptor>): (r: Checked<seq<Import>>)
    decreases |ds|
  {
    if ds == [] then Fine([])
    else
      var first :- CheckedContribution(h, bytes, ds[0]);
      var rest :- CheckedContributions(h, bytes, ds[1..]);
      Fine(first + rest)
  }

  /** `parse_imports` in an overflow-checked build. */
  function CheckedImports(h: Headers, bytes: seq<byte>): (r: Checked<seq<Import>>)
  {
    var directory := DataDirectory(h, 1, bytes);
    if directory.None? then Fine([])
    else
      var start :- CheckedRva(h, directory.value.0);
      if start.None? then Fine([]) else CheckedContributions(h, bytes, DescriptorsFrom(bytes, start.value, CAP))
  }

  // ----- the addresses an image has translated -----

  /** The addresses in the thunks from `offset` on: those that are no ordinals and fit 32 bits. */
  function ThunkAddresses(h: Headers, bytes: seq<byte>, offset: nat, rounds: nat): (r: seq<u32>)
    decreases rounds, bytes
  {
    var thunk := ThunkAt(h, bytes, offset);
    if rounds == 0 || thunk.None? || thunk.value == 0 then []
    else ThunkAddress(h, thunk.value) + ThunkAddresses(h, bytes, offset + ThunkSize(h), rounds - 1)
  }

  function ThunkAddress(h: Headers, thunk: nat): (r: seq<u32>)
  {
    if thunk < OrdinalFlag(h) && thunk < 0x1_0000_0000 then [thunk] else []
  }

  /** The addresses of one descriptor: its name; if that is readable its table; and those in the table. */
  function DescriptorAddresses(h: Headers, bytes: seq<byte>, d: Descriptor): (r: seq<u32>)
  {
    [d.nameRva] + if DllName(h, bytes, d).None? then [] else TableAddresses(h, bytes, d)
  }

  function TableAddresses(h: Headers, bytes: seq<byte>, d: Descriptor): (r: seq<u32>)
  {
    [if d.originalFirstThunk != 0 then d.originalFirstThunk else d.firstThunk]
    + if ThunkTable(h, d).None? then [] else ThunkAddresses(h, bytes, ThunkTable(h, d).value, CAP)
  }

  function AllDescriptorAddresses(h: Headers, bytes: seq<byte>, ds: seq<Descriptor>): (r: seq<u32>)
    decreases |ds|
  {
    if ds == [] then []
    else DescriptorAddresses(h, bytes, ds[0]) + AllDescriptorAddresses(h, bytes, ds[1..])
  }

  /** Every address that the import walk of this image translates, in order. */
  function ImportAddresses(h: Headers, bytes: seq<byte>): (r: seq<u32>)
  {
    var directory := DataDirectory(h, 1, bytes);
    if directory.None? then []
    else
      var start := RvaToOffset(h, directory.value.0);
      [directory.value.0]
      + if start.None? then [] else AllDescriptorAddresses(h, bytes, DescriptorsFrom(bytes, start.value, CAP))
  }

  /** None of the addresses overflows. */
  ghost predicate Clear(sections: seq<Section>, addresses: seq<u32>)
    decreases |addresses|
  {
    addresses == [] || (!Overflows(sections, addresses[0]) && Clear(sections, addresses[1..]))
  }

  lemma {:induction false} ClearConcat(sections: seq<Section>, a: seq<u32>, b: seq<u32>)
    ensures Clear(sections, a + b) <==> Clear(sections, a) && Clear(sections, b)
    decreases |a|
  {
    if a == [] {
      EmptyLeft(b);
    } else {
      assert (a + b)[1..] == a[1..] + b;
      ClearConcat(sections, a[1..], b);
    }
  }

  lemma {:induction false} ClearOne(sections: seq<Section>, rva: u32)
    ensures Clear(sections, [rva]) <==> !Overflows(sections, rva)
  {
    assert [rva][1..] == [];
  }

  lemma {:induction false} ClearIff(sections: seq<Section>, addresses: seq<u32>)
    ensures Clear(sections, addresses)
            <==> forall i :: 0 <= i < |addresses| ==> !Overflows(sections, addresses[i])
    decreases |addresses|
  {
    if addresses != [] {
      var rest := addresses[1..];
      ClearIff(sections, rest);
      if Clear(sections, addresses) {
        forall i | 0 <= i < |addresses| ensures !Overflows(sections, addresses[i]) {
          if i > 0 {
            assert addresses[i] == rest[i - 1];
          }
        }
      }
    }
  }

  /** What a checked walk gives: the value, unless one of the addresses overflows. */
  function Unless<T>(clear: bool, value: T): (r: Checked<T>)
  {
    if clear then Fine(value) else Overflowed
  }

  lemma ResolveChecks(h: Headers, bytes: seq<byte>, thunk: nat)
    ensures CheckedResolve(h, bytes, thunk)
         == Unless(Clear(h.sections, ThunkAddress(h, thunk)), ResolveThunk(h, bytes, thunk))
  {
    if thunk < OrdinalFlag(h) && thunk < 0x1_0000_0000 {
      CheckedRvaOr(h, thunk);
      ClearOne(h.sections, thunk);
    }
  }

  lemma {:induction false} ThunksCheck(h: Headers, bytes: seq<byte>, offset: nat, dll: seq<byte>, rounds: nat)
    ensures CheckedThunks(h, bytes, offset, dll, rounds)
         == Unless(Clear(h.sections, ThunkAddresses(h, bytes, offset, rounds)),
                   ThunksFrom(h, bytes, offset, dll, rounds))
    decreases rounds
  {
    var thunk := ThunkAt(h, bytes, offset);
    if rounds > 0 && thunk.Some? && thunk.value != 0 {
      ResolveChecks(h, bytes, thunk.value);
      ThunksCheck(h, bytes, offset + ThunkSize(h), dll, rounds - 1);
      ClearConcat(h.sections, ThunkAddress(h, thunk.value),
                  ThunkAddresses(h, bytes, offset + ThunkSize(h), rounds - 1));
    }
  }

  function TableContribution(h: Headers, bytes: seq<byte>, d: Descriptor, dll: seq<byte>): (r: seq<Import>)
  {
    var thunks := ThunkTable(h, d);
    if thunks.None? then [] else ThunksFrom(h, bytes, thunks.value, dll, CAP)
  }

  lemma TableChecks(h: Headers, bytes: seq<byte>, d: Descriptor, dll: seq<byte>)
    ensures CheckedTable(h, bytes, d, dll)
         == Unless(Clear(h.sections, TableAddresses(h, bytes, d)), TableContribution(h, bytes, d, dll))
  {
    var first := if d.originalFirstThunk != 0 then d.originalFirstThunk else d.firstThunk;
    var thunks := ThunkTable(h, d);
    CheckedRvaOr(h, first);
    ClearOne(h.sections, first);
    if thunks.Some? {
      ThunksCheck(h, bytes, thunks.value, dll, CAP);
      ClearConcat(h.sections, [first], ThunkAddresses(h, bytes, thunks.value, CAP));
    } else {
      EmptyRight([first]);
    }
  }

  lemma ContributionChecks(h: Headers, bytes: seq<byte>, d: Descriptor)
    ensures CheckedContribution(h, bytes, d)
         == Unless(Clear(h.sections, DescriptorAddresses(h, bytes, d)), Contribution(h, bytes, d))
  {
    var dll := DllName(h, bytes, d);
    CheckedRvaOr(h, d.nameRva);
    ClearOne(h.sections, d.nameRva);
    if dll.Some? {
      TableChecks(h, bytes, d, Lower(dll.value));
      ClearConcat(h.sections, [d.nameRva], TableAddresses(h, bytes, d));
    } else {
      EmptyRight([d.nameRva]);
    }
  }

  lemma {:induction false} ContributionsCheck(h: Headers, bytes: seq<byte>, ds: seq<Descriptor>)
    ensures CheckedContributions(h, bytes, ds)
         == Unless(Clear(h.sections, AllDescriptorAddresses(h, bytes, ds)), Contributions(h, bytes, ds))
    decreases |ds|
  {
    if ds != [] {
      ContributionChecks(h, bytes, ds[0]);
      ContributionsHead(h, bytes, ds);
      ContributionsCheck(h, bytes, ds[1..]);
      ClearConcat(h.sections, DescriptorAddresses(h, bytes, ds[0]), AllDescriptorAddresses(h, bytes, ds[1..]));
    }
  }

  /**
   For every image: the import walk of an overflow-checked build panics exactly if one of the addresses it
   translates overflows, and otherwise gives the imports.
   */
  lemma ImportsCheck(h: Headers, bytes: seq<byte>)
    ensures CheckedImports(h, bytes) == Unless(Clear(h.sections, ImportAddresses(h, bytes)), ImportsOf(h, bytes))
  {
    var directory := DataDirectory(h, 1, bytes);
    if directory.Some? {
      var rva := directory.value.0;
      CheckedRvaOr(h, rva);
      ClearOne(h.sections, rva);
      var start := RvaToOffset(h, rva);
      if start.Some? {
        var ds := DescriptorsFrom(bytes, start.value, CAP);
        ContributionsCheck(h, bytes, ds);
        ClearConcat(h.sections, [rva], AllDescriptorAddresses(h, bytes, ds));
      } else {
        EmptyRight([rva]);
      }
    }
  }

  lemma {:induction false} NeverOverflowsIsClear(sections: seq<Section>, addresses: seq<u32>)
    requires NeverOverflows(sections)
    ensures Clear(sections, addresses)
  {
    ClearIff(sections, addresses);
  }
}
