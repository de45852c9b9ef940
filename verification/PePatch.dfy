/**
 Changing bytes of a PE image: which headers survive, and how a free word sets the checksum. With it an
 image that was parsed is turned into others with exactly the same headers.
 */
module PePatch {
  import opened Bytes
  import opened Sequences
  import opened PeChecksum
  import opened PeHeaders

  // ----- overwriting -----

  /** The bytes with `data` copied to `at`; zeros in between where that lies behind their end. */
  function Overwrite(bytes: seq<byte>, at: nat, data: seq<byte>): (r: seq<byte>)
    ensures |r| == if at + |data| > |bytes| then at + |data| else |bytes|
    ensures forall i :: 0 <= i < |r| ==> r[i] == OverwrittenByte(bytes, at, data, i)
  {
    var size := if at + |data| > |bytes| then at + |data| else |bytes|;
    seq(size, i requires 0 <= i < size => OverwrittenByte(bytes, at, data, i))
  }

  function OverwrittenByte(bytes: seq<byte>, at: nat, data: seq<byte>, i: nat): (b: byte)
  {
    if at <= i < at + |data| then data[i - at] else if i < |bytes| then bytes[i] else 0
  }

  /** What is written at `at` does not touch the k bytes at `offset`. */
  predicate Apart(at: nat, size: nat, offset: nat, k: nat) {
    offset + k <= at || at + size <= offset
  }

  /** What is written is what was there, as far as the k bytes at `offset` go. */
  ghost predicate Agrees(bytes: seq<byte>, at: nat, data: seq<byte>, offset: nat, k: nat) {
    offset + k <= |bytes| && forall i :: offset <= i < offset + k ==> OverwrittenByte(bytes, at, data, i) == bytes[i]
  }

  lemma HoldsKept(bytes: seq<byte>, at: nat, data: seq<byte>, offset: nat, n: nat, k: nat)
    requires Holds(bytes, offset, n, k) && (Apart(at, |data|, offset, k) || Agrees(bytes, at, data, offset, k))
    ensures Holds(Overwrite(bytes, at, data), offset, n, k)
  {
    assert Overwrite(bytes, at, data)[offset..offset + k] == bytes[offset..offset + k];
  }

  lemma DataWritten(bytes: seq<byte>, at: nat, data: seq<byte>)
    ensures Overwrite(bytes, at, data)[at..at + |data|] == data
  {
  }

  lemma HoldsWritten(bytes: seq<byte>, at: nat, n: nat, k: nat)
    requires n < Pow256(k)
    ensures Holds(Overwrite(bytes, at, ToLe(n, k)), at, n, k)
  {
    assert Overwrite(bytes, at, ToLe(n, k))[at..at + k] == ToLe(n, k);
  }

  // ----- headers -----

  predicate FixedApart(nt: nat, wide: bool, at: nat, size: nat) {
    && Apart(at, size, 0, 2) && Apart(at, size, 0x3C, 4) && Apart(at, size, nt, 4)
    && Apart(at, size, nt + 6, 2) && Apart(at, size, nt + 20, 2) && Apart(at, size, nt + 24, 2)
    && Apart(at, size, nt + 24 + (if wide then 0x6C else 0x5C), 4)
  }

  /** Of a section header only the four fields from offset 8 to 24 matter. */
  predicate SectionsApart(table: nat, n: nat, at: nat, size: nat) {
    forall i :: 0 <= i < n ==> Apart(at, size, table + 40 * i + 8, 16)
  }

  lemma FixedKept(bytes: seq<byte>, nt: nat, size: nat, h: Headers, at: nat, data: seq<byte>)
    requires FixedFieldsAt(bytes, nt, size, h) && FixedApart(nt, h.is64Bit, at, |data|)
    ensures FixedFieldsAt(Overwrite(bytes, at, data), nt, size, h)
  {
    HoldsKept(bytes, at, data, 0, IMAGE_DOS_SIGNATURE, 2);
    HoldsKept(bytes, at, data, 0x3C, nt, 4);
    HoldsKept(bytes, at, data, nt, IMAGE_NT_SIGNATURE, 4);
    HoldsKept(bytes, at, data, nt + 6, |h.sections|, 2);
    HoldsKept(bytes, at, data, nt + 20, size, 2);
    HoldsKept(bytes, at, data, nt + 24, if h.is64Bit then MAGIC_PE32_PLUS else MAGIC_PE32, 2);
    HoldsKept(bytes, at, data, nt + 24 + (if h.is64Bit then 0x6C else 0x5C), h.numberOfRvaAndSizes, 4);
  }

  lemma SectionKept(bytes: seq<byte>, base: nat, s: Section, at: nat, data: seq<byte>)
    requires SectionHolds(bytes, base, s) && Apart(at, |data|, base + 8, 16)
    ensures SectionHolds(Overwrite(bytes, at, data), base, s)
  {
    HoldsKept(bytes, at, data, base + 8, s.virtualSize, 4);
    HoldsKept(bytes, at, data, base + 12, s.virtualAddress, 4);
    HoldsKept(bytes, at, data, base + 16, s.rawSize, 4);
    HoldsKept(bytes, at, data, base + 20, s.rawOffset, 4);
  }

  lemma SectionsKept(bytes: seq<byte>, table: nat, sections: seq<Section>, at: nat, data: seq<byte>)
    requires SectionsAt(bytes, table, sections) && SectionsApart(table, |sections|, at, |data|)
    ensures SectionsAt(Overwrite(bytes, at, data), table, sections)
  {
    forall i | 0 <= i < |sections|
      ensures SectionHolds(Overwrite(bytes, at, data), table + 40 * i, sections[i])
    {
      assert SectionHolds(bytes, table + 40 * i, sections[i]);
      assert Apart(at, |data|, table + 40 * i + 8, 16);
      SectionKept(bytes, table + 40 * i, sections[i], at, data);
    }
  }

  lemma HeadersKept(bytes: seq<byte>, nt: nat, size: nat, h: Headers, at: nat, data: seq<byte>)
    requires HeadersAt(bytes, nt, size, h)
    requires FixedApart(nt, h.is64Bit, at, |data|) && SectionsApart(nt + 24 + size, |h.sections|, at, |data|)
    ensures HeadersAt(Overwrite(bytes, at, data), nt, size, h)
  {
    var r := Overwrite(bytes, at, data);
    assert FixedFieldsAt(r, nt, size, h) by {
      FixedKept(bytes, nt, size, h, at, data);
    }
    assert SectionsAt(r, nt + 24 + size, h.sections) by {
      SectionsKept(bytes, nt + 24 + size, h.sections, at, data);
    }
  }

  /** Behind everything the headers use, anything can be written; in particular zeros appended. */
  lemma Extended(bytes: seq<byte>, nt: nat, size: nat, h: Headers, n: nat)
    requires HeadersAt(bytes, nt, size, h) && |bytes| <= n
    ensures HeadersAt(Overwrite(bytes, n, []), nt, size, h) && |Overwrite(bytes, n, [])| == n
  {
    forall i | 0 <= i < |h.sections| ensures Apart(n, 0, nt + 24 + size + 40 * i + 8, 16) {
      assert SectionHolds(bytes, nt + 24 + size + 40 * i, h.sections[i]);
    }
    HeadersKept(bytes, nt, size, h, n, []);
  }

  // ----- section tables -----

  function Zeros(n: nat): (z: seq<byte>)
    ensures |z| == n
  {
    seq(n, _ => 0)
  }

  function SectionBytes(s: Section): (b: seq<byte>)
    ensures |b| == 40
  {
    Zeros(8) + (ToLe(s.virtualSize, 4) + ToLe(s.virtualAddress, 4))
    + ((ToLe(s.rawSize, 4) + ToLe(s.rawOffset, 4)) + Zeros(16))
  }

  function TableBytes(sections: seq<Section>): (b: seq<byte>)
    ensures |b| == 40 * |sections|
  {
    if sections == [] then [] else SectionBytes(sections[0]) + TableBytes(sections[1..])
  }

  lemma {:induction false} TableBytesAt(sections: seq<Section>, i: nat)
    requires i < |sections|
    ensures TableBytes(sections)[40 * i..40 * i + 40] == SectionBytes(sections[i])
    decreases i
  {
    var first, rest := SectionBytes(sections[0]), TableBytes(sections[1..]);
    if i == 0 {
      assert (first + rest)[..40] == first;
    } else {
      TableBytesAt(sections[1..], i - 1);
      assert (first + rest)[40 * i..40 * i + 40] == rest[40 * (i - 1)..40 * (i - 1) + 40];
    }
  }

  lemma SectionBytesAre(s: Section)
    ensures var b := SectionBytes(s);
            && b[8..12] == ToLe(s.virtualSize, 4) && b[12..16] == ToLe(s.virtualAddress, 4)
            && b[16..20] == ToLe(s.rawSize, 4) && b[20..24] == ToLe(s.rawOffset, 4)
  {
    var front := Zeros(8) + (ToLe(s.virtualSize, 4) + ToLe(s.virtualAddress, 4));
    var back := (ToLe(s.rawSize, 4) + ToLe(s.rawOffset, 4)) + Zeros(16);
    var b := front + back;
    assert b[..16] == front && b[16..] == back;
    assert b[8..12] == front[8..12] && b[12..16] == front[12..16];
    assert b[16..20] == back[..4] && b[20..24] == back[4..8];
  }

  lemma SliceHolds(bytes: seq<byte>, base: nat, b: seq<byte>, a: nat, n: nat, k: nat)
    requires base + |b| <= |bytes| && bytes[base..base + |b|] == b
    requires a + k <= |b| && b[a..a + k] == ToLe(n, k) && n < Pow256(k)
    ensures Holds(bytes, base + a, n, k)
  {
    SubSlice(bytes, base, |b|, a, k);
  }

  lemma SectionStandsAt(bytes: seq<byte>, base: nat, s: Section)
    requires base + 40 <= |bytes| && bytes[base..base + 40] == SectionBytes(s)
    ensures SectionHolds(bytes, base, s)
  {
    var b := SectionBytes(s);
    Pow256Sizes();
    SectionBytesAre(s);
    SliceHolds(bytes, base, b, 8, s.virtualSize, 4);
    SliceHolds(bytes, base, b, 12, s.virtualAddress, 4);
    SliceHolds(bytes, base, b, 16, s.rawSize, 4);
    SliceHolds(bytes, base, b, 20, s.rawOffset, 4);
  }

  lemma EntryWritten(bytes: seq<byte>, table: nat, data: seq<byte>, at: nat, s: Section)
    requires EntryIs(data, at, s)
    ensures SectionHolds(Overwrite(bytes, table, data), table + at, s)
  {
    var r := Overwrite(bytes, table, data);
    DataWritten(bytes, table, data);
    SubSlice(r, table, |data|, at, 40);
    SectionStandsAt(r, table + at, s);
  }

  /** The data is a section table of these sections. */
  ghost predicate IsTable(data: seq<byte>, sections: seq<Section>) {
    |data| == 40 * |sections|
    && forall i :: 0 <= i < |sections| ==> EntryIs(data, 40 * i, sections[i])
  }

  ghost predicate EntryIs(data: seq<byte>, at: nat, s: Section) {
    at + 40 <= |data| && data[at..at + 40] == SectionBytes(s)
  }

  lemma {:induction false} TableBytesAre(sections: seq<Section>)
    ensures IsTable(TableBytes(sections), sections)
  {
    forall i | 0 <= i < |sections| ensures EntryIs(TableBytes(sections), 40 * i, sections[i]) {
      TableBytesAt(sections, i);
    }
  }

  lemma TableStands(bytes: seq<byte>, table: nat, data: seq<byte>, sections: seq<Section>)
    requires IsTable(data, sections)
    ensures SectionsAt(Overwrite(bytes, table, data), table, sections)
  {
    forall i | 0 <= i < |sections| ensures SectionHolds(Overwrite(bytes, table, data), table + 40 * i, sections[i]) {
      assert EntryIs(data, 40 * i, sections[i]);
      EntryWritten(bytes, table, data, 40 * i, sections[i]);
    }
  }

  lemma {:induction false} TableWritten(bytes: seq<byte>, table: nat, sections: seq<Section>)
    ensures SectionsAt(Overwrite(bytes, table, TableBytes(sections)), table, sections)
  {
    TableBytesAre(sections);
    TableStands(bytes, table, TableBytes(sections), sections);
  }

  // ----- the checksum -----

  /** The image with the word at offset 2, which no header uses, set to w. */
  function WithWord(bytes: seq<byte>, w: u16): (r: seq<byte>)
  {
    Overwrite(bytes, 2, ToLe(w, 2))
  }

  lemma WordCounts(bytes: seq<byte>, field: nat, w: u16)
    requires |bytes| >= 4 && field >= 4
    ensures WordSum(WithWord(bytes, w), field, 0) == w + WordSum(WithWord(bytes, 0), field, 0)
  {
    var a, b := WithWord(bytes, w), WithWord(bytes, 0);
    SumSeesSuffix(a, b, field, 4);
    TwoBytes(bytes, w);
    TwoBytes(bytes, 0);
    assert WordSum(a, field, 0) == a[0] as int + 0x100 * (a[1] as int) + WordSum(a, field, 2);
    assert WordSum(b, field, 0) == b[0] as int + 0x100 * (b[1] as int) + WordSum(b, field, 2);
  }

  lemma TwoBytes(bytes: seq<byte>, w: u16)
    requires |bytes| >= 4
    ensures WithWord(bytes, w)[2] as int + 0x100 * (WithWord(bytes, w)[3] as int) == w
  {
    assert ToLe(w, 2) == [w % 0x100] + ToLe(w / 0x100, 1);
    assert ToLe(w / 0x100, 1) == [w / 0x100 % 0x100] + ToLe(w / 0x100 / 0x100, 0);
  }

  lemma {:induction false} CanonAdds(m: nat, w: nat)
    ensures Canon(m + w) == Canon(Canon(m) + w)
  {
    if m > 0xFFFF {
      CanonAdds(m - 0xFFFF, w);
    }
  }

  /** The word that brings the sum into the class of `target`. */
  function SteeringWord(bytes: seq<byte>, field: nat, target: u16): (w: u16)
    requires 0 < target
  {
    var c := Canon(WordSum(WithWord(bytes, 0), field, 0));
    if c <= target then target - c else target + 0xFFFF - c
  }

  /** One word makes every class of the sum possible. */
  lemma Steered(bytes: seq<byte>, field: nat, target: u16)
    requires |bytes| >= 4 && field >= 4 && 0 < target
    ensures Canon(WordSum(WithWord(bytes, SteeringWord(bytes, field, target)), field, 0)) == target
  {
    var w, rest := SteeringWord(bytes, field, target), WordSum(WithWord(bytes, 0), field, 0);
    WordCounts(bytes, field, w);
    CanonAdds(rest, w);
  }
}
