/**
 DOS, NT and optional headers, section table and RVA translation of a PE image
 (src/file/pe.rs, `PeHeaders`), after the Microsoft PE Format specification, sections
 "Optional Header (Image Only)" and "Section Table".
 */
module PeHeaders {
  import opened Wrappers
  import opened Bytes
  import opened PeChecksum

  const IMAGE_DOS_SIGNATURE: u16 := 0x5A4D
  const IMAGE_NT_SIGNATURE: u32 := 0x4550
  const MAGIC_PE32: u16 := 0x10B
  const MAGIC_PE32_PLUS: u16 := 0x20B

  datatype Section = Section(virtualAddress: u32, virtualSize: u32, rawOffset: u32, rawSize: u32)

  datatype Headers = Headers(
    is64Bit: bool,
    checksumOffset: nat,
    numberOfRvaAndSizes: u32,
    dataDirectoryOffset: nat,
    sections: seq<Section>
  )

  datatype PeError =
    | MissingDosSignature
    | TruncatedDosHeader
    | MissingPeSignature
    | TruncatedFileHeader
    | TruncatedOptionalHeader
    | UnknownMagic
    | TruncatedSectionTable

  // ----- where the fields are -----

  function ElfaNew(bytes: seq<byte>): (r: Option<nat>)
    ensures r.Some? <==> |bytes| >= 0x40
  {
    U32At(bytes, 0x3C)
  }

  function SectionAt(bytes: seq<byte>, base: nat): (s: Section)
    requires base + 24 <= |bytes|
  {
    Section(U32At(bytes, base + 12).value, U32At(bytes, base + 8).value,
            U32At(bytes, base + 20).value, U32At(bytes, base + 16).value)
  }

  /** The first n section headers of the table at `table`. */
  function SectionTable(bytes: seq<byte>, table: nat, n: nat): (s: seq<Section>)
    requires n > 0 ==> table + 40 * (n - 1) + 24 <= |bytes|
  {
    seq(n, i requires 0 <= i < n => SectionAt(bytes, table + 40 * i))
  }

  /** The headers from the optional header's magic on, for an NT signature at `nt`. */
  function OptionalHeader(bytes: seq<byte>, nt: nat, wide: bool): (r: Result<Headers, PeError>)
    requires nt + 26 <= |bytes|
    ensures r.Ok? ==> nt + 0x58 + 4 <= |bytes| && r.value.checksumOffset == nt + 0x58
  {
    var count := U32At(bytes, nt + 24 + if wide then 0x6C else 0x5C);
    var table := nt + 24 + U16At(bytes, nt + 20).value;
    var n := U16At(bytes, nt + 6).value;
    if count.None? then Err(TruncatedOptionalHeader)
    else if n > 0 && table + 40 * (n - 1) + 24 > |bytes| then Err(TruncatedSectionTable)
    else Ok(Headers(wide, nt + 24 + 0x40, count.value, nt + 24 + (if wide then 0x70 else 0x60),
                    SectionTable(bytes, table, n)))
  }

  /**
   `PeHeaders::parse` in closed form: the section table is complete when the last header's raw
   offset is inside the file (its remaining 16 bytes are never read).
   */
  function ParseHeaders(bytes: seq<byte>): (r: Result<Headers, PeError>)
    ensures r.Ok? ==>
              && ElfaNew(bytes).Some?
              && r.value.checksumOffset == ElfaNew(bytes).value + 0x58
              && r.value.checksumOffset + 4 <= |bytes|
  {
    if U16At(bytes, 0) != Some(IMAGE_DOS_SIGNATURE) then Err(MissingDosSignature)
    else if ElfaNew(bytes).None? then Err(TruncatedDosHeader)
    else
      var nt := ElfaNew(bytes).value;
      if U32At(bytes, nt) != Some(IMAGE_NT_SIGNATURE) then Err(MissingPeSignature)
      else if U16At(bytes, nt + 6).None? || U16At(bytes, nt + 20).None? then Err(TruncatedFileHeader)
      else if U16At(bytes, nt + 24).None? then Err(TruncatedOptionalHeader)
      else
        var magic := U16At(bytes, nt + 24).value;
        if magic != MAGIC_PE32 && magic != MAGIC_PE32_PLUS then Err(UnknownMagic)
        else OptionalHeader(bytes, nt, magic == MAGIC_PE32_PLUS)
  }

  // ----- what an image with these headers looks like -----

  /** A section header, field by field, at `base`. */
  ghost predicate SectionHolds(bytes: seq<byte>, base: nat, s: Section) {
    && Holds(bytes, base + 8, s.virtualSize, 4) && Holds(bytes, base + 12, s.virtualAddress, 4)
    && Holds(bytes, base + 16, s.rawSize, 4) && Holds(bytes, base + 20, s.rawOffset, 4)
  }

  /** The fixed fields ("MZ", "PE", the magics), for an NT signature at `nt` and an optional header of `size` bytes. */
  ghost predicate FixedFieldsAt(bytes: seq<byte>, nt: nat, size: nat, h: Headers) {
    && Holds(bytes, 0, 0x5A4D, 2) && Holds(bytes, 0x3C, nt, 4) && Holds(bytes, nt, 0x4550, 4)
    && Holds(bytes, nt + 6, |h.sections|, 2) && Holds(bytes, nt + 20, size, 2)
    && Holds(bytes, nt + 24, if h.is64Bit then 0x20B else 0x10B, 2)
    && Holds(bytes, nt + 24 + (if h.is64Bit then 0x6C else 0x5C), h.numberOfRvaAndSizes, 4)
    && h.checksumOffset == nt + 24 + 0x40
    && h.dataDirectoryOffset == nt + 24 + if h.is64Bit then 0x70 else 0x60
  }

  /** The section headers, one after the other from `table` on. */
  ghost predicate SectionsAt(bytes: seq<byte>, table: nat, sections: seq<Section>) {
    forall i :: 0 <= i < |sections| ==> SectionHolds(bytes, table + 40 * i, sections[i])
  }

  ghost predicate HeadersAt(bytes: seq<byte>, nt: nat, size: nat, h: Headers) {
    FixedFieldsAt(bytes, nt, size, h) && SectionsAt(bytes, nt + 24 + size, h.sections)
  }

  lemma U16Iff(bytes: seq<byte>, offset: nat, n: nat)
    ensures U16At(bytes, offset) == Some(n) <==> Holds(bytes, offset, n, 2)
  {
    HoldsIff(bytes, offset, n, 2);
  }

  lemma U32Iff(bytes: seq<byte>, offset: nat, n: nat)
    ensures U32At(bytes, offset) == Some(n) <==> Holds(bytes, offset, n, 4)
  {
    HoldsIff(bytes, offset, n, 4);
  }

  lemma SectionIff(bytes: seq<byte>, base: nat, s: Section)
    ensures SectionHolds(bytes, base, s) <==> base + 24 <= |bytes| && SectionAt(bytes, base) == s
  {
    U32Iff(bytes, base + 8, s.virtualSize);
    U32Iff(bytes, base + 12, s.virtualAddress);
    U32Iff(bytes, base + 16, s.rawSize);
    U32Iff(bytes, base + 20, s.rawOffset);
  }

  lemma SectionsHeld(bytes: seq<byte>, table: nat, sections: seq<Section>)
    requires SectionsAt(bytes, table, sections)
    ensures sections != [] ==> table + 40 * (|sections| - 1) + 24 <= |bytes|
    ensures SectionTable(bytes, table, |sections|) == sections
  {
    var n := |sections|;
    if n > 0 {
      assert SectionHolds(bytes, table + 40 * (n - 1), sections[n - 1]);
      SectionIff(bytes, table + 40 * (n - 1), sections[n - 1]);
    }
    var read := SectionTable(bytes, table, n);
    forall i | 0 <= i < n ensures read[i] == sections[i] {
      assert SectionHolds(bytes, table + 40 * i, sections[i]);
      SectionIff(bytes, table + 40 * i, sections[i]);
    }
  }

  lemma SectionsRead(bytes: seq<byte>, table: nat, sections: seq<Section>)
    requires sections != [] ==> table + 40 * (|sections| - 1) + 24 <= |bytes|
    requires SectionTable(bytes, table, |sections|) == sections
    ensures SectionsAt(bytes, table, sections)
  {
    forall i | 0 <= i < |sections| ensures SectionHolds(bytes, table + 40 * i, sections[i]) {
      assert sections[i] == SectionAt(bytes, table + 40 * i);
      SectionIff(bytes, table + 40 * i, sections[i]);
    }
  }

  /** The fixed fields as the readers see them. */
  ghost predicate FixedFieldsRead(bytes: seq<byte>, nt: nat, size: nat, h: Headers) {
    && U16At(bytes, 0) == Some(IMAGE_DOS_SIGNATURE) && ElfaNew(bytes) == Some(nt)
    && U32At(bytes, nt) == Some(IMAGE_NT_SIGNATURE)
    && U16At(bytes, nt + 6) == Some(|h.sections|) && U16At(bytes, nt + 20) == Some(size)
    && U16At(bytes, nt + 24) == Some(if h.is64Bit then MAGIC_PE32_PLUS else MAGIC_PE32)
    && U32At(bytes, nt + 24 + (if h.is64Bit then 0x6C else 0x5C)) == Some(h.numberOfRvaAndSizes)
    && h.checksumOffset == nt + 24 + 0x40
    && h.dataDirectoryOffset == nt + 24 + if h.is64Bit then 0x70 else 0x60
  }

  lemma FixedFieldsIff(bytes: seq<byte>, nt: nat, size: nat, h: Headers)
    ensures FixedFieldsAt(bytes, nt, size, h) <==> FixedFieldsRead(bytes, nt, size, h)
  {
    U16Iff(bytes, 0, IMAGE_DOS_SIGNATURE);
    U32Iff(bytes, 0x3C, nt);
    U32Iff(bytes, nt, IMAGE_NT_SIGNATURE);
    U16Iff(bytes, nt + 6, |h.sections|);
    U16Iff(bytes, nt + 20, size);
    U16Iff(bytes, nt + 24, if h.is64Bit then MAGIC_PE32_PLUS else MAGIC_PE32);
    U32Iff(bytes, nt + 24 + (if h.is64Bit then 0x6C else 0x5C), h.numberOfRvaAndSizes);
  }

  lemma ParsedFieldsRead(bytes: seq<byte>) returns (nt: nat, size: nat)
    requires ParseHeaders(bytes).Ok?
    ensures FixedFieldsRead(bytes, nt, size, ParseHeaders(bytes).value)
    ensures var n := |ParseHeaders(bytes).value.sections|;
            && (n > 0 ==> nt + 24 + size + 40 * (n - 1) + 24 <= |bytes|)
            && ParseHeaders(bytes).value.sections == SectionTable(bytes, nt + 24 + size, n)
  {
    nt := ElfaNew(bytes).value;
    size := U16At(bytes, nt + 20).value;
  }

  lemma ReadFieldsParse(bytes: seq<byte>, nt: nat, size: nat, h: Headers)
    requires FixedFieldsRead(bytes, nt, size, h)
    requires h.sections != [] ==> nt + 24 + size + 40 * (|h.sections| - 1) + 24 <= |bytes|
    requires SectionTable(bytes, nt + 24 + size, |h.sections|) == h.sections
    ensures ParseHeaders(bytes) == Ok(h)
  {
  }

  /** The bytes hold every parsed field at its place. */
  lemma ParsedIsHeld(bytes: seq<byte>) returns (nt: nat, size: nat)
    requires ParseHeaders(bytes).Ok?
    ensures HeadersAt(bytes, nt, size, ParseHeaders(bytes).value)
  {
    nt, size := ParsedFieldsRead(bytes);
    ReadIsHeld(bytes, nt, size, ParseHeaders(bytes).value);
  }

  lemma ReadIsHeld(bytes: seq<byte>, nt: nat, size: nat, h: Headers)
    requires FixedFieldsRead(bytes, nt, size, h)
    requires h.sections != [] ==> nt + 24 + size + 40 * (|h.sections| - 1) + 24 <= |bytes|
    requires SectionTable(bytes, nt + 24 + size, |h.sections|) == h.sections
    ensures HeadersAt(bytes, nt, size, h)
  {
    assert FixedFieldsAt(bytes, nt, size, h) by {
      FixedFieldsIff(bytes, nt, size, h);
    }
    SectionsRead(bytes, nt + 24 + size, h.sections);
  }

  /** Headers whose fields the bytes hold at their places are what parsing gives. */
  lemma HeldIsParsed(bytes: seq<byte>, nt: nat, size: nat, h: Headers)
    requires HeadersAt(bytes, nt, size, h)
    ensures ParseHeaders(bytes) == Ok(h)
  {
    FixedFieldsIff(bytes, nt, size, h);
    FieldsParse(bytes, nt, size, h);
  }

  lemma FieldsParse(bytes: seq<byte>, nt: nat, size: nat, h: Headers)
    requires FixedFieldsRead(bytes, nt, size, h) && SectionsAt(bytes, nt + 24 + size, h.sections)
    ensures ParseHeaders(bytes) == Ok(h)
  {
    SectionsHeld(bytes, nt + 24 + size, h.sections);
    ReadFieldsParse(bytes, nt, size, h);
  }

  /** Parsing gives exactly the headers whose fields the bytes hold at the places the format gives them. */
  lemma ParsesToIff(bytes: seq<byte>, h: Headers)
    ensures ParseHeaders(bytes) == Ok(h) <==> exists nt: nat, size: nat :: HeadersAt(bytes, nt, size, h)
  {
    if ParseHeaders(bytes) == Ok(h) {
      var nt, size := ParsedIsHeld(bytes);
    }
    if nt: nat, size: nat :| HeadersAt(bytes, nt, size, h) {
      HeldIsParsed(bytes, nt, size, h);
    }
  }

  /** The section loop of `PeHeaders::parse`: four reads per header, the first miss ends it. */
  method ReadSections(bytes: seq<byte>, table: nat, n: nat) returns (r: Option<seq<Section>>)
    ensures r.None? <==> n > 0 && table + 40 * (n - 1) + 24 > |bytes|
    ensures r.Some? ==> r.value == SectionTable(bytes, table, n)
  {
    var sections: seq<Section> := [];
    for i := 0 to n
      invariant i > 0 ==> table + 40 * (i - 1) + 24 <= |bytes|
      invariant sections == SectionTable(bytes, table, i)
    {
      var base := table + 40 * i;
      var virtualSize := U32At(bytes, base + 8);
      var virtualAddress := U32At(bytes, base + 12);
      var rawSize := U32At(bytes, base + 16);
      var rawOffset := U32At(bytes, base + 20);
      if virtualSize.None? || virtualAddress.None? || rawSize.None? || rawOffset.None? {
        return None;
      }
      sections := sections + [Section(virtualAddress.value, virtualSize.value, rawOffset.value, rawSize.value)];
    }
    return Some(sections);
  }

  lemma ParseIsDeclared(bytes: seq<byte>)
    ensures ParseHeaders(bytes).Ok? ==>
              exists nt: nat, size: nat :: HeadersAt(bytes, nt, size, ParseHeaders(bytes).value)
    ensures ParseHeaders(bytes).Err? ==> forall nt: nat, size: nat, h :: !HeadersAt(bytes, nt, size, h)
  {
    if ParseHeaders(bytes).Ok? {
      var nt, size := ParsedIsHeld(bytes);
    } else {
      forall nt: nat, size: nat, h ensures !HeadersAt(bytes, nt, size, h) {
        if HeadersAt(bytes, nt, size, h) {
          HeldIsParsed(bytes, nt, size, h);
        }
      }
    }
  }

  /** `PeHeaders::parse`: the headers that the bytes hold, or an error if they hold none. */
  method Parse(bytes: seq<byte>) returns (r: Result<Headers, PeError>)
    ensures r == ParseHeaders(bytes)
    ensures r.Ok? ==> exists nt: nat, size: nat :: HeadersAt(bytes, nt, size, r.value)
    ensures r.Err? ==> forall nt: nat, size: nat, h :: !HeadersAt(bytes, nt, size, h)
  {
    r := ParseFields(bytes);
    ParseIsDeclared(bytes);
  }

  /** Which error a file gets, from its first bytes on, where its NT headers are announced at `nt`. */
  lemma {:induction false} WhichError(bytes: seq<byte>, nt: nat)
    requires Holds(bytes, 0, 0x5A4D, 2) ==> |bytes| < 0x40 || Holds(bytes, 0x3C, nt, 4)
    ensures ParseHeaders(bytes) == Err(MissingDosSignature) <==> !Holds(bytes, 0, 0x5A4D, 2)
    ensures ParseHeaders(bytes) == Err(TruncatedDosHeader) <==> Holds(bytes, 0, 0x5A4D, 2) && |bytes| < 0x40
    ensures ParseHeaders(bytes) == Err(MissingPeSignature)
            <==> Holds(bytes, 0, 0x5A4D, 2) && |bytes| >= 0x40 && !Holds(bytes, nt, 0x4550, 4)
    ensures Holds(bytes, 0, 0x5A4D, 2) && |bytes| >= 0x40 && Holds(bytes, nt, 0x4550, 4) ==>
              && (ParseHeaders(bytes) == Err(TruncatedFileHeader) <==> |bytes| < nt + 22)
              && (ParseHeaders(bytes) == Err(UnknownMagic)
                  <==> |bytes| >= nt + 26 && !Holds(bytes, nt + 24, 0x10B, 2) && !Holds(bytes, nt + 24, 0x20B, 2))
              && (ParseHeaders(bytes) == Err(TruncatedOptionalHeader)
                  <==> || nt + 22 <= |bytes| < nt + 26
                       || (Holds(bytes, nt + 24, 0x10B, 2) && |bytes| < nt + 24 + 0x60)
                       || (Holds(bytes, nt + 24, 0x20B, 2) && |bytes| < nt + 24 + 0x70))
  {
    U16Iff(bytes, 0, 0x5A4D);
    U32Iff(bytes, 0x3C, nt);
    U32Iff(bytes, nt, 0x4550);
    U16Iff(bytes, nt + 24, 0x10B);
    U16Iff(bytes, nt + 24, 0x20B);
  }

  /** The checks of `PeHeaders::parse`, in order. */
  method ParseFields(bytes: seq<byte>) returns (r: Result<Headers, PeError>)
    ensures r == ParseHeaders(bytes)
  {
    if U16At(bytes, 0) != Some(IMAGE_DOS_SIGNATURE) {
      return Err(MissingDosSignature);
    }
    var elfaNew := U32At(bytes, 0x3C);
    if elfaNew.None? {
      return Err(TruncatedDosHeader);
    }
    if U32At(bytes, elfaNew.value) != Some(IMAGE_NT_SIGNATURE) {
      return Err(MissingPeSignature);
    }
    var fileHeader: nat := elfaNew.value + 4;
    var sectionCount := U16At(bytes, fileHeader + 2);
    var optionalSize := U16At(bytes, fileHeader + 16);
    if sectionCount.None? || optionalSize.None? {
      return Err(TruncatedFileHeader);
    }
    var optionalHeader: nat := fileHeader + 20;
    var magic := U16At(bytes, optionalHeader);
    if magic.None? {
      return Err(TruncatedOptionalHeader);
    }
    if magic.value != MAGIC_PE32 && magic.value != MAGIC_PE32_PLUS {
      return Err(UnknownMagic);
    }
    var wide := magic.value == MAGIC_PE32_PLUS;
    var rvaCount := U32At(bytes, optionalHeader + if wide then 0x6C else 0x5C);
    if rvaCount.None? {
      return Err(TruncatedOptionalHeader);
    }
    var sections := ReadSections(bytes, optionalHeader + optionalSize.value, sectionCount.value);
    if sections.None? {
      return Err(TruncatedSectionTable);
    }
    return Ok(Headers(wide, optionalHeader + 0x40, rvaCount.value,
                      optionalHeader + (if wide then 0x70 else 0x60), sections.value));
  }

  // ----- RVA translation -----

  /** The section claims the address: its extent is the larger of its two sizes, cut at 4 GiB - 1. */
  predicate Claims(s: Section, rva: u32) {
    var extent := if s.virtualSize >= s.rawSize then s.virtualSize else s.rawSize;
    var end := s.virtualAddress as int + extent;
    s.virtualAddress <= rva < if end > 0xFFFF_FFFF then 0xFFFF_FFFF else end
  }

  /** `raw_offset + (rva - virtual_address)` in 32 bits; an overflow-checked build stops instead of wrapping. */
  function SectionOffset(s: Section, rva: u32): (offset: u32)
    requires s.virtualAddress <= rva
  {
    Wrap32(s.rawOffset as int + (rva as int - s.virtualAddress as int))
  }

  /** The translation overflows exactly when the raw offset leaves no room for the distance into the section. */
  predicate OffsetOverflows(s: Section, rva: u32)
    requires s.virtualAddress <= rva
  {
    s.rawOffset as int + (rva as int - s.virtualAddress as int) > 0xFFFF_FFFF
  }

  function RvaToOffsetIn(sections: seq<Section>, rva: u32): (r: Option<u32>)
  {
    if sections == [] then None
    else if Claims(sections[0], rva) then Some(SectionOffset(sections[0], rva))
    else RvaToOffsetIn(sections[1..], rva)
  }

  /** Only an address that some section claims is translated. */
  lemma {:induction false} UnclaimedHasNoOffset(sections: seq<Section>, rva: u32)
    requires forall i :: 0 <= i < |sections| ==> !Claims(sections[i], rva)
    ensures RvaToOffsetIn(sections, rva).None?
  {
    if sections != [] {
      UnclaimedHasNoOffset(sections[1..], rva);
    }
  }

  function RvaToOffset(h: Headers, rva: u32): (r: Option<u32>)
    ensures r.Some? ==> rva != 0
  {
    if rva == 0 then None else RvaToOffsetIn(h.sections, rva)
  }

  /**
   Sections are searched in table order: the first one that claims the address decides, and with
   room below 4 GiB in it the answer is exact.
   */
  lemma {:induction false} FirstClaimDecides(sections: seq<Section>, rva: u32, k: nat)
    requires k < |sections| && Claims(sections[k], rva)
    requires forall i :: 0 <= i < k ==> !Claims(sections[i], rva)
    ensures RvaToOffsetIn(sections, rva).Some?
    ensures RvaToOffsetIn(sections, rva).value == SectionOffset(sections[k], rva)
    ensures RvaToOffsetIn(sections, rva).value as int
              == sections[k].rawOffset as int + (rva as int - sections[k].virtualAddress as int)
            <==> !OffsetOverflows(sections[k], rva)
  {
    if k > 0 {
      FirstClaimDecides(sections[1..], rva, k - 1);
    }
  }

  /** `(virtual_address, size)` of data directory `index`, if present and nonzero. */
  function DataDirectory(h: Headers, index: u32, bytes: seq<byte>): (r: Option<(u32, u32)>)
  {
    if index >= h.numberOfRvaAndSizes then None
    else
      var rva := U32At(bytes, h.dataDirectoryOffset + index * 8);
      var size := U32At(bytes, h.dataDirectoryOffset + index * 8 + 4);
      if rva.Some? && size.Some? && rva.value != 0 && size.value != 0 then Some((rva.value, size.value)) else None
  }

  /** Exactly an entry among those announced, eight bytes apart, with neither part zero, is a directory. */
  lemma DataDirectoryIff(h: Headers, index: u32, bytes: seq<byte>, rva: u32, size: u32)
    ensures DataDirectory(h, index, bytes) == Some((rva, size))
            <==>
            && index < h.numberOfRvaAndSizes && rva != 0 && size != 0
            && Holds(bytes, h.dataDirectoryOffset + 8 * index, rva, 4)
            && Holds(bytes, h.dataDirectoryOffset + 8 * index + 4, size, 4)
  {
    U32Iff(bytes, h.dataDirectoryOffset + 8 * index, rva);
    U32Iff(bytes, h.dataDirectoryOffset + 8 * index + 4, size);
  }

  // ----- checksum -----

  predicate ChecksumMismatch(h: Headers, bytes: seq<byte>) {
    var stored := U32At(bytes, h.checksumOffset);
    stored.Some? && stored.value != 0 && stored.value != Checksum(bytes, h.checksumOffset)
  }

  function StoreChecksum(bytes: seq<byte>, offset: nat, c: u32): (s: seq<byte>)
    requires offset + 4 <= |bytes|
    ensures |s| == |bytes|
    ensures AgreeOutside(bytes, s, offset)
  {
    bytes[..offset] + ToLe(c, 4) + bytes[offset + 4..]
  }

  lemma StoredIsRead(bytes: seq<byte>, offset: nat, c: u32)
    requires offset + 4 <= |bytes|
    ensures U32At(StoreChecksum(bytes, offset, c), offset) == Some(c)
  {
    U32OfPlaced(bytes[..offset], c, bytes[offset + 4..]);
  }

  /** Bytes that agree outside the checksum field give the same fixed headers. */
  lemma HeadersIgnoreField(a: seq<byte>, b: seq<byte>)
    requires ParseHeaders(a).Ok? && AgreeOutside(a, b, ParseHeaders(a).value.checksumOffset)
    ensures ParseHeaders(b).Ok?
    ensures ParseHeaders(b).value == ParseHeaders(a).value.(sections := ParseHeaders(b).value.sections)
  {
    FixedFieldsAgree(a, b);
  }

  lemma FixedFieldsAgree(a: seq<byte>, b: seq<byte>)
    requires ElfaNew(a).Some? && AgreeOutside(a, b, ElfaNew(a).value + 0x58)
    ensures U16At(a, 0) == U16At(b, 0) && ElfaNew(a) == ElfaNew(b)
    ensures var nt := ElfaNew(a).value;
            && U32At(a, nt) == U32At(b, nt)
            && U16At(a, nt + 6) == U16At(b, nt + 6)
            && U16At(a, nt + 20) == U16At(b, nt + 20)
            && U16At(a, nt + 24) == U16At(b, nt + 24)
            && U32At(a, nt + 24 + 0x5C) == U32At(b, nt + 24 + 0x5C)
            && U32At(a, nt + 24 + 0x6C) == U32At(b, nt + 24 + 0x6C)
  {
    var nt := ElfaNew(a).value;
    LeAtAgrees(a, b, 0, 2);
    LeAtAgrees(a, b, 0x3C, 4);
    LeAtAgrees(a, b, nt, 4);
    LeAtAgrees(a, b, nt + 6, 2);
    LeAtAgrees(a, b, nt + 20, 2);
    LeAtAgrees(a, b, nt + 24, 2);
    LeAtAgrees(a, b, nt + 24 + 0x5C, 4);
    LeAtAgrees(a, b, nt + 24 + 0x6C, 4);
  }

  /** An optional header that covers the field keeps the section table clear of it. */
  lemma SectionsIgnoreField(a: seq<byte>, b: seq<byte>)
    requires ParseHeaders(a).Ok? && AgreeOutside(a, b, ParseHeaders(a).value.checksumOffset)
    requires U16At(a, ElfaNew(a).value + 20).value >= 0x44
    ensures ParseHeaders(b) == ParseHeaders(a)
  {
    HeadersIgnoreField(a, b);
    FixedFieldsAgree(a, b);
    var nt := ElfaNew(a).value;
    SectionTableAgrees(a, b, nt + 24 + U16At(a, nt + 20).value, U16At(a, nt + 6).value, nt + 0x58);
  }

  lemma SectionTableAgrees(a: seq<byte>, b: seq<byte>, table: nat, n: nat, field: nat)
    requires AgreeOutside(a, b, field) && field + 4 <= table
    requires n > 0 ==> table + 40 * (n - 1) + 24 <= |a|
    ensures SectionTable(a, table, n) == SectionTable(b, table, n)
  {
    forall i | 0 <= i < n
      ensures SectionAt(a, table + 40 * i) == SectionAt(b, table + 40 * i)
    {
      SectionAgrees(a, b, table + 40 * i, field);
    }
  }

  lemma SectionAgrees(a: seq<byte>, b: seq<byte>, base: nat, field: nat)
    requires AgreeOutside(a, b, field) && field + 4 <= base && base + 24 <= |a|
    ensures SectionAt(a, base) == SectionAt(b, base)
  {
    LeAtAgrees(a, b, base + 8, 4);
    LeAtAgrees(a, b, base + 12, 4);
    LeAtAgrees(a, b, base + 16, 4);
    LeAtAgrees(a, b, base + 20, 4);
  }

  /**
   For every parseable image whose `e_lfanew` is even, storing the computed checksum is accepted. The headers
   stay as they were, all of them if the optional header covers the field; a shorter one lets the section
   table overlap it, and then only the sections can change.
   */
  lemma StoredChecksumMatches(bytes: seq<byte>)
    requires ParseHeaders(bytes).Ok? && ElfaNew(bytes).value % 2 == 0
    ensures var h := ParseHeaders(bytes).value;
            var stored := StoreChecksum(bytes, h.checksumOffset, Checksum(bytes, h.checksumOffset));
            && ParseHeaders(stored).Ok?
            && ParseHeaders(stored).value == h.(sections := ParseHeaders(stored).value.sections)
            && (U16At(bytes, ElfaNew(bytes).value + 20).value >= 0x44 ==> ParseHeaders(stored) == Ok(h))
            && !ChecksumMismatch(ParseHeaders(stored).value, stored)
  {
    var h := ParseHeaders(bytes).value;
    var c := Checksum(bytes, h.checksumOffset);
    var stored := StoreChecksum(bytes, h.checksumOffset, c);
    SameParity(ElfaNew(bytes).value);
    StoredIsAccepted(bytes, h.checksumOffset);
    AcceptedWithHeaders(bytes, stored, c);
  }

  lemma ImageCounts(bytes: seq<byte>, field: nat)
    requires U16At(bytes, 0) == Some(IMAGE_DOS_SIGNATURE) && field > 0
    ensures WordSum(bytes, field, 0) > 0
  {
    U16Iff(bytes, 0, IMAGE_DOS_SIGNATURE);
    var two := bytes[0..2];
    assert two[0] == bytes[0] && two == [IMAGE_DOS_SIGNATURE % 0x100] + ToLe(IMAGE_DOS_SIGNATURE / 0x100, 1);
  }

  /** Checksums are equal exactly if the sums are in one class, at equal lengths. */
  lemma SameChecksumIff(a: seq<byte>, b: seq<byte>, field: nat)
    requires |a| == |b|
    ensures Checksum(a, field) == Checksum(b, field)
            <==> Canon(WordSum(a, field, 0)) == Canon(WordSum(b, field, 0))
  {
    var m, n := Canon(WordSum(a, field, 0)), Canon(WordSum(b, field, 0));
    if m < n {
      Wrap32Separates(m + |a|, n + |a|);
    } else if n < m {
      Wrap32Separates(n + |a|, m + |a|);
    }
  }

  /** The four bytes of the checksum field. */
  function FieldOf(bytes: seq<byte>, field: nat): (four: seq<byte>)
    requires field + 4 <= |bytes|
    ensures |four| == 4
  {
    bytes[field..field + 4]
  }

  lemma OddSumsAreOneClassIff(bytes: seq<byte>, field: nat, c: u32)
    requires field % 2 == 1 && field + 4 <= |bytes| && U16At(bytes, 0) == Some(IMAGE_DOS_SIGNATURE) && field >= 2
    ensures Checksum(StoreChecksum(bytes, field, c), field) == Checksum(bytes, field)
            <==> (OddFieldSum(ToLe(c, 4)) - OddFieldSum(FieldOf(bytes, field))) % 0xFFFF == 0
  {
    var stored := StoreChecksum(bytes, field, c);
    var m, n := WordSum(bytes, field, 0), WordSum(stored, field, 0);
    OddFieldCounts(bytes, field, ToLe(c, 4));
    SameChecksumIff(stored, bytes, field);
    LeAtAgrees(bytes, stored, 0, 2);
    ImageCounts(bytes, field);
    ImageCounts(stored, field);
    if m <= n {
      SameClassIff(m, n);
    } else {
      SameClassIff(n, m);
      NegatedMultiple(n as int - m as int);
    }
  }

  lemma NegatedMultiple(d: int)
    ensures d % 0xFFFF == 0 <==> -d % 0xFFFF == 0
  {
  }

  /**
   With an odd `e_lfanew` the field is part of the sum. Storing the computed checksum is then accepted exactly
   if it is zero, or its bytes add to the sum what those it replaced did, modulo 0xFFFF.
   */
  lemma OddStoredChecksumIff(bytes: seq<byte>)
    requires ParseHeaders(bytes).Ok? && ElfaNew(bytes).value % 2 == 1
    ensures var h := ParseHeaders(bytes).value;
            var c := Checksum(bytes, h.checksumOffset);
            var stored := StoreChecksum(bytes, h.checksumOffset, c);
            && ParseHeaders(stored).Ok?
            && ParseHeaders(stored).value == h.(sections := ParseHeaders(stored).value.sections)
            && (!ChecksumMismatch(ParseHeaders(stored).value, stored)
                <==> c == 0 || (OddFieldSum(ToLe(c, 4)) - OddFieldSum(FieldOf(bytes, h.checksumOffset))) % 0xFFFF == 0)
  {
    var field := ParseHeaders(bytes).value.checksumOffset;
    var c := Checksum(bytes, field);
    SameParity(ElfaNew(bytes).value);
    HasSignature(bytes);
    HeadersIgnoreField(bytes, StoreChecksum(bytes, field, c));
    OddAcceptedIff(ParseHeaders(StoreChecksum(bytes, field, c)).value, bytes);
  }

  lemma SameParity(nt: nat)
    ensures (nt + 0x58) % 2 == nt % 2
  {
  }

  lemma HasSignature(bytes: seq<byte>)
    requires ParseHeaders(bytes).Ok?
    ensures U16At(bytes, 0) == Some(IMAGE_DOS_SIGNATURE)
  {
  }

  lemma OddAcceptedIff(h: Headers, bytes: seq<byte>)
    requires h.checksumOffset % 2 == 1 && 2 <= h.checksumOffset && h.checksumOffset + 4 <= |bytes|
    requires U16At(bytes, 0) == Some(IMAGE_DOS_SIGNATURE)
    ensures var c := Checksum(bytes, h.checksumOffset);
            !ChecksumMismatch(h, StoreChecksum(bytes, h.checksumOffset, c))
            <==> c == 0 || (OddFieldSum(ToLe(c, 4)) - OddFieldSum(FieldOf(bytes, h.checksumOffset))) % 0xFFFF == 0
  {
    var c := Checksum(bytes, h.checksumOffset);
    StoredIsRead(bytes, h.checksumOffset, c);
    OddSumsAreOneClassIff(bytes, h.checksumOffset, c);
  }

  /** An image that agrees outside the field and holds its own checksum there: same headers, no mismatch. */
  lemma AcceptedWithHeaders(a: seq<byte>, b: seq<byte>, c: u32)
    requires ParseHeaders(a).Ok? && AgreeOutside(a, b, ParseHeaders(a).value.checksumOffset)
    requires var field := ParseHeaders(a).value.checksumOffset; U32At(b, field) == Some(c) && Checksum(b, field) == c
    ensures ParseHeaders(b).Ok? && !ChecksumMismatch(ParseHeaders(b).value, b)
    ensures ParseHeaders(b).value == ParseHeaders(a).value.(sections := ParseHeaders(b).value.sections)
    ensures U16At(a, ElfaNew(a).value + 20).Some?
    ensures U16At(a, ElfaNew(a).value + 20).value >= 0x44 ==> ParseHeaders(b) == ParseHeaders(a)
  {
    HeadersAsTheyWere(a, b);
  }

  lemma HeadersAsTheyWere(a: seq<byte>, b: seq<byte>)
    requires ParseHeaders(a).Ok? && AgreeOutside(a, b, ParseHeaders(a).value.checksumOffset)
    ensures ParseHeaders(b).Ok?
    ensures ParseHeaders(b).value == ParseHeaders(a).value.(sections := ParseHeaders(b).value.sections)
    ensures U16At(a, ElfaNew(a).value + 20).Some?
    ensures U16At(a, ElfaNew(a).value + 20).value >= 0x44 ==> ParseHeaders(b) == ParseHeaders(a)
  {
    HeadersIgnoreField(a, b);
    if U16At(a, ElfaNew(a).value + 20).value >= 0x44 {
      SectionsIgnoreField(a, b);
    }
  }

  lemma StoredIsAccepted(bytes: seq<byte>, field: nat)
    requires field % 2 == 0 && field + 4 <= |bytes|
    ensures var c := Checksum(bytes, field);
            var stored := StoreChecksum(bytes, field, c);
            U32At(stored, field) == Some(c) && Checksum(stored, field) == c
  {
    var c := Checksum(bytes, field);
    StoredIsRead(bytes, field, c);
    EvenFieldIgnored(bytes, StoreChecksum(bytes, field, c), field, 0);
  }

  /**
   After any change of a single byte, an accepted nonzero checksum is a mismatch exactly unless the change
   made the stored field zero, which is never one.
   */
  lemma SingleByteChangeIsMismatch(h: Headers, bytes: seq<byte>, p: nat, x: byte)
    requires h.checksumOffset % 2 == 0 && h.checksumOffset + 4 <= |bytes|
    requires !ChecksumMismatch(h, bytes) && U32At(bytes, h.checksumOffset).value != 0
    requires p < |bytes| && x != bytes[p]
    ensures ChecksumMismatch(h, bytes[p := x]) <==> U32At(bytes[p := x], h.checksumOffset).value != 0
  {
    var field, changed := h.checksumOffset, bytes[p := x];
    if field <= p < field + 4 {
      EvenFieldIgnored(bytes, changed, field, 0);
      LeAtDiffers(bytes, changed, field, 4, p);
    } else {
      ByteChangeDetected(bytes, field, p, x);
      LeAtAgrees(bytes, changed, field, 4);
    }
  }
}
