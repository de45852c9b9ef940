/**
 The whole analysis of an image (src/file/pe.rs, `analyze_pe_bytes`) in an overflow-checked build. Two
 additions can overflow: that of an address translation, and that of the length to the checksum. Both are
 characterised, for each image and for all images with given headers or of a given length.
 */
module PeAnalysis {
  import opened Wrappers
  import opened Bytes
  import opened PeChecksum
  import opened PeHeaders
  import opened PeImports
  import opened PeOverflow
  import opened PePatch
  import PeImage

  // ----- the analysis -----

  /** What is analysed besides the digests, an image that is refused, or a digest the system failed to compute. */
  datatype Outcome =
    | Analysed(imports: seq<Import>, mismatch: bool)
    | Refused(error: PeError)
    | HashFailed(code: int)

  /** `sum + bytes.len() as u32` is more than 32 bits. */
  predicate LengthOverflows(bytes: seq<byte>, field: nat) {
    Canon(WordSum(bytes, field, 0)) + Wrap32(|bytes|) > 0xFFFF_FFFF
  }

  function CheckedChecksum(bytes: seq<byte>, field: nat): (r: Checked<u32>)
  {
    if LengthOverflows(bytes, field) then Overflowed else Fine(Canon(WordSum(bytes, field, 0)) + Wrap32(|bytes|))
  }

  /** `checksum_mismatch`: a stored checksum of zero is not compared. */
  function CheckedMismatch(h: Headers, bytes: seq<byte>): (r: Checked<bool>)
  {
    var stored := U32At(bytes, h.checksumOffset);
    if stored.None? || stored.value == 0 then Fine(false)
    else
      var c :- CheckedChecksum(bytes, h.checksumOffset);
      Fine(stored.value != c)
  }

  /** `analyze_pe_bytes`, where `hashError` is the first error of the digests, all of them made before the checksum. */
  function CheckedAnalysis(bytes: seq<byte>, hashError: Option<int>): (r: Checked<Outcome>)
  {
    match ParseHeaders(bytes)
    case Err(e) => Fine(Refused(e))
    case Ok(h) =>
      var imports :- CheckedImports(h, bytes);
      if hashError.Some? then Fine(HashFailed(hashError.value))
      else
        var mismatch :- CheckedMismatch(h, bytes);
        Fine(Analysed(imports, mismatch))
  }

  lemma MismatchChecks(h: Headers, bytes: seq<byte>)
    ensures CheckedMismatch(h, bytes)
         == Unless(!(U32At(bytes, h.checksumOffset) !in {None, Some(0)} && LengthOverflows(bytes, h.checksumOffset)),
                   ChecksumMismatch(h, bytes))
  {
    WrapAbsorbs(Canon(WordSum(bytes, h.checksumOffset, 0)), |bytes|);
  }

  /**
   For every image: the analysis panics exactly if the image parses and one of the addresses its import walk
   translates overflows, or the digests succeed, a checksum is stored and adding the length overflows.
   Otherwise the outcome is that of the wrapping build.
   */
  lemma AnalysisPanicsIff(bytes: seq<byte>, hashError: Option<int>)
    ensures CheckedAnalysis(bytes, hashError).Overflowed?
            <==>
            && ParseHeaders(bytes).Ok?
            && var h := ParseHeaders(bytes).value;
               || (exists i ::
                     0 <= i < |ImportAddresses(h, bytes)| && Overflows(h.sections, ImportAddresses(h, bytes)[i]))
               || (&& hashError.None? && U32At(bytes, h.checksumOffset) != Some(0)
                   && LengthOverflows(bytes, h.checksumOffset))
    ensures CheckedAnalysis(bytes, hashError).Fine? && CheckedAnalysis(bytes, hashError).value.Analysed? ==>
              var h := ParseHeaders(bytes).value;
              CheckedAnalysis(bytes, hashError).value == Analysed(ImportsOf(h, bytes), ChecksumMismatch(h, bytes))
  {
    if ParseHeaders(bytes).Ok? {
      var h := ParseHeaders(bytes).value;
      ImportsCheck(h, bytes);
      MismatchChecks(h, bytes);
      ClearIff(h.sections, ImportAddresses(h, bytes));
    }
  }

  // ----- what a caller can check -----

  /** The headers let no address overflow; `FindOverflow` decides it. */
  ghost predicate SafeHeaders(h: Headers) {
    h.numberOfRvaAndSizes <= 1 || NeverOverflows(h.sections)
  }

  /** Whatever the sum, at most 0xFFFF, adding the length does not overflow. */
  predicate SafeLength(n: nat) {
    Wrap32(n) <= 0xFFFF_0000
  }

  lemma SafeHeadersAreClear(h: Headers, bytes: seq<byte>)
    requires SafeHeaders(h)
    ensures CheckedImports(h, bytes) == Fine(ImportsOf(h, bytes))
  {
    ImportsCheck(h, bytes);
    if h.numberOfRvaAndSizes > 1 {
      NeverOverflowsIsClear(h.sections, ImportAddresses(h, bytes));
    }
  }

  /** Safe headers and a safe length: no panic, whatever the other bytes. */
  lemma SafeImagesNeverPanic(bytes: seq<byte>, hashError: Option<int>)
    requires ParseHeaders(bytes).Ok? ==> SafeHeaders(ParseHeaders(bytes).value) && SafeLength(|bytes|)
    ensures CheckedAnalysis(bytes, hashError).Fine?
  {
    if ParseHeaders(bytes).Ok? {
      SafeHeadersAreClear(ParseHeaders(bytes).value, bytes);
      MismatchChecks(ParseHeaders(bytes).value, bytes);
    }
  }

  // ----- images with given headers whose walk panics -----

  /** The image with its import directory at this address. */
  function WithDirectory(bytes: seq<byte>, at: nat, rva: u32): (r: seq<byte>)
  {
    Overwrite(Overwrite(bytes, at, ToLe(rva, 4)), at + 4, ToLe(1, 4))
  }

  lemma DirectoryHolds(bytes: seq<byte>, at: nat, rva: u32)
    ensures Holds(WithDirectory(bytes, at, rva), at, rva, 4) && Holds(WithDirectory(bytes, at, rva), at + 4, 1, 4)
  {
    var first := Overwrite(bytes, at, ToLe(rva, 4));
    Pow256Sizes();
    HoldsWritten(bytes, at, rva, 4);
    HoldsKept(first, at + 4, ToLe(1, 4), at, rva, 4);
    HoldsWritten(first, at + 4, 1, 4);
  }

  lemma HeldDirectoryIsRead(bytes: seq<byte>, h: Headers, rva: u32)
    requires h.numberOfRvaAndSizes > 1 && rva > 0
    requires Holds(bytes, h.dataDirectoryOffset + 8, rva, 4) && Holds(bytes, h.dataDirectoryOffset + 12, 1, 4)
    ensures DataDirectory(h, 1, bytes) == Some((rva, 1))
  {
    U32Iff(bytes, h.dataDirectoryOffset + 8, rva);
    U32Iff(bytes, h.dataDirectoryOffset + 12, 1);
  }

  /** The entry of the import directory, behind the fixed fields, does not meet a section header's fields. */
  predicate DirectoryApart(nt: nat, size: nat, h: Headers) {
    forall i :: 0 <= i < |h.sections| ==> Apart(h.dataDirectoryOffset + 8, 8, nt + 24 + size + 40 * i + 8, 16)
  }

  lemma DirectoryKeepsHeaders(bytes: seq<byte>, nt: nat, size: nat, h: Headers, rva: u32)
    requires HeadersAt(bytes, nt, size, h) && DirectoryApart(nt, size, h)
    ensures HeadersAt(WithDirectory(bytes, h.dataDirectoryOffset + 8, rva), nt, size, h)
  {
    var at, table := h.dataDirectoryOffset + 8, nt + 24 + size;
    forall i | 0 <= i < |h.sections|
      ensures Apart(at, 4, table + 40 * i + 8, 16) && Apart(at + 4, 4, table + 40 * i + 8, 16)
    {
      assert Apart(at, 8, nt + 24 + size + 40 * i + 8, 16);
    }
    HeadersKept(bytes, nt, size, h, at, ToLe(rva, 4));
    HeadersKept(Overwrite(bytes, at, ToLe(rva, 4)), nt, size, h, at + 4, ToLe(1, 4));
  }

  /** A size of the optional header that puts the section table behind the directories. */
  const ROOMY: u16 := 0x2700

  /**
   The size field of most images can be chosen. It overlaps `e_lfanew` where the NT headers start between
   0x27 and 0x2B, and is then given in part (0x27, 0x2B) or as a whole.
   */
  predicate SizeIsGiven(nt: nat) {
    0x28 <= nt <= 0x2A
  }

  lemma RoomyBytes()
    ensures ToLe(ROOMY, 2) == [0, 0x27]
  {
    assert ToLe(ROOMY, 2) == [0] + ToLe(0x27, 1);
    assert ToLe(0x27, 1) == [0x27] + ToLe(0, 0);
  }

  lemma ElfaNewBytes(bytes: seq<byte>, nt: nat)
    requires Holds(bytes, 0x3C, nt, 4) && nt < 0x100
    ensures bytes[0x3C] == nt && bytes[0x3D] == 0 && bytes[0x3E] == 0 && bytes[0x3F] == 0
  {
    LowBytes(nt);
    var four := bytes[0x3C..0x40];
    assert four[0] == bytes[0x3C] && four[1] == bytes[0x3D] && four[2] == bytes[0x3E] && four[3] == bytes[0x3F];
  }

  lemma ElfaNewAgrees(bytes: seq<byte>, nt: nat)
    requires Holds(bytes, 0x3C, nt, 4) && !SizeIsGiven(nt)
    ensures Apart(nt + 20, 2, 0x3C, 4) || Agrees(bytes, nt + 20, ToLe(ROOMY, 2), 0x3C, 4)
  {
    if 0x27 <= nt <= 0x2B {
      ElfaNewBytes(bytes, nt);
      RoomyBytes();
    }
  }

  /** Images with another size of the optional header, and the section table where that puts it. */
  lemma SizeWritten(bytes: seq<byte>, nt: nat, size: nat, h: Headers)
    requires FixedFieldsAt(bytes, nt, size, h) && !SizeIsGiven(nt)
    ensures FixedFieldsAt(Overwrite(bytes, nt + 20, ToLe(ROOMY, 2)), nt, ROOMY, h)
  {
    var at, data := nt + 20, ToLe(ROOMY, 2);
    Pow256Sizes();
    ElfaNewAgrees(bytes, nt);
    HoldsKept(bytes, at, data, 0, IMAGE_DOS_SIGNATURE, 2);
    HoldsKept(bytes, at, data, 0x3C, nt, 4);
    HoldsKept(bytes, at, data, nt, IMAGE_NT_SIGNATURE, 4);
    HoldsKept(bytes, at, data, nt + 6, |h.sections|, 2);
    HoldsWritten(bytes, at, ROOMY, 2);
    HoldsKept(bytes, at, data, nt + 24, if h.is64Bit then MAGIC_PE32_PLUS else MAGIC_PE32, 2);
    HoldsKept(bytes, at, data, nt + 24 + (if h.is64Bit then 0x6C else 0x5C), h.numberOfRvaAndSizes, 4);
  }

  function Resized(bytes: seq<byte>, nt: nat, sections: seq<Section>): (r: seq<byte>)
  {
    Overwrite(Overwrite(bytes, nt + 20, ToLe(ROOMY, 2)), nt + 24 + ROOMY, TableBytes(sections))
  }

  lemma ResizedHeaders(bytes: seq<byte>, nt: nat, size: nat, h: Headers)
    requires HeadersAt(bytes, nt, size, h) && !SizeIsGiven(nt)
    ensures HeadersAt(Resized(bytes, nt, h.sections), nt, ROOMY, h)
    ensures DirectoryApart(nt, ROOMY, h)
  {
    var resized := Overwrite(bytes, nt + 20, ToLe(ROOMY, 2));
    SizeWritten(bytes, nt, size, h);
    FixedKept(resized, nt, ROOMY, h, nt + 24 + ROOMY, TableBytes(h.sections));
    TableWritten(resized, nt + 24 + ROOMY, h.sections);
  }

  lemma GivenSize(bytes: seq<byte>, nt: nat, size: nat)
    requires Holds(bytes, 0x3C, nt, 4) && Holds(bytes, nt + 20, size, 2) && SizeIsGiven(nt)
    ensures size == if nt == 0x28 then 0x28 else 0
  {
    ElfaNewBytes(bytes, nt);
    var two := bytes[nt + 20..nt + 22];
    var expected := if nt == 0x28 then 0x28 else 0;
    Pow256Sizes();
    LowBytes(expected);
    assert two[0] == bytes[nt + 20] && two[1] == bytes[nt + 21];
    assert two == ToLe(expected, 2);
    LeNatOfToLe(size, 2);
    LeNatOfToLe(expected, 2);
  }

  /** Where the size is given, the section headers' fields happen to leave the directory entry alone. */
  lemma GivenSizeIsApart(bytes: seq<byte>, nt: nat, size: nat, h: Headers)
    requires HeadersAt(bytes, nt, size, h) && SizeIsGiven(nt)
    ensures DirectoryApart(nt, size, h)
  {
    GivenSize(bytes, nt, size);
    var at := h.dataDirectoryOffset + 8;
    forall i | 0 <= i < |h.sections| ensures Apart(at, 8, nt + 24 + size + 40 * i + 8, 16) {
      assert at == nt + 24 + if h.is64Bit then 120 else 104;
    }
  }

  /** The headers of every image are those of one in which the entry of the import directory is free. */
  lemma RoomyImage(bytes: seq<byte>) returns (r: seq<byte>, nt: nat, size: nat)
    requires ParseHeaders(bytes).Ok?
    ensures HeadersAt(r, nt, size, ParseHeaders(bytes).value) && DirectoryApart(nt, size, ParseHeaders(bytes).value)
  {
    nt, size := ParsedIsHeld(bytes);
    r := bytes;
    if SizeIsGiven(nt) {
      GivenSizeIsApart(bytes, nt, size, ParseHeaders(bytes).value);
    } else {
      ResizedHeaders(bytes, nt, size, ParseHeaders(bytes).value);
      r, size := Resized(bytes, nt, ParseHeaders(bytes).value.sections), ROOMY;
    }
  }

  /** The image extended to a multiple of 4 GiB, with its import directory at this address. */
  function LongWithDirectory(bytes: seq<byte>, at: nat, rva: u32): (r: seq<byte>)
  {
    WithDirectory(Overwrite(bytes, |bytes| * 0x1_0000_0000, []), at, rva)
  }

  lemma LongIsSafe(bytes: seq<byte>, at: nat, rva: u32)
    requires 8 <= at <= |bytes| + 8
    ensures SafeLength(|LongWithDirectory(bytes, at, rva)|)
  {
    Wrap32IsRemainder(|bytes| * 0x1_0000_0000);
  }

  lemma LongKeepsHeaders(bytes: seq<byte>, nt: nat, size: nat, h: Headers, rva: u32)
    requires HeadersAt(bytes, nt, size, h) && DirectoryApart(nt, size, h)
    ensures HeadersAt(LongWithDirectory(bytes, h.dataDirectoryOffset + 8, rva), nt, size, h)
    ensures h.dataDirectoryOffset <= |bytes|
  {
    var n := |bytes| * 0x1_0000_0000;
    Extended(bytes, nt, size, h, n);
    DirectoryKeepsHeaders(Overwrite(bytes, n, []), nt, size, h, rva);
  }

  /** Whatever image the headers are of, some image of a safe length with the same headers has any import address. */
  lemma SomeImageWithDirectory(bytes: seq<byte>, rva: u32) returns (r: seq<byte>)
    requires ParseHeaders(bytes).Ok? && ParseHeaders(bytes).value.numberOfRvaAndSizes > 1 && rva > 0
    ensures ParseHeaders(r) == ParseHeaders(bytes) && SafeLength(|r|)
    ensures DataDirectory(ParseHeaders(bytes).value, 1, r) == Some((rva, 1))
  {
    var h := ParseHeaders(bytes).value;
    var at := h.dataDirectoryOffset + 8;
    var roomy, nt, size := RoomyImage(bytes);
    r := LongWithDirectory(roomy, at, rva);
    LongKeepsHeaders(roomy, nt, size, h, rva);
    LongIsSafe(roomy, at, rva);
    HeldIsParsed(r, nt, size, h);
    DirectoryHolds(Overwrite(roomy, |roomy| * 0x1_0000_0000, []), at, rva);
    HeldDirectoryIsRead(r, h, rva);
  }

  lemma OverflowingDirectoryPanics(h: Headers, bytes: seq<byte>, rva: u32)
    requires Overflows(h.sections, rva) && DataDirectory(h, 1, bytes) == Some((rva, 1))
    ensures CheckedImports(h, bytes).Overflowed?
  {
    CheckedRvaOr(h, rva);
  }

  lemma OverflowIsPositive(sections: seq<Section>, rva: u32)
    requires Overflows(sections, rva)
    ensures rva > 0
  {
    var k :| 0 <= k < |sections| && OverflowsAt(sections, k, rva);
    ClaimsAre(sections[k], rva);
  }

  /** Unsafe headers of any image are those of one, of a safe length, whose walk panics. */
  lemma UnsafeHeadersPanic(bytes: seq<byte>) returns (r: seq<byte>)
    requires ParseHeaders(bytes).Ok? && !SafeHeaders(ParseHeaders(bytes).value)
    ensures ParseHeaders(r) == ParseHeaders(bytes) && SafeLength(|r|)
    ensures CheckedImports(ParseHeaders(bytes).value, r).Overflowed?
  {
    var h := ParseHeaders(bytes).value;
    var rva: u32 :| Overflows(h.sections, rva);
    OverflowIsPositive(h.sections, rva);
    r := SomeImageWithDirectory(bytes, rva);
    OverflowingDirectoryPanics(h, r, rva);
  }

  /**
   For the headers of every image: the import walk panics on none of the images with exactly these headers
   if and only if they have no import entry or no address overflows in their sections.
   */
  lemma ImportsNeverPanicIff(image: seq<byte>)
    requires ParseHeaders(image).Ok?
    ensures var h := ParseHeaders(image).value;
            (forall bytes :: ParseHeaders(bytes) == Ok(h) ==> CheckedImports(h, bytes).Fine?) <==> SafeHeaders(h)
  {
    var h := ParseHeaders(image).value;
    if SafeHeaders(h) {
      forall bytes ensures CheckedImports(h, bytes).Fine? {
        SafeHeadersAreClear(h, bytes);
      }
    } else {
      var r := UnsafeHeadersPanic(image);
      assert ParseHeaders(r) == Ok(h) && CheckedImports(h, r).Overflowed?;
    }
  }

  /** The same of the whole analysis, on images of a safe length. */
  lemma HeadersConditionIsExact(image: seq<byte>)
    requires ParseHeaders(image).Ok?
    ensures var h := ParseHeaders(image).value;
            (forall bytes, hashError ::
               ParseHeaders(bytes) == Ok(h) && SafeLength(|bytes|) ==> CheckedAnalysis(bytes, hashError).Fine?)
            <==> SafeHeaders(h)
  {
    var h := ParseHeaders(image).value;
    if SafeHeaders(h) {
      forall bytes, hashError | ParseHeaders(bytes) == Ok(h) && SafeLength(|bytes|)
        ensures CheckedAnalysis(bytes, hashError).Fine?
      {
        SafeImagesNeverPanic(bytes, hashError);
      }
    } else {
      var r := UnsafeHeadersPanic(image);
      assert CheckedAnalysis(r, None).Overflowed?;
    }
  }

  // ----- images of a given length whose checksum panics -----

  /** The headers of an image without DLLs: one section of twenty bytes. */
  function PlainHeaders(): (h: Headers)
  {
    PeImage.ImageHeaders(false, 20)
  }

  /** An image without DLLs that stores a checksum of 1 and has n bytes. */
  function StoringImage(n: nat): (bytes: seq<byte>)
  {
    Overwrite(Overwrite(PeImage.Image(false, []), 0x98, ToLe(1, 4)), n, [])
  }

  lemma PlainImage()
    ensures HeadersAt(PeImage.Image(false, []), 0x40, 0xE0, PlainHeaders()) && |PeImage.Image(false, [])| == 0x214
    ensures NeverOverflows(PlainHeaders().sections)
  {
    assert PeImage.BodySize(false, []) == 20;
    PeImage.ImageIsLaid(false, []);
    RoomyNeverOverflows(PlainHeaders().sections);
  }

  lemma StoringImageIs(n: nat)
    requires n >= 0x214
    ensures HeadersAt(StoringImage(n), 0x40, 0xE0, PlainHeaders()) && |StoringImage(n)| == n
    ensures Holds(StoringImage(n), 0x98, 1, 4)
  {
    var plain := PeImage.Image(false, []);
    var storing := Overwrite(plain, 0x98, ToLe(1, 4));
    PlainImage();
    Pow256Sizes();
    HeadersKept(plain, 0x40, 0xE0, PlainHeaders(), 0x98, ToLe(1, 4));
    HoldsWritten(plain, 0x98, 1, 4);
    Extended(storing, 0x40, 0xE0, PlainHeaders(), n);
    HoldsKept(storing, n, [], 0x98, 1, 4);
  }

  /** The same with the free word set so that the sum is 0xFFFF. */
  function HeavyImage(n: nat): (bytes: seq<byte>)
  {
    WithWord(StoringImage(n), SteeringWord(StoringImage(n), 0x98, 0xFFFF))
  }

  lemma HeavyImageIs(n: nat)
    requires n >= 0x214
    ensures ParseHeaders(HeavyImage(n)) == Ok(PlainHeaders()) && |HeavyImage(n)| == n
    ensures U32At(HeavyImage(n), 0x98) == Some(1) && Canon(WordSum(HeavyImage(n), 0x98, 0)) == 0xFFFF
  {
    var bytes := StoringImage(n);
    var w := SteeringWord(bytes, 0x98, 0xFFFF);
    StoringImageIs(n);
    HeadersKept(bytes, 0x40, 0xE0, PlainHeaders(), 2, ToLe(w, 2));
    HeldIsParsed(HeavyImage(n), 0x40, 0xE0, PlainHeaders());
    HoldsKept(bytes, 2, ToLe(w, 2), 0x98, 1, 4);
    U32Iff(HeavyImage(n), 0x98, 1);
    Steered(bytes, 0x98, 0xFFFF);
  }

  lemma HeavyImagePanics(n: nat)
    requires !SafeLength(n)
    ensures |HeavyImage(n)| == n && ParseHeaders(HeavyImage(n)) == Ok(PlainHeaders()) && SafeHeaders(PlainHeaders())
    ensures CheckedAnalysis(HeavyImage(n), None).Overflowed?
  {
    HeavyImageIs(n);
    PlainImage();
    SafeHeadersAreClear(PlainHeaders(), HeavyImage(n));
    MismatchChecks(PlainHeaders(), HeavyImage(n));
  }

  /**
   For every length: the analysis panics on no image of this length with safe headers if and only if the
   length, in 32 bits, is at most 0xFFFF0000.
   */
  lemma LengthConditionIsExact(n: nat)
    ensures (forall bytes, hashError ::
               |bytes| == n && ParseHeaders(bytes).Ok? && SafeHeaders(ParseHeaders(bytes).value) ==>
                 CheckedAnalysis(bytes, hashError).Fine?)
            <==> SafeLength(n)
  {
    if SafeLength(n) {
      forall bytes, hashError | |bytes| == n && ParseHeaders(bytes).Ok? && SafeHeaders(ParseHeaders(bytes).value)
        ensures CheckedAnalysis(bytes, hashError).Fine?
      {
        SafeImagesNeverPanic(bytes, hashError);
      }
    } else {
      HeavyImagePanics(n);
    }
  }

  // ----- two images -----

  /** A section at raw offset 0xFFFFF000 that claims two pages. */
  const FAR_SECTION := Section(0x1000, 0x2000, 0xFFFF_F000, 0)

  /** The image without DLLs, with that section instead of its own, and its import directory in the second page. */
  function FarImage(): (bytes: seq<byte>)
  {
    WithDirectory(Overwrite(PeImage.Image(false, []), 0x138, TableBytes([FAR_SECTION])), 0xC0, 0x2000)
  }

  function FarHeaders(): (h: Headers)
  {
    PlainHeaders().(sections := [FAR_SECTION])
  }

  lemma FarSectionWritten()
    ensures var far := Overwrite(PeImage.Image(false, []), 0x138, TableBytes([FAR_SECTION]));
            HeadersAt(far, 0x40, 0xE0, FarHeaders())
  {
    var plain, table := PeImage.Image(false, []), TableBytes([FAR_SECTION]);
    PlainImage();
    assert FixedFieldsAt(plain, 0x40, 0xE0, FarHeaders());
    FixedKept(plain, 0x40, 0xE0, FarHeaders(), 0x138, table);
    TableWritten(plain, 0x138, [FAR_SECTION]);
  }

  /** An image of 532 bytes that parses and on which the analysis panics in the import walk. */
  lemma FarImagePanics(hashError: Option<int>)
    ensures |FarImage()| == 532 && ParseHeaders(FarImage()) == Ok(FarHeaders())
    ensures Overflows(FarHeaders().sections, 0x2000) && 0x2000 in ImportAddresses(FarHeaders(), FarImage())
    ensures CheckedAnalysis(FarImage(), hashError).Overflowed?
  {
    var far := Overwrite(PeImage.Image(false, []), 0x138, TableBytes([FAR_SECTION]));
    PlainImage();
    FarSectionWritten();
    DirectoryKeepsHeaders(far, 0x40, 0xE0, FarHeaders(), 0x2000);
    HeldIsParsed(FarImage(), 0x40, 0xE0, FarHeaders());
    DirectoryHolds(far, 0xC0, 0x2000);
    HeldDirectoryIsRead(FarImage(), FarHeaders(), 0x2000);
    assert OverflowsAt(FarHeaders().sections, 0, 0x2000);
    OverflowingDirectoryPanics(FarHeaders(), FarImage(), 0x2000);
  }

  /** An image of 0xFFFFFFFF bytes that parses, with safe headers, on which it panics in the checksum. */
  lemma LongImagePanics()
    ensures |HeavyImage(0xFFFF_FFFF)| == 0xFFFF_FFFF && ParseHeaders(HeavyImage(0xFFFF_FFFF)) == Ok(PlainHeaders())
    ensures SafeHeaders(PlainHeaders()) && CheckedAnalysis(HeavyImage(0xFFFF_FFFF), None).Overflowed?
  {
    HeavyImagePanics(0xFFFF_FFFF);
  }
}
