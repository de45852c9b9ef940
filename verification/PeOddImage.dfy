/**
 An image with an odd `e_lfanew`: the checksum counts its own field there (src/file/pe.rs, `checksum_of`), so
 storing the computed checksum changes it.
 */
module PeOddImage {
  import opened Wrappers
  import opened Bytes
  import opened PeChecksum
  import opened PeHeaders
  import opened PePatch
  import opened PeImage

  function OddFront(): (l: Layout)
  {
    Both(Num(0, IMAGE_DOS_SIGNATURE, 2), 0x3C, Both(Num(0x3C, 0x41, 4), 0x41, Num(0x41, IMAGE_NT_SIGNATURE, 4)))
  }

  /** No sections, no size of the optional header, and its magic. */
  function OddFileHeader(): (l: Layout)
  {
    Both(Num(0x47, 0, 2), 0x55, Both(Num(0x55, 0, 2), 0x59, Num(0x59, MAGIC_PE32, 2)))
  }

  /** The checksum field and the number of data directories. */
  function OddBack(): (l: Layout)
  {
    Both(Num(0x99, 0, 4), 0xB5, Num(0xB5, 0, 4))
  }

  function OddLayout(): (l: Layout)
  {
    Both(OddFront(), 0x47, Both(OddFileHeader(), 0x99, OddBack()))
  }

  function OddHeaders(): (h: Headers)
  {
    Headers(false, 0x99, 0, 0xB9, [])
  }

  /** NT headers at 0x41, no sections, nothing else. */
  function BareOddImage(): (bytes: seq<byte>)
  {
    Fill(0xB9, OddLayout())
  }

  lemma OddLayoutWithin()
    ensures Within(OddLayout(), 0, 0xB9)
  {
    Pow256Sizes();
    ThreeWithin(Num(0, IMAGE_DOS_SIGNATURE, 2), 0x3C, Num(0x3C, 0x41, 4), 0x41, Num(0x41, IMAGE_NT_SIGNATURE, 4),
                0, 0x47);
    ThreeWithin(Num(0x47, 0, 2), 0x55, Num(0x55, 0, 2), 0x59, Num(0x59, MAGIC_PE32, 2), 0x47, 0x99);
    ThreeWithin(OddFront(), 0x47, OddFileHeader(), 0x99, OddBack(), 0, 0xB9);
  }

  lemma OddFieldsAreHeaders(bytes: seq<byte>)
    requires AllStand(bytes, OddFront()) && AllStand(bytes, OddFileHeader()) && AllStand(bytes, OddBack())
    ensures HeadersAt(bytes, 0x41, 0, OddHeaders())
  {
    ThreeStand(bytes, Num(0, IMAGE_DOS_SIGNATURE, 2), 0x3C, Num(0x3C, 0x41, 4), 0x41, Num(0x41, IMAGE_NT_SIGNATURE, 4));
    ThreeStand(bytes, Num(0x47, 0, 2), 0x55, Num(0x55, 0, 2), 0x59, Num(0x59, MAGIC_PE32, 2));
  }

  lemma BareOddImageIs()
    ensures HeadersAt(BareOddImage(), 0x41, 0, OddHeaders()) && Holds(BareOddImage(), 0x99, 0, 4)
  {
    OddLayoutWithin();
    FilledStands(BareOddImage(), OddLayout(), 0, 0xB9);
    ThreeStand(BareOddImage(), OddFront(), 0x47, OddFileHeader(), 0x99, OddBack());
    OddFieldsAreHeaders(BareOddImage());
  }

  /** The same with the free word set so that the sum is 1. */
  function OddImage(): (bytes: seq<byte>)
  {
    WithWord(BareOddImage(), SteeringWord(BareOddImage(), 0x99, 1))
  }

  lemma WordKeepsOdd(bytes: seq<byte>, w: u16)
    requires HeadersAt(bytes, 0x41, 0, OddHeaders()) && Holds(bytes, 0x99, 0, 4)
    ensures HeadersAt(WithWord(bytes, w), 0x41, 0, OddHeaders()) && Holds(WithWord(bytes, w), 0x99, 0, 4)
  {
    HeadersKept(bytes, 0x41, 0, OddHeaders(), 2, ToLe(w, 2));
    HoldsKept(bytes, 2, ToLe(w, 2), 0x99, 0, 4);
  }

  lemma FieldSums(bytes: seq<byte>, field: nat)
    requires Holds(bytes, field, 0, 4)
    ensures OddFieldSum(ToLe(0xBA, 4)) == 0xBA00 && OddFieldSum(FieldOf(bytes, field)) == 0
  {
    LowBytes(0xBA);
    LowBytes(0);
  }

  lemma ChecksumIs(bytes: seq<byte>, field: nat)
    requires |bytes| == 0xB9 && Canon(WordSum(bytes, field, 0)) == 1
    ensures Checksum(bytes, field) == 0xBA
  {
  }

  /** For any odd image of 185 bytes and sum 1, the checksum is 0xBA, and stored adds 0xBA00 to the sum. */
  lemma OddMismatches(bytes: seq<byte>, field: nat)
    requires ParseHeaders(bytes).Ok? && ElfaNew(bytes).value % 2 == 1
    requires ParseHeaders(bytes).value.checksumOffset == field && Holds(bytes, field, 0, 4)
    requires |bytes| == 0xB9 && Canon(WordSum(bytes, field, 0)) == 1
    ensures var stored := StoreChecksum(bytes, field, Checksum(bytes, field));
            ParseHeaders(stored).Ok? && ChecksumMismatch(ParseHeaders(stored).value, stored)
  {
    ChecksumIs(bytes, field);
    FieldSums(bytes, field);
    OddStoredChecksumIff(bytes);
  }

  lemma OddImageParses(bytes: seq<byte>)
    requires HeadersAt(bytes, 0x41, 0, OddHeaders())
    ensures ParseHeaders(bytes) == Ok(OddHeaders()) && ElfaNew(bytes) == Some(0x41)
  {
    HeldIsParsed(bytes, 0x41, 0, OddHeaders());
    U32Iff(bytes, 0x3C, 0x41);
  }

  /** An image of 185 bytes with an odd `e_lfanew` whose own computed checksum, once stored, is a mismatch. */
  lemma OddImageMismatches()
    ensures |OddImage()| == 0xB9 && ParseHeaders(OddImage()) == Ok(OddHeaders())
    ensures var stored := StoreChecksum(OddImage(), 0x99, Checksum(OddImage(), 0x99));
            ParseHeaders(stored).Ok? && ChecksumMismatch(ParseHeaders(stored).value, stored)
  {
    BareOddImageIs();
    WordKeepsOdd(BareOddImage(), SteeringWord(BareOddImage(), 0x99, 1));
    Steered(BareOddImage(), 0x99, 1);
    OddImageParses(OddImage());
    OddMismatches(OddImage(), 0x99);
  }
}
