/**
 A writer of PE images with an import directory. It generalises the one-DLL image that the tests of
 src/file/pe.rs fill in place to every list of DLLs and imports, in 32 and 64 bits: descriptors, then
 per DLL its thunks, its hint/name entries and its name, in one section whose addresses are file offsets.
 */
module PeImage {
  import opened Wrappers
  import opened Bytes
  import opened PeHeaders
  import opened PeImports

  // ----- filling a zeroed buffer -----

  /** What is copied where: bytes, a little-endian number of k bytes, or one layout below `mid` and one above. */
  datatype Layout =
    | Nothing
    | Put(at: nat, data: seq<byte>)
    | Num(at: nat, n: nat, k: nat)
    | Both(left: Layout, mid: nat, right: Layout)

  /** Everything lies between `lo` and `hi`, nothing overlaps, and every number fits its width. */
  ghost predicate Within(l: Layout, lo: nat, hi: nat) {
    match l
    case Nothing => lo <= hi
    case Put(at, data) => lo <= at && at + |data| <= hi
    case Num(at, n, k) => lo <= at && at + k <= hi && n < Pow256(k)
    case Both(left, mid, right) => Within(left, lo, mid) && Within(right, mid, hi)
  }

  function ByteAt(l: Layout, i: nat): (b: byte)
  {
    match l
    case Nothing => 0
    case Put(at, data) => if at <= i < at + |data| then data[i - at] else 0
    case Num(at, n, k) => if at <= i < at + k then ToLe(n, k)[i - at] else 0
    case Both(left, mid, right) => if i < mid then ByteAt(left, i) else ByteAt(right, i)
  }

  function Fill(size: nat, l: Layout): (bytes: seq<byte>)
    ensures |bytes| == size && forall i :: 0 <= i < size ==> bytes[i] == ByteAt(l, i)
  {
    seq(size, i requires 0 <= i < size => ByteAt(l, i))
  }

  /** The bytes are in the buffer from `at` on. */
  ghost predicate Stands(bytes: seq<byte>, at: nat, data: seq<byte>) {
    at + |data| <= |bytes| && bytes[at..at + |data|] == data
  }

  /** The buffer has everything in its place. */
  ghost predicate AllStand(bytes: seq<byte>, l: Layout) {
    match l
    case Nothing => true
    case Put(at, data) => Stands(bytes, at, data)
    case Num(at, n, k) => Holds(bytes, at, n, k)
    case Both(left, _, right) => AllStand(bytes, left) && AllStand(bytes, right)
  }

  lemma {:induction false} WithinBounds(l: Layout, lo: nat, hi: nat)
    requires Within(l, lo, hi)
    ensures lo <= hi
  {
    if l.Both? {
      WithinBounds(l.left, lo, l.mid);
      WithinBounds(l.right, l.mid, hi);
    }
  }

  lemma {:induction false} FilledStands(bytes: seq<byte>, l: Layout, lo: nat, hi: nat)
    requires Within(l, lo, hi) && hi <= |bytes| && forall i :: lo <= i < hi ==> bytes[i] == ByteAt(l, i)
    ensures AllStand(bytes, l)
  {
    match l
    case Nothing =>
    case Put(at, data) =>
      assert bytes[at..at + |data|] == data;
    case Num(at, n, k) =>
      assert bytes[at..at + k] == ToLe(n, k);
    case Both(left, mid, right) =>
      WithinBounds(left, lo, mid);
      WithinBounds(right, mid, hi);
      FilledStands(bytes, left, lo, mid);
      FilledStands(bytes, right, mid, hi);
  }

  /** Taking a layout of three parts apart. */
  lemma ThreeStand(bytes: seq<byte>, a: Layout, x: nat, b: Layout, y: nat, c: Layout)
    requires AllStand(bytes, Both(a, x, Both(b, y, c)))
    ensures AllStand(bytes, a) && AllStand(bytes, b) && AllStand(bytes, c)
  {
    assert AllStand(bytes, Both(b, y, c));
  }

  lemma ThreeWithin(a: Layout, x: nat, b: Layout, y: nat, c: Layout, lo: nat, hi: nat)
    requires Within(a, lo, x) && Within(b, x, y) && Within(c, y, hi)
    ensures Within(Both(a, x, Both(b, y, c)), lo, hi)
  {
    assert Within(Both(b, y, c), x, hi);
  }

  // ----- thunks and names -----

  const BASE: nat := 0x200

  /** Addresses must stay below the ordinal flag of 32-bit thunks. */
  const LIMIT: nat := 0x8000_0000

  function Width(wide: bool): (w: nat)
  {
    if wide then 8 else 4
  }

  /** A hint/name entry: two hint bytes, the name, a NUL; ordinals have none. */
  function Entry(s: Symbol): (b: seq<byte>)
  {
    match s
    case ByName(name) => [0, 0] + (name + [0])
    case _ => []
  }

  /** A thunk: the address of the entry, or the ordinal under the top bit. */
  function ThunkValue(wide: bool, s: Symbol, entry: nat): (n: nat)
  {
    match s
    case ByName(_) => entry
    case ByOrdinal(n) => (if wide then 0x8000_0000_0000_0000 else 0x8000_0000) + n
    case Unresolved => 0
  }

  function ThunksSize(wide: bool, symbols: seq<Symbol>): (n: nat)
  {
    if symbols == [] then Width(wide) else Width(wide) + ThunksSize(wide, symbols[1..])
  }

  function EntriesSize(symbols: seq<Symbol>): (n: nat)
  {
    if symbols == [] then 0 else |Entry(symbols[0])| + EntriesSize(symbols[1..])
  }

  /** The thunks from `at` on, for entries from `entry` on, and the zero thunk. */
  function Thunks(wide: bool, symbols: seq<Symbol>, at: nat, entry: nat): (l: Layout)
    decreases |symbols|
  {
    if symbols == [] then Num(at, 0, Width(wide))
    else
      Both(Num(at, ThunkValue(wide, symbols[0], entry), Width(wide)), at + Width(wide),
           Thunks(wide, symbols[1..], at + Width(wide), entry + |Entry(symbols[0])|))
  }

  function Entries(symbols: seq<Symbol>, entry: nat): (l: Layout)
    decreases |symbols|
  {
    if symbols == [] then Nothing
    else
      var next := entry + |Entry(symbols[0])|;
      Both(Put(entry, Entry(symbols[0])), next, Entries(symbols[1..], next))
  }

  lemma ThunkFits(wide: bool, s: Symbol, entry: nat)
    requires entry < LIMIT
    ensures ThunkValue(wide, s, entry) < Pow256(Width(wide)) && 0 < Pow256(Width(wide))
  {
    Pow256Sizes();
  }

  lemma {:induction false} ThunksWithin(wide: bool, symbols: seq<Symbol>, at: nat, entry: nat)
    requires entry + EntriesSize(symbols) < LIMIT
    ensures Within(Thunks(wide, symbols, at, entry), at, at + ThunksSize(wide, symbols))
    decreases |symbols|
  {
    if symbols == [] {
      ThunkFits(wide, ByOrdinal(0), entry);
    } else {
      ThunkFits(wide, symbols[0], entry);
      ThunksWithin(wide, symbols[1..], at + Width(wide), entry + |Entry(symbols[0])|);
    }
  }

  lemma {:induction false} EntriesWithin(symbols: seq<Symbol>, entry: nat)
    ensures Within(Entries(symbols, entry), entry, entry + EntriesSize(symbols))
    decreases |symbols|
  {
    if symbols != [] {
      EntriesWithin(symbols[1..], entry + |Entry(symbols[0])|);
    }
  }

  // ----- what the parser's addresses mean -----

  predicate GoodName(name: seq<byte>) {
    |name| < 512 && 0 !in name
  }

  predicate GoodSymbol(s: Symbol) {
    s.ByOrdinal? || (s.ByName? && GoodName(s.name))
  }

  predicate GoodSymbols(symbols: seq<Symbol>) {
    symbols == [] || (GoodSymbol(symbols[0]) && GoodSymbols(symbols[1..]))
  }

  predicate GoodDll(d: Dll) {
    GoodName(d.name) && GoodSymbols(d.symbols)
  }

  /** An address of the section is its own file offset. */
  ghost predicate Located(h: Headers, rva: nat) {
    0 < rva < LIMIT && RvaToOffset(h, rva) == Some(rva)
  }

  ghost predicate Maps(h: Headers, hi: nat) {
    hi < LIMIT && forall rva: nat :: BASE <= rva < hi ==> Located(h, rva)
  }

  lemma StandsCString(bytes: seq<byte>, at: nat, s: seq<byte>)
    requires Stands(bytes, at, s + [0]) && 0 !in s
    ensures CStringAt(bytes, at, s)
  {
    var all := bytes[at..at + |s| + 1];
    assert all[..|s|] == s && all[|s|] == 0;
    assert bytes[at..at + |s|] == all[..|s|] && bytes[at + |s|] == all[|s|];
  }

  lemma StandsTail(bytes: seq<byte>, at: nat, a: seq<byte>, b: seq<byte>)
    requires Stands(bytes, at, a + b)
    ensures Stands(bytes, at + |a|, b)
  {
    var all := bytes[at..at + |a| + |b|];
    assert all[|a|..] == b;
    assert bytes[at + |a|..at + |a| + |b|] == all[|a|..];
  }

  lemma OrdinalLow16(wide: bool, n: u16)
    ensures Low16(ThunkValue(wide, ByOrdinal(n), 0)) == n
  {
    Low16Multiple(n, if wide then 0x8000_0000_0000 else 0x8000);
  }

  lemma SymbolMeant(h: Headers, bytes: seq<byte>, s: Symbol, entry: nat, hi: nat)
    requires Maps(h, hi) && BASE <= entry && entry + |Entry(s)| <= hi && GoodSymbol(s)
    requires Stands(bytes, entry, Entry(s))
    ensures ThunkMeans(h, bytes, ThunkValue(h.is64Bit, s, entry), s)
  {
    match s
    case ByName(name) =>
      assert Located(h, entry);
      StandsTail(bytes, entry, [0, 0], name + [0]);
      StandsCString(bytes, entry + 2, name);
    case ByOrdinal(n) => OrdinalLow16(h.is64Bit, n);
  }

  lemma LayThunk(h: Headers, bytes: seq<byte>, s: Symbol, at: nat, entry: nat, hi: nat)
    requires Maps(h, hi) && BASE <= entry && entry + |Entry(s)| <= hi && GoodSymbol(s)
    requires Holds(bytes, at, ThunkValue(h.is64Bit, s, entry), Width(h.is64Bit)) && Stands(bytes, entry, Entry(s))
    ensures ThunkLaid(h, bytes, at, s)
  {
    SymbolMeant(h, bytes, s, entry, hi);
  }

  /** Taken apart: the first symbol's thunk and entry, and the others'. */
  lemma {:induction false} FirstThunk(bytes: seq<byte>, wide: bool, symbols: seq<Symbol>, at: nat, entry: nat)
    requires symbols != []
    requires AllStand(bytes, Thunks(wide, symbols, at, entry)) && AllStand(bytes, Entries(symbols, entry))
    ensures var next := entry + |Entry(symbols[0])|;
            && Holds(bytes, at, ThunkValue(wide, symbols[0], entry), Width(wide))
            && Stands(bytes, entry, Entry(symbols[0]))
            && AllStand(bytes, Thunks(wide, symbols[1..], at + Width(wide), next))
            && AllStand(bytes, Entries(symbols[1..], next))
  {
  }

  lemma {:induction false} LayThunks(h: Headers, bytes: seq<byte>, symbols: seq<Symbol>, at: nat, entry: nat, hi: nat)
    requires Maps(h, hi) && BASE <= entry && entry + EntriesSize(symbols) <= hi
    requires GoodSymbols(symbols)
    requires AllStand(bytes, Thunks(h.is64Bit, symbols, at, entry)) && AllStand(bytes, Entries(symbols, entry))
    ensures ThunksLaid(h, bytes, at, symbols)
    decreases |symbols|
  {
    if symbols != [] {
      var at', next := at + Width(h.is64Bit), entry + |Entry(symbols[0])|;
      FirstThunk(bytes, h.is64Bit, symbols, at, entry);
      assert ThunkLaid(h, bytes, at, symbols[0]) by {
        LayThunk(h, bytes, symbols[0], at, entry, hi);
      }
      assert ThunksLaid(h, bytes, at', symbols[1..]) by {
        LayThunks(h, bytes, symbols[1..], at', next, hi);
      }
    }
  }

  // ----- DLLs -----

  /** Where a DLL's entries and its name go, for a block at `pos`. */
  function EntriesPos(wide: bool, d: Dll, pos: nat): (p: nat)
  {
    pos + ThunksSize(wide, d.symbols)
  }

  function NamePos(wide: bool, d: Dll, pos: nat): (p: nat)
  {
    EntriesPos(wide, d, pos) + EntriesSize(d.symbols)
  }

  /** Where the next block goes. */
  function BlockEnd(wide: bool, d: Dll, pos: nat): (p: nat)
    ensures p > pos
  {
    NamePos(wide, d, pos) + |d.name| + 1
  }

  function Block(wide: bool, d: Dll, pos: nat): (l: Layout)
  {
    var entries, name := EntriesPos(wide, d, pos), NamePos(wide, d, pos);
    Both(Thunks(wide, d.symbols, pos, entries), entries,
         Both(Entries(d.symbols, entries), name, Put(name, d.name + [0])))
  }

  lemma {:induction false} BlockWithin(wide: bool, d: Dll, pos: nat)
    requires BlockEnd(wide, d, pos) <= LIMIT
    ensures Within(Block(wide, d, pos), pos, BlockEnd(wide, d, pos))
  {
    var entries, name := EntriesPos(wide, d, pos), NamePos(wide, d, pos);
    ThunksWithin(wide, d.symbols, pos, entries);
    EntriesWithin(d.symbols, entries);
    ThreeWithin(Thunks(wide, d.symbols, pos, entries), entries, Entries(d.symbols, entries), name,
                Put(name, d.name + [0]), pos, BlockEnd(wide, d, pos));
  }

  function DescriptorOf(wide: bool, d: Dll, pos: nat): (r: Descriptor)
    requires NamePos(wide, d, pos) < 0x1_0000_0000
  {
    Descriptor(pos, NamePos(wide, d, pos), pos)
  }

  function DescriptorLayout(at: nat, first: nat, name: nat): (l: Layout)
  {
    Both(Num(at, first, 4), at + 12, Both(Num(at + 12, name, 4), at + 16, Num(at + 16, first, 4)))
  }

  lemma DescriptorStands(bytes: seq<byte>, at: nat, d: Descriptor)
    requires d.firstThunk == d.originalFirstThunk
    requires AllStand(bytes, DescriptorLayout(at, d.firstThunk, d.nameRva))
    ensures DescriptorHolds(bytes, at, d)
  {
    ThreeStand(bytes, Num(at, d.firstThunk, 4), at + 12, Num(at + 12, d.nameRva, 4), at + 16,
               Num(at + 16, d.firstThunk, 4));
  }

  /** A block whose descriptor points into it is laid out for its DLL. */
  lemma {:induction false} LayDll(h: Headers, bytes: seq<byte>, d: Dll, pos: nat, hi: nat)
    requires Maps(h, hi) && BASE <= pos && BlockEnd(h.is64Bit, d, pos) <= hi && GoodDll(d)
    requires AllStand(bytes, Block(h.is64Bit, d, pos))
    ensures DescriptorMeans(h, bytes, DescriptorOf(h.is64Bit, d, pos), d)
  {
    var entries, name := EntriesPos(h.is64Bit, d, pos), NamePos(h.is64Bit, d, pos);
    ThreeStand(bytes, Thunks(h.is64Bit, d.symbols, pos, entries), entries, Entries(d.symbols, entries), name,
               Put(name, d.name + [0]));
    LayThunks(h, bytes, d.symbols, pos, entries, hi);
    StandsCString(bytes, name, d.name);
    assert Located(h, pos) && Located(h, name);
  }

  lemma {:induction false} LayFirst(h: Headers, bytes: seq<byte>, d: Dll, at: nat, pos: nat, hi: nat)
    requires Maps(h, hi) && BASE <= pos && BlockEnd(h.is64Bit, d, pos) <= hi && GoodDll(d)
    requires AllStand(bytes, DescriptorLayout(at, pos, NamePos(h.is64Bit, d, pos)))
    requires AllStand(bytes, Block(h.is64Bit, d, pos))
    ensures DllLaid(h, bytes, at, d)
  {
    DescriptorStands(bytes, at, DescriptorOf(h.is64Bit, d, pos));
    LayDll(h, bytes, d, pos, hi);
  }

  // ----- the directory -----

  function TableSize(dlls: seq<Dll>): (n: nat)
  {
    if dlls == [] then 20 else 20 + TableSize(dlls[1..])
  }

  function BlocksEnd(wide: bool, dlls: seq<Dll>, pos: nat): (p: nat)
    ensures p >= pos
    decreases |dlls|
  {
    if dlls == [] then pos else BlocksEnd(wide, dlls[1..], BlockEnd(wide, dlls[0], pos))
  }

  /** The descriptors from `at` on, for blocks from `pos` on, and the all-zero one. */
  function Table(wide: bool, dlls: seq<Dll>, at: nat, pos: nat): (l: Layout)
    decreases |dlls|
  {
    if dlls == [] then DescriptorLayout(at, 0, 0)
    else
      Both(DescriptorLayout(at, pos, NamePos(wide, dlls[0], pos)), at + 20,
           Table(wide, dlls[1..], at + 20, BlockEnd(wide, dlls[0], pos)))
  }

  function Blocks(wide: bool, dlls: seq<Dll>, pos: nat): (l: Layout)
    decreases |dlls|
  {
    if dlls == [] then Nothing
    else
      var next := BlockEnd(wide, dlls[0], pos);
      Both(Block(wide, dlls[0], pos), next, Blocks(wide, dlls[1..], next))
  }

  lemma DescriptorWithin(at: nat, first: nat, name: nat)
    requires first < LIMIT && name < LIMIT
    ensures Within(DescriptorLayout(at, first, name), at, at + 20)
  {
    Pow256Sizes();
    ThreeWithin(Num(at, first, 4), at + 12, Num(at + 12, name, 4), at + 16, Num(at + 16, first, 4), at, at + 20);
  }

  lemma {:induction false} TableWithin(wide: bool, dlls: seq<Dll>, at: nat, pos: nat)
    requires BlocksEnd(wide, dlls, pos) <= LIMIT
    ensures Within(Table(wide, dlls, at, pos), at, at + TableSize(dlls))
    decreases |dlls|
  {
    if dlls == [] {
      DescriptorWithin(at, 0, 0);
    } else {
      DescriptorWithin(at, pos, NamePos(wide, dlls[0], pos));
      TableWithin(wide, dlls[1..], at + 20, BlockEnd(wide, dlls[0], pos));
    }
  }

  lemma {:induction false} BlocksWithin(wide: bool, dlls: seq<Dll>, pos: nat)
    requires BlocksEnd(wide, dlls, pos) <= LIMIT
    ensures Within(Blocks(wide, dlls, pos), pos, BlocksEnd(wide, dlls, pos))
    decreases |dlls|
  {
    if dlls != [] {
      BlockWithin(wide, dlls[0], pos);
      BlocksWithin(wide, dlls[1..], BlockEnd(wide, dlls[0], pos));
    }
  }

  lemma {:induction false} LayDirectory(h: Headers, bytes: seq<byte>, dlls: seq<Dll>, at: nat, pos: nat, hi: nat)
    requires Maps(h, hi) && BASE <= pos && BlocksEnd(h.is64Bit, dlls, pos) <= hi
    requires forall i :: 0 <= i < |dlls| ==> GoodDll(dlls[i])
    requires AllStand(bytes, Table(h.is64Bit, dlls, at, pos)) && AllStand(bytes, Blocks(h.is64Bit, dlls, pos))
    ensures DirectoryLaid(h, bytes, at, dlls)
    decreases |dlls|
  {
    if dlls == [] {
      DescriptorStands(bytes, at, TERMINATOR);
    } else {
      LayFirst(h, bytes, dlls[0], at, pos, hi);
      LayDirectory(h, bytes, dlls[1..], at + 20, BlockEnd(h.is64Bit, dlls[0], pos), hi);
    }
  }

  // ----- headers -----

  function OptionalSize(wide: bool): (n: nat)
  {
    if wide then 0xF0 else 0xE0
  }

  /** Where the number of data directories stands; their table follows it. */
  function CountPos(wide: bool): (n: nat)
  {
    0x58 + if wide then 0x6C else 0x5C
  }

  function SectionPos(wide: bool): (n: nat)
  {
    0x58 + OptionalSize(wide)
  }

  function Magic(wide: bool): (m: u16)
  {
    if wide then MAGIC_PE32_PLUS else MAGIC_PE32
  }

  function Signatures(): (l: Layout)
  {
    Both(Num(0, IMAGE_DOS_SIGNATURE, 2), 0x3C, Both(Num(0x3C, 0x40, 4), 0x40, Num(0x40, IMAGE_NT_SIGNATURE, 4)))
  }

  /** One section, the size of the optional header, and its magic. */
  function FileHeader(wide: bool): (l: Layout)
  {
    Both(Num(0x46, 1, 2), 0x54, Both(Num(0x54, OptionalSize(wide), 2), 0x58, Num(0x58, Magic(wide), 2)))
  }

  /** Sixteen data directories, the second of them the imports. */
  function Directories(at: nat, tableSize: nat): (l: Layout)
  {
    Both(Num(at, 16, 4), at + 12, Both(Num(at + 12, BASE, 4), at + 16, Num(at + 16, tableSize, 4)))
  }

  function SectionHeader(at: nat, size: nat): (l: Layout)
  {
    Both(Num(at + 8, size, 4), at + 12,
         Both(Num(at + 12, BASE, 4), at + 16, Both(Num(at + 16, size, 4), at + 20, Num(at + 20, BASE, 4))))
  }

  function Front(wide: bool): (l: Layout)
  {
    Both(Signatures(), 0x46, FileHeader(wide))
  }

  function HeaderLayout(wide: bool, tableSize: nat, size: nat): (l: Layout)
  {
    Both(Front(wide), 0x5A, Both(Directories(CountPos(wide), tableSize), SectionPos(wide),
                                 SectionHeader(SectionPos(wide), size)))
  }

  lemma FrontWithin(wide: bool)
    ensures Within(Front(wide), 0, 0x5A)
  {
    Pow256Sizes();
    ThreeWithin(Num(0, IMAGE_DOS_SIGNATURE, 2), 0x3C, Num(0x3C, 0x40, 4), 0x40, Num(0x40, IMAGE_NT_SIGNATURE, 4),
                0, 0x46);
    ThreeWithin(Num(0x46, 1, 2), 0x54, Num(0x54, OptionalSize(wide), 2), 0x58, Num(0x58, Magic(wide), 2), 0x46, 0x5A);
  }

  lemma DirectoriesWithin(at: nat, tableSize: nat, hi: nat)
    requires tableSize < LIMIT && at + 20 <= hi
    ensures Within(Directories(at, tableSize), at, hi)
  {
    Pow256Sizes();
    ThreeWithin(Num(at, 16, 4), at + 12, Num(at + 12, BASE, 4), at + 16, Num(at + 16, tableSize, 4), at, hi);
  }

  lemma SectionWithin(at: nat, size: nat)
    requires size < LIMIT && at + 24 <= BASE
    ensures Within(SectionHeader(at, size), at, BASE)
  {
    Pow256Sizes();
    ThreeWithin(Num(at + 12, BASE, 4), at + 16, Num(at + 16, size, 4), at + 20, Num(at + 20, BASE, 4), at + 12, BASE);
  }

  lemma {:induction false} WithinWider(l: Layout, lo: nat, mid: nat, hi: nat)
    requires lo <= mid && Within(l, mid, hi)
    ensures Within(l, lo, hi)
  {
    if l.Both? {
      WithinWider(l.left, lo, mid, l.mid);
    }
  }

  lemma HeaderWithin(wide: bool, tableSize: nat, size: nat)
    requires tableSize < LIMIT && size < LIMIT
    ensures Within(HeaderLayout(wide, tableSize, size), 0, BASE)
  {
    var directories := Directories(CountPos(wide), tableSize);
    FrontWithin(wide);
    DirectoriesWithin(CountPos(wide), tableSize, SectionPos(wide));
    WithinWider(directories, 0x5A, CountPos(wide), SectionPos(wide));
    SectionWithin(SectionPos(wide), size);
    ThreeWithin(Front(wide), 0x5A, directories, SectionPos(wide), SectionHeader(SectionPos(wide), size), 0, BASE);
  }

  /** The headers the image has. */
  function ImageHeaders(wide: bool, size: nat): (h: Headers)
    requires size < LIMIT
  {
    Headers(wide, 0x98, 16, CountPos(wide) + 4, [Section(BASE, size, BASE, size)])
  }

  lemma FrontHolds(bytes: seq<byte>, wide: bool)
    requires AllStand(bytes, Front(wide))
    ensures Holds(bytes, 0, IMAGE_DOS_SIGNATURE, 2) && Holds(bytes, 0x3C, 0x40, 4)
    ensures Holds(bytes, 0x40, IMAGE_NT_SIGNATURE, 4) && Holds(bytes, 0x46, 1, 2)
    ensures Holds(bytes, 0x54, OptionalSize(wide), 2) && Holds(bytes, 0x58, Magic(wide), 2)
  {
    ThreeStand(bytes, Num(0, IMAGE_DOS_SIGNATURE, 2), 0x3C, Num(0x3C, 0x40, 4), 0x40, Num(0x40, IMAGE_NT_SIGNATURE, 4));
    ThreeStand(bytes, Num(0x46, 1, 2), 0x54, Num(0x54, OptionalSize(wide), 2), 0x58, Num(0x58, Magic(wide), 2));
  }

  lemma DirectoriesHold(bytes: seq<byte>, at: nat, tableSize: nat)
    requires AllStand(bytes, Directories(at, tableSize))
    ensures Holds(bytes, at, 16, 4) && Holds(bytes, at + 12, BASE, 4) && Holds(bytes, at + 16, tableSize, 4)
  {
    ThreeStand(bytes, Num(at, 16, 4), at + 12, Num(at + 12, BASE, 4), at + 16, Num(at + 16, tableSize, 4));
  }

  lemma SectionStands(bytes: seq<byte>, at: nat, size: nat)
    requires size < LIMIT && AllStand(bytes, SectionHeader(at, size))
    ensures SectionHolds(bytes, at, Section(BASE, size, BASE, size))
  {
    ThreeStand(bytes, Num(at + 12, BASE, 4), at + 16, Num(at + 16, size, 4), at + 20, Num(at + 20, BASE, 4));
  }

  lemma FieldsHeld(bytes: seq<byte>, wide: bool, tableSize: nat, size: nat)
    requires size < LIMIT && AllStand(bytes, Front(wide)) && AllStand(bytes, Directories(CountPos(wide), tableSize))
    ensures FixedFieldsAt(bytes, 0x40, OptionalSize(wide), ImageHeaders(wide, size))
  {
    FrontHolds(bytes, wide);
    DirectoriesHold(bytes, CountPos(wide), tableSize);
  }

  lemma SectionsHeldAt(bytes: seq<byte>, wide: bool, size: nat)
    requires size < LIMIT && AllStand(bytes, SectionHeader(SectionPos(wide), size))
    ensures SectionsAt(bytes, SectionPos(wide), ImageHeaders(wide, size).sections)
  {
    SectionStands(bytes, SectionPos(wide), size);
  }

  lemma HeadersHeld(bytes: seq<byte>, wide: bool, tableSize: nat, size: nat)
    requires size < LIMIT && AllStand(bytes, HeaderLayout(wide, tableSize, size))
    ensures HeadersAt(bytes, 0x40, OptionalSize(wide), ImageHeaders(wide, size))
    ensures AllStand(bytes, Directories(CountPos(wide), tableSize))
  {
    ThreeStand(bytes, Front(wide), 0x5A, Directories(CountPos(wide), tableSize), SectionPos(wide),
               SectionHeader(SectionPos(wide), size));
    FieldsHeld(bytes, wide, tableSize, size);
    SectionsHeldAt(bytes, wide, size);
  }

  lemma AddressMaps(wide: bool, size: nat, rva: nat)
    requires BASE + size < LIMIT && BASE <= rva < BASE + size
    ensures Located(ImageHeaders(wide, size), rva)
  {
    var h, s := ImageHeaders(wide, size), Section(BASE, size, BASE, size);
    assert Claims(s, rva) && SectionOffset(s, rva) == rva;
    assert RvaToOffsetIn(h.sections, rva) == Some(SectionOffset(s, rva));
  }

  /** Every address of the section is its file offset. */
  lemma SectionMaps(wide: bool, size: nat)
    requires BASE + size < LIMIT
    ensures Maps(ImageHeaders(wide, size), BASE + size)
  {
    forall rva: nat | BASE <= rva < BASE + size ensures Located(ImageHeaders(wide, size), rva) {
      AddressMaps(wide, size, rva);
    }
  }

  lemma DirectoryRead(bytes: seq<byte>, wide: bool, tableSize: nat, size: nat)
    requires 0 < tableSize && size < LIMIT
    requires AllStand(bytes, Directories(CountPos(wide), tableSize))
    ensures DataDirectory(ImageHeaders(wide, size), 1, bytes) == Some((BASE, tableSize))
  {
    DirectoriesHold(bytes, CountPos(wide), tableSize);
    HoldsIff(bytes, CountPos(wide) + 12, BASE, 4);
    HoldsIff(bytes, CountPos(wide) + 16, tableSize, 4);
  }

  lemma DirectoryFound(bytes: seq<byte>, wide: bool, tableSize: nat, size: nat)
    requires 0 < tableSize && 0 < size && BASE + size < LIMIT
    requires AllStand(bytes, Directories(CountPos(wide), tableSize))
    ensures DirectoryOffset(ImageHeaders(wide, size), bytes) == Some(BASE)
  {
    DirectoryRead(bytes, wide, tableSize, size);
    AddressMaps(wide, size, BASE);
  }

  // ----- the image -----

  /** The size of the section: the descriptor table and the blocks. */
  function BodySize(wide: bool, dlls: seq<Dll>): (n: nat)
    ensures n >= TableSize(dlls) >= 20
    decreases |dlls|
  {
    TableIsLong(dlls);
    BlocksEnd(wide, dlls, BASE + TableSize(dlls)) - BASE
  }

  lemma {:induction false} TableIsLong(dlls: seq<Dll>)
    ensures TableSize(dlls) >= 20
    decreases |dlls|
  {
    if dlls != [] {
      TableIsLong(dlls[1..]);
    }
  }

  function ImageLayout(wide: bool, dlls: seq<Dll>): (l: Layout)
  {
    var pos := BASE + TableSize(dlls);
    Both(HeaderLayout(wide, TableSize(dlls), BodySize(wide, dlls)), BASE,
         Both(Table(wide, dlls, BASE, pos), pos, Blocks(wide, dlls, pos)))
  }

  function Image(wide: bool, dlls: seq<Dll>): (bytes: seq<byte>)
  {
    Fill(BASE + BodySize(wide, dlls), ImageLayout(wide, dlls))
  }

  /** The lists that fit: names under 512 bytes without NUL, and all addresses below the ordinal flag. */
  predicate Writable(wide: bool, dlls: seq<Dll>) {
    BASE + BodySize(wide, dlls) < LIMIT && forall i :: 0 <= i < |dlls| ==> GoodDll(dlls[i])
  }

  /** Everything the image is made of stands in it. */
  lemma {:induction false} ImageStands(wide: bool, dlls: seq<Dll>)
    requires BASE + BodySize(wide, dlls) < LIMIT
    ensures AllStand(Image(wide, dlls), HeaderLayout(wide, TableSize(dlls), BodySize(wide, dlls)))
    ensures AllStand(Image(wide, dlls), Table(wide, dlls, BASE, BASE + TableSize(dlls)))
    ensures AllStand(Image(wide, dlls), Blocks(wide, dlls, BASE + TableSize(dlls)))
  {
    var size, pos := BodySize(wide, dlls), BASE + TableSize(dlls);
    var header := HeaderLayout(wide, TableSize(dlls), size);
    var table, blocks := Table(wide, dlls, BASE, pos), Blocks(wide, dlls, pos);
    HeaderWithin(wide, TableSize(dlls), size);
    TableWithin(wide, dlls, BASE, pos);
    BlocksWithin(wide, dlls, pos);
    ThreeWithin(header, BASE, table, pos, blocks, 0, BASE + size);
    FilledStands(Image(wide, dlls), ImageLayout(wide, dlls), 0, BASE + size);
    ThreeStand(Image(wide, dlls), header, BASE, table, pos, blocks);
  }

  /** The writer's image has these headers and, where they point, a directory laid out for the list. */
  lemma {:induction false} ImageIsLaid(wide: bool, dlls: seq<Dll>)
    requires Writable(wide, dlls)
    ensures var h := ImageHeaders(wide, BodySize(wide, dlls));
            && HeadersAt(Image(wide, dlls), 0x40, OptionalSize(wide), h)
            && DirectoryOffset(h, Image(wide, dlls)) == Some(BASE)
            && DirectoryLaid(h, Image(wide, dlls), BASE, dlls)
  {
    var bytes, size, pos := Image(wide, dlls), BodySize(wide, dlls), BASE + TableSize(dlls);
    ImageStands(wide, dlls);
    HeadersHeld(bytes, wide, TableSize(dlls), size);
    DirectoryFound(bytes, wide, TableSize(dlls), size);
    SectionMaps(wide, size);
    LayDirectory(ImageHeaders(wide, size), bytes, dlls, BASE, pos, BASE + size);
  }

  /**
   Parsing inverts writing: for every list of DLLs and imports, by name or ordinal, in 32 and 64 bits, whose
   names are under 512 bytes, the image parses and its imports are exactly the list, flattened in table
   order and lowercased, up to the caps.
   */
  lemma {:induction false} ImageRoundTrip(wide: bool, dlls: seq<Dll>)
    requires Writable(wide, dlls)
    ensures ParseHeaders(Image(wide, dlls)) == Ok(ImageHeaders(wide, BodySize(wide, dlls)))
    ensures var imports := ImportsOf(ImageHeaders(wide, BodySize(wide, dlls)), Image(wide, dlls));
            imports == Flatten(CappedDlls(dlls)) && Shows(imports, CappedDlls(dlls))
  {
    var h := ImageHeaders(wide, BodySize(wide, dlls));
    ImageIsLaid(wide, dlls);
    HeldIsParsed(Image(wide, dlls), 0x40, OptionalSize(wide), h);
    ImportsOfLaidDirectory(h, Image(wide, dlls), dlls);
    FlattenShows(CappedDlls(dlls));
  }
}
