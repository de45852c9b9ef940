/**
 The import-table walk (src/file/pe.rs, `parse_imports`, `walk_thunks`, `resolve_thunk32/64`),
 after the Microsoft PE Format specification, section "The .idata Section". Names are the bytes
 of the file: lossy UTF-8 decoding changes nothing on well-formed names.
 */
module PeImports {
  import opened Wrappers
  import opened Bytes
  import opened PeHeaders
  import opened Sequences
  import Decimal

  const CAP: nat := 4096

  datatype Import = Import(dll: seq<byte>, symbol: seq<byte>)

  function LowerByte(b: byte): (c: byte)
  {
    if 'A' as int <= b <= 'Z' as int then b + 32 else b
  }

  /** `to_ascii_lowercase` */
  function Lower(s: seq<byte>): (t: seq<byte>)
    ensures |t| == |s|
  {
    seq(|s|, i requires 0 <= i < |s| => LowerByte(s[i]))
  }

  function Ascii(s: string): (b: seq<byte>)
    ensures |b| == |s|
  {
    seq(|s|, i requires 0 <= i < |s| => if s[i] as int < 0x100 then s[i] as int else 0x3F)
  }

  /** `format!("ord{}", n)` */
  function OrdinalSymbol(n: nat): (s: seq<byte>)
  {
    Ascii("ord" + Decimal.Print(n))
  }

  // ----- NUL-terminated strings -----

  /** The first NUL among the `limit` bytes from `from` on, as a distance. */
  function FindNul(bytes: seq<byte>, from: nat, limit: nat): (r: Option<nat>)
    ensures r.Some? ==> r.value < limit && from + r.value < |bytes|
    decreases limit, bytes // with `bytes` named, a constant limit is not unrolled
  {
    if limit == 0 || from >= |bytes| then None
    else if bytes[from] == 0 then Some(0)
    else
      var r := FindNul(bytes, from + 1, limit - 1);
      if r.Some? then Some(r.value + 1) else None
  }

  lemma {:induction false} FindNulFinds(bytes: seq<byte>, from: nat, limit: nat)
    ensures var r := FindNul(bytes, from, limit);
            && (r.Some? ==>
                  && bytes[from + r.value] == 0
                  && forall i :: from <= i < from + r.value ==> bytes[i] != 0)
            && (r.None? ==> forall i :: from <= i < from + limit && i < |bytes| ==> bytes[i] != 0)
    decreases limit
  {
    if limit > 0 && from < |bytes| && bytes[from] != 0 {
      FindNulFinds(bytes, from + 1, limit - 1);
    }
  }

  function ReadCString(bytes: seq<byte>, offset: nat): (r: Option<seq<byte>>)
  {
    var end := FindNul(bytes, offset, 512);
    if end.Some? then Some(bytes[offset..offset + end.value]) else None
  }

  /** The bytes at `offset` are this string and its terminator. */
  predicate CStringAt(bytes: seq<byte>, offset: nat, s: seq<byte>) {
    && offset + |s| < |bytes|
    && bytes[offset..offset + |s|] == s
    && bytes[offset + |s|] == 0
    && 0 !in s
  }

  /** A string under 512 bytes is read exactly where it lies; nothing else is ever read. */
  lemma ReadCStringIff(bytes: seq<byte>, offset: nat, s: seq<byte>)
    ensures ReadCString(bytes, offset) == Some(s) <==> CStringAt(bytes, offset, s) && |s| < 512
  {
    var end := FindNul(bytes, offset, 512);
    FindNulFinds(bytes, offset, 512);
    if CStringAt(bytes, offset, s) && |s| < 512 {
      forall i | offset <= i < offset + |s|
        ensures bytes[i] != 0
      {
        assert bytes[i] == s[i - offset];
      }
      assert end == Some(|s|);
    }
  }

  // ----- thunks -----

  function ThunkSize(h: Headers): (n: nat)
  {
    if h.is64Bit then 8 else 4
  }

  function ThunkAt(h: Headers, bytes: seq<byte>, offset: nat): (r: Option<nat>)
    ensures r.Some? <==> offset + ThunkSize(h) <= |bytes|
    ensures r.Some? ==> r.value < if h.is64Bit then 0x1_0000_0000_0000_0000 else 0x1_0000_0000
  {
    if h.is64Bit then U64At(bytes, offset) else U32At(bytes, offset)
  }

  function OrdinalFlag(h: Headers): (n: nat)
  {
    if h.is64Bit then 0x8000_0000_0000_0000 else 0x8000_0000
  }

  /** `resolve_thunk32` and `resolve_thunk64`: the top bit marks an ordinal, else the thunk is an RVA. */
  function ResolveThunk(h: Headers, bytes: seq<byte>, thunk: nat): (r: Option<seq<byte>>)
  {
    if thunk >= OrdinalFlag(h) then Some(OrdinalSymbol(Low16(thunk)))
    else if thunk >= 0x1_0000_0000 then None
    else
      var offset :- RvaToOffset(h, thunk);
      var name :- ReadCString(bytes, offset + 2);
      Some(Lower(name))
  }

  /** What the thunk at `offset` appends; a missing or zero thunk ends the table. */
  function ThunkStep(h: Headers, bytes: seq<byte>, offset: nat, dll: seq<byte>): (r: Option<seq<Import>>)
  {
    var thunk := ThunkAt(h, bytes, offset);
    if thunk.None? || thunk.value == 0 then None
    else
      var symbol := ResolveThunk(h, bytes, thunk.value);
      Some(if symbol.Some? then [Import(dll, symbol.value)] else [])
  }

  /** What at most `rounds` thunks from `offset` on append. */
  function ThunksFrom(h: Headers, bytes: seq<byte>, offset: nat, dll: seq<byte>, rounds: nat): (r: seq<Import>)
    decreases rounds, bytes
  {
    if rounds == 0 then []
    else
      var step := ThunkStep(h, bytes, offset, dll);
      if step.None? then [] else step.value + ThunksFrom(h, bytes, offset + ThunkSize(h), dll, rounds - 1)
  }

  /** With `done` found, the thunks from `offset` on complete it to `all`. */
  ghost predicate Completes(
    h: Headers, bytes: seq<byte>, offset: nat, dll: seq<byte>, rounds: nat, done: seq<Import>, all: seq<Import>)
    decreases rounds, bytes
  {
    if rounds == 0 then done == all
    else
      var step := ThunkStep(h, bytes, offset, dll);
      if step.None? then done == all
      else Completes(h, bytes, offset + ThunkSize(h), dll, rounds - 1, done + step.value, all)
  }

  lemma {:induction false} CompletesIff(
    h: Headers, bytes: seq<byte>, offset: nat, dll: seq<byte>, rounds: nat, done: seq<Import>, all: seq<Import>)
    ensures Completes(h, bytes, offset, dll, rounds, done, all)
            <==> done + ThunksFrom(h, bytes, offset, dll, rounds) == all
    decreases rounds
  {
    var step := ThunkStep(h, bytes, offset, dll);
    if rounds == 0 || step.None? {
      EmptyRight(done);
    } else {
      CompletesIff(h, bytes, offset + ThunkSize(h), dll, rounds - 1, done + step.value, all);
      ConcatAssoc(done, step.value, ThunksFrom(h, bytes, offset + ThunkSize(h), dll, rounds - 1));
    }
  }

  /** One round of the thunk loop; false at the end of the table. */
  method WalkThunk(h: Headers, bytes: seq<byte>, offset: nat, dll: seq<byte>, out: seq<Import>)
    returns (more: bool, r: seq<Import>)
    ensures more <==> ThunkStep(h, bytes, offset, dll).Some?
    ensures r == if more then out + ThunkStep(h, bytes, offset, dll).value else out
  {
    var thunk := ThunkAt(h, bytes, offset);
    if thunk.None? || thunk.value == 0 {
      return false, out;
    }
    var symbol := ResolveThunk(h, bytes, thunk.value);
    if symbol.None? {
      EmptyRight(out);
      return true, out;
    }
    return true, out + [Import(dll, symbol.value)];
  }

  /** The same, in terms of what is left to find. */
  method WalkOn(h: Headers, bytes: seq<byte>, offset: nat, dll: seq<byte>, out: seq<Import>,
                ghost rounds: nat, ghost all: seq<Import>)
    returns (more: bool, r: seq<Import>, next: nat)
    requires rounds > 0 && Completes(h, bytes, offset, dll, rounds, out, all)
    ensures !more ==> r == all
    ensures more ==> Completes(h, bytes, next, dll, rounds - 1, r, all)
  {
    more, r := WalkThunk(h, bytes, offset, dll, out);
    next := offset + ThunkSize(h);
  }

  /** `walk_thunks` */
  method WalkThunks(h: Headers, bytes: seq<byte>, start: nat, dll: seq<byte>, out: seq<Import>)
    returns (r: seq<Import>)
    ensures r == out + ThunksFrom(h, bytes, start, dll, CAP)
  {
    ghost var all := out + ThunksFrom(h, bytes, start, dll, CAP);
    CompletesIff(h, bytes, start, dll, CAP, out, all);
    r := WalkRounds(h, bytes, start, dll, out, all);
  }

  /** Its loop. */
  method WalkRounds(h: Headers, bytes: seq<byte>, start: nat, dll: seq<byte>, out: seq<Import>, ghost all: seq<Import>)
    returns (r: seq<Import>)
    requires Completes(h, bytes, start, dll, CAP, out, all)
    ensures r == all
  {
    r := out;
    var offset: nat := start;
    var rounds := CAP;
    while rounds > 0
      invariant Completes(h, bytes, offset, dll, rounds, r, all)
    {
      var more;
      more, r, offset := WalkOn(h, bytes, offset, dll, r, rounds, all);
      if !more {
        return;
      }
      rounds := rounds - 1;
    }
  }

  // ----- descriptors -----

  datatype Descriptor = Descriptor(originalFirstThunk: u32, nameRva: u32, firstThunk: u32)

  function DescriptorAt(bytes: seq<byte>, offset: nat): (r: Option<Descriptor>)
    ensures r.Some? <==> offset + 20 <= |bytes|
  {
    var o := U32At(bytes, offset);
    var n := U32At(bytes, offset + 12);
    var f := U32At(bytes, offset + 16);
    if o.Some? && n.Some? && f.Some? then Some(Descriptor(o.value, n.value, f.value)) else None
  }

  const TERMINATOR := Descriptor(0, 0, 0)

  /** Where a descriptor's thunks are: the lookup table, or the address table if there is none. */
  function ThunkTable(h: Headers, d: Descriptor): (r: Option<u32>)
  {
    RvaToOffset(h, if d.originalFirstThunk != 0 then d.originalFirstThunk else d.firstThunk)
  }

  function DllName(h: Headers, bytes: seq<byte>, d: Descriptor): (r: Option<seq<byte>>)
  {
    var offset :- RvaToOffset(h, d.nameRva);
    ReadCString(bytes, offset)
  }

  /** What one descriptor contributes: nothing when its name or its thunk table cannot be found. */
  function Contribution(h: Headers, bytes: seq<byte>, d: Descriptor): (r: seq<Import>)
  {
    var dll := DllName(h, bytes, d);
    var thunks := ThunkTable(h, d);
    if dll.Some? && thunks.Some? then ThunksFrom(h, bytes, thunks.value, Lower(dll.value), CAP) else []
  }

  /** The descriptors from `offset` on, at most `rounds` of them, up to the one that is all zero or missing. */
  function DescriptorsFrom(bytes: seq<byte>, offset: nat, rounds: nat): (r: seq<Descriptor>)
    decreases rounds, bytes
  {
    if rounds == 0 then []
    else
      var d := DescriptorAt(bytes, offset);
      if d.None? || d.value == TERMINATOR then [] else [d.value] + DescriptorsFrom(bytes, offset + 20, rounds - 1)
  }

  /** What each descriptor contributes. */
  function Parts(h: Headers, bytes: seq<byte>, ds: seq<Descriptor>): (parts: seq<seq<Import>>)
    ensures |parts| == |ds| && forall i :: 0 <= i < |ds| ==> parts[i] == Contribution(h, bytes, ds[i])
  {
    seq(|ds|, i requires 0 <= i < |ds| => Contribution(h, bytes, ds[i]))
  }

  function Concat(parts: seq<seq<Import>>): (r: seq<Import>)
  {
    if parts == [] then [] else parts[0] + Concat(parts[1..])
  }

  /** What the descriptors contribute, in table order. */
  function Contributions(h: Headers, bytes: seq<byte>, ds: seq<Descriptor>): (r: seq<Import>)
  {
    Concat(Parts(h, bytes, ds))
  }

  /** Where the import directory starts in the file. */
  function DirectoryOffset(h: Headers, bytes: seq<byte>): (r: Option<u32>)
  {
    var directory :- DataDirectory(h, 1, bytes);
    RvaToOffset(h, directory.0)
  }

  function ImportsOf(h: Headers, bytes: seq<byte>): (r: seq<Import>)
  {
    var start := DirectoryOffset(h, bytes);
    if start.None? then [] else Contributions(h, bytes, DescriptorsFrom(bytes, start.value, CAP))
  }

  /**
   `parse_imports`: no imports where no directory is found; where one is laid out for a list of DLLs, that
   list, flattened in table order and lowercased, up to the caps.
   */
  method ParseImports(h: Headers, bytes: seq<byte>) returns (imports: seq<Import>)
    ensures imports == ImportsOf(h, bytes)
    ensures DirectoryOffset(h, bytes).None? ==> imports == []
    ensures DirectoryOffset(h, bytes).Some? ==>
              && (exists dlls :: DirectoryLaid(h, bytes, DirectoryOffset(h, bytes).value, dlls))
              && forall dlls :: DirectoryLaid(h, bytes, DirectoryOffset(h, bytes).value, dlls) ==>
                   imports == Flatten(CappedDlls(dlls)) && Shows(imports, CappedDlls(dlls))
  {
    LaidIsParsed(h, bytes);
    imports := [];
    var start := DirectoryOffset(h, bytes);
    if start.None? {
      return;
    }
    imports := WalkTable(h, bytes, start.value);
  }

  lemma DescriptorsNext(bytes: seq<byte>, offset: nat, rounds: nat, seen: seq<Descriptor>, all: seq<Descriptor>)
    requires rounds > 0 && seen + DescriptorsFrom(bytes, offset, rounds) == all
    ensures var d := DescriptorAt(bytes, offset);
            if d.None? || d.value == TERMINATOR then seen == all
            else (seen + [d.value]) + DescriptorsFrom(bytes, offset + 20, rounds - 1) == all
  {
    var d := DescriptorAt(bytes, offset);
    if d.None? || d.value == TERMINATOR {
      EmptyRight(seen);
    } else {
      ConcatAssoc(seen, [d.value], DescriptorsFrom(bytes, offset + 20, rounds - 1));
    }
  }

  lemma {:induction false} ConcatSnoc(parts: seq<seq<Import>>, part: seq<Import>)
    ensures Concat(parts + [part]) == Concat(parts) + part
    decreases |parts|
  {
    if parts == [] {
      assert (parts + [part])[1..] == [];
      EmptyLeft(part);
      EmptyRight(part);
    } else {
      ConcatSnoc(parts[1..], part);
      assert (parts + [part])[1..] == parts[1..] + [part];
      ConcatAssoc(parts[0], Concat(parts[1..]), part);
    }
  }

  lemma ContributionsSnoc(h: Headers, bytes: seq<byte>, ds: seq<Descriptor>, d: Descriptor)
    ensures Contributions(h, bytes, ds + [d]) == Contributions(h, bytes, ds) + Contribution(h, bytes, d)
  {
    assert Parts(h, bytes, ds + [d]) == Parts(h, bytes, ds) + [Contribution(h, bytes, d)];
    ConcatSnoc(Parts(h, bytes, ds), Contribution(h, bytes, d));
  }

  lemma ContributionsHead(h: Headers, bytes: seq<byte>, ds: seq<Descriptor>)
    requires ds != []
    ensures Contributions(h, bytes, ds) == Contribution(h, bytes, ds[0]) + Contributions(h, bytes, ds[1..])
  {
    assert Parts(h, bytes, ds)[1..] == Parts(h, bytes, ds[1..]);
  }

  /** The descriptor loop of `parse_imports`. */
  method WalkTable(h: Headers, bytes: seq<byte>, start: nat) returns (imports: seq<Import>)
    ensures imports == Contributions(h, bytes, DescriptorsFrom(bytes, start, CAP))
  {
    imports := [];
    var offset: nat := start;
    var rounds := CAP;
    ghost var seen: seq<Descriptor> := [];
    ghost var all := DescriptorsFrom(bytes, start, CAP);
    EmptyLeft(all);
    while rounds > 0
      invariant seen + DescriptorsFrom(bytes, offset, rounds) == all
      invariant imports == Contributions(h, bytes, seen)
    {
      DescriptorsNext(bytes, offset, rounds, seen, all);
      var d := DescriptorAt(bytes, offset);
      if d.None? || d.value == TERMINATOR {
        return;
      }
      ContributionsSnoc(h, bytes, seen, d.value);
      imports := AppendImports(h, bytes, d.value, imports);
      seen := seen + [d.value];
      offset := offset + 20;
      rounds := rounds - 1;
    }
    EmptyRight(seen);
  }

  /** The rest of the loop body: an unreadable name or thunk table skips the descriptor. */
  method AppendImports(h: Headers, bytes: seq<byte>, d: Descriptor, imports: seq<Import>) returns (r: seq<Import>)
    ensures r == imports + Contribution(h, bytes, d)
  {
    var dll := DllName(h, bytes, d);
    var thunkOffset := ThunkTable(h, d);
    if dll.None? || thunkOffset.None? {
      EmptyRight(imports);
      return imports;
    }
    r := WalkThunks(h, bytes, thunkOffset.value, Lower(dll.value), imports);
  }

  // ----- what an import directory says -----

  /** What a thunk says: an import by name or ordinal, or nothing where it leads to no name. */
  datatype Symbol = ByName(name: seq<byte>) | ByOrdinal(ordinal: u16) | Unresolved

  /** A descriptor's name and thunks; a descriptor that leads to no name or no thunks has neither. */
  datatype Dll = Dll(name: seq<byte>, symbols: seq<Symbol>)

  const UNREADABLE := Dll([], [])

  function Flat(d: Dll): (r: seq<Import>)
    decreases |d.symbols|
  {
    if d.symbols == [] then []
    else Shown(d.name, d.symbols[0]) + Flat(Dll(d.name, d.symbols[1..]))
  }

  function Shown(name: seq<byte>, s: Symbol): (r: seq<Import>)
  {
    if s.Unresolved? then [] else [Import(Lower(name), SymbolText(s))]
  }

  function SymbolText(s: Symbol): (t: seq<byte>)
    requires !s.Unresolved?
  {
    match s
    case ByName(name) => Lower(name)
    case ByOrdinal(n) => OrdinalSymbol(n)
  }

  /** All imports in table order. */
  function Flatten(dlls: seq<Dll>): (r: seq<Import>)
  {
    if dlls == [] then [] else Flat(dlls[0]) + Flatten(dlls[1..])
  }

  /** A string under 512 bytes at this address. */
  ghost predicate NamedAt(h: Headers, bytes: seq<byte>, rva: u32, skip: nat, name: seq<byte>) {
    && RvaToOffset(h, rva).Some?
    && CStringAt(bytes, RvaToOffset(h, rva).value + skip, name)
    && |name| < 512
  }

  /** A thunk of this value stands for this symbol; a name lies behind two bytes of hint. */
  ghost predicate ThunkMeans(h: Headers, bytes: seq<byte>, thunk: nat, s: Symbol) {
    var flag := if h.is64Bit then 0x8000_0000_0000_0000 else 0x8000_0000;
    match s
    case ByOrdinal(n) => thunk >= flag && thunk % 0x1_0000 == n
    case ByName(name) => 0 < thunk < flag && thunk < 0x1_0000_0000 && NamedAt(h, bytes, thunk, 2, name)
    case Unresolved =>
      && 0 < thunk < flag
      && (thunk < 0x1_0000_0000 ==> forall name :: !NamedAt(h, bytes, thunk, 2, name))
  }

  /** The bytes at `offset` are a thunk for this symbol. */
  ghost predicate ThunkLaid(h: Headers, bytes: seq<byte>, offset: nat, s: Symbol) {
    exists thunk: nat :: Holds(bytes, offset, thunk, ThunkSize(h)) && ThunkMeans(h, bytes, thunk, s)
  }

  /** A thunk table: one thunk per symbol, then a zero thunk or the end of the file. */
  ghost predicate ThunksLaid(h: Headers, bytes: seq<byte>, start: nat, symbols: seq<Symbol>)
    decreases |symbols|
  {
    if symbols == [] then start + ThunkSize(h) > |bytes| || Holds(bytes, start, 0, ThunkSize(h))
    else ThunkLaid(h, bytes, start, symbols[0]) && ThunksLaid(h, bytes, start + ThunkSize(h), symbols[1..])
  }

  /** The bytes at `offset` are this descriptor. */
  ghost predicate DescriptorHolds(bytes: seq<byte>, offset: nat, d: Descriptor) {
    && Holds(bytes, offset, d.originalFirstThunk, 4)
    && Holds(bytes, offset + 12, d.nameRva, 4)
    && Holds(bytes, offset + 16, d.firstThunk, 4)
  }

  /** Where the thunks are: the lookup table, or the address table if there is none. */
  function ThunksRva(d: Descriptor): (rva: u32)
  {
    if d.originalFirstThunk == 0 then d.firstThunk else d.originalFirstThunk
  }

  /** The descriptor names the DLL and leads to its thunk table; one that does not has nothing to say. */
  ghost predicate DescriptorMeans(h: Headers, bytes: seq<byte>, d: Descriptor, dll: Dll) {
    || (&& NamedAt(h, bytes, d.nameRva, 0, dll.name)
        && RvaToOffset(h, ThunksRva(d)).Some?
        && ThunksLaid(h, bytes, RvaToOffset(h, ThunksRva(d)).value, dll.symbols))
    || (&& dll == UNREADABLE && d != Descriptor(0, 0, 0)
        && ((forall name :: !NamedAt(h, bytes, d.nameRva, 0, name)) || RvaToOffset(h, ThunksRva(d)).None?))
  }

  ghost predicate DllLaid(h: Headers, bytes: seq<byte>, offset: nat, dll: Dll) {
    exists d :: DescriptorHolds(bytes, offset, d) && DescriptorMeans(h, bytes, d, dll)
  }

  /** A descriptor table: one descriptor per DLL, then an all-zero one or the end of the file. */
  ghost predicate DirectoryLaid(h: Headers, bytes: seq<byte>, start: nat, dlls: seq<Dll>)
    decreases |dlls|
  {
    if dlls == [] then start + 20 > |bytes| || DescriptorHolds(bytes, start, Descriptor(0, 0, 0))
    else DllLaid(h, bytes, start, dlls[0]) && DirectoryLaid(h, bytes, start + 20, dlls[1..])
  }

  lemma ThunkIsRead(h: Headers, bytes: seq<byte>, offset: nat, thunk: nat)
    requires Holds(bytes, offset, thunk, ThunkSize(h))
    ensures ThunkAt(h, bytes, offset) == Some(thunk)
  {
    HoldsIff(bytes, offset, thunk, ThunkSize(h));
  }

  lemma DescriptorIsRead(bytes: seq<byte>, offset: nat, d: Descriptor)
    requires DescriptorHolds(bytes, offset, d)
    ensures DescriptorAt(bytes, offset) == Some(d)
  {
    HoldsIff(bytes, offset, d.originalFirstThunk, 4);
    HoldsIff(bytes, offset + 12, d.nameRva, 4);
    HoldsIff(bytes, offset + 16, d.firstThunk, 4);
  }

  /** The first n, or all if there are fewer. */
  function FirstOf<T>(s: seq<T>, n: nat): (t: seq<T>)
    ensures |t| == if |s| <= n then |s| else n
    decreases n, s
  {
    if s == [] || n == 0 then [] else [s[0]] + FirstOf(s[1..], n - 1)
  }

  lemma {:induction false} FirstOfFew<T>(s: seq<T>, n: nat)
    requires |s| <= n
    ensures FirstOf(s, n) == s
    decreases |s|
  {
    if s != [] {
      FirstOfFew(s[1..], n - 1);
    }
  }

  /** What is read at an address is the string that lies there, if one does. */
  lemma NamedIff(h: Headers, bytes: seq<byte>, rva: u32, skip: nat)
    ensures RvaToOffset(h, rva).None? ==> forall name :: !NamedAt(h, bytes, rva, skip, name)
    ensures RvaToOffset(h, rva).Some? ==>
              var read := ReadCString(bytes, RvaToOffset(h, rva).value + skip);
              forall name :: NamedAt(h, bytes, rva, skip, name) <==> read == Some(name)
  {
    if RvaToOffset(h, rva).Some? {
      var at := RvaToOffset(h, rva).value + skip;
      forall name ensures NamedAt(h, bytes, rva, skip, name) <==> ReadCString(bytes, at) == Some(name) {
        ReadCStringIff(bytes, at, name);
      }
    }
  }

  lemma ResolveLaid(h: Headers, bytes: seq<byte>, thunk: nat, s: Symbol)
    requires ThunkMeans(h, bytes, thunk, s)
    ensures thunk != 0 && ResolveThunk(h, bytes, thunk) == if s.Unresolved? then None else Some(SymbolText(s))
  {
    Low16IsRemainder(thunk);
    if !s.ByOrdinal? && thunk < 0x1_0000_0000 {
      NamedIff(h, bytes, thunk, 2);
    }
  }

  lemma StepLaid(h: Headers, bytes: seq<byte>, offset: nat, name: seq<byte>, s: Symbol)
    requires ThunkLaid(h, bytes, offset, s)
    ensures ThunkStep(h, bytes, offset, Lower(name)) == Some(Shown(name, s))
  {
    var thunk: nat :| Holds(bytes, offset, thunk, ThunkSize(h)) && ThunkMeans(h, bytes, thunk, s);
    ThunkIsRead(h, bytes, offset, thunk);
    ResolveLaid(h, bytes, thunk, s);
  }

  /** The walk never looks past 4096 thunks of one descriptor. */
  function CappedDll(d: Dll): (r: Dll)
  {
    Dll(d.name, FirstOf(d.symbols, CAP))
  }

  lemma FlatCons(name: seq<byte>, s: Symbol, symbols: seq<Symbol>)
    ensures Flat(Dll(name, [s] + symbols)) == Shown(name, s) + Flat(Dll(name, symbols))
  {
    assert ([s] + symbols)[1..] == symbols;
  }

  lemma {:induction false} WalkFirst(h: Headers, bytes: seq<byte>, start: nat, name: seq<byte>, s: Symbol,
                                     others: seq<Symbol>, rounds: nat)
    requires rounds > 0 && ThunkLaid(h, bytes, start, s)
    requires ThunksFrom(h, bytes, start + ThunkSize(h), Lower(name), rounds - 1) == Flat(Dll(name, others))
    ensures ThunksFrom(h, bytes, start, Lower(name), rounds) == Flat(Dll(name, [s] + others))
  {
    StepLaid(h, bytes, start, name, s);
    FlatCons(name, s, others);
  }

  lemma {:induction false} WalkNone(h: Headers, bytes: seq<byte>, start: nat, dll: seq<byte>, rounds: nat)
    requires rounds == 0 || ThunksLaid(h, bytes, start, [])
    ensures ThunksFrom(h, bytes, start, dll, rounds) == []
  {
    if rounds > 0 && start + ThunkSize(h) <= |bytes| {
      ThunkIsRead(h, bytes, start, 0);
    }
  }

  /** The thunk walk over a laid-out table yields its symbols in order, as many as the rounds allow. */
  lemma {:induction false} WalkLaid(h: Headers, bytes: seq<byte>, start: nat, name: seq<byte>,
                                    symbols: seq<Symbol>, rounds: nat)
    requires ThunksLaid(h, bytes, start, symbols)
    ensures ThunksFrom(h, bytes, start, Lower(name), rounds) == Flat(Dll(name, FirstOf(symbols, rounds)))
    decreases |symbols|
  {
    if symbols != [] && rounds > 0 {
      WalkLaid(h, bytes, start + ThunkSize(h), name, symbols[1..], rounds - 1);
      WalkFirst(h, bytes, start, name, symbols[0], FirstOf(symbols[1..], rounds - 1), rounds);
    } else {
      WalkNone(h, bytes, start, Lower(name), rounds);
    }
  }

  lemma DescriptorLaid(h: Headers, bytes: seq<byte>, d: Descriptor, dll: Dll)
    requires DescriptorMeans(h, bytes, d, dll)
    ensures d != TERMINATOR && Contribution(h, bytes, d) == Flat(CappedDll(dll))
  {
    NamedIff(h, bytes, d.nameRva, 0);
    if DllName(h, bytes, d).Some? && ThunkTable(h, d).Some? {
      WalkLaid(h, bytes, ThunkTable(h, d).value, dll.name, dll.symbols, CAP);
    }
  }

  /** Each DLL with its first 4096 symbols. */
  function CapEach(dlls: seq<Dll>): (r: seq<Dll>)
    ensures |r| == |dlls| && forall i :: 0 <= i < |dlls| ==> r[i] == CappedDll(dlls[i])
  {
    seq(|dlls|, i requires 0 <= i < |dlls| => CappedDll(dlls[i]))
  }

  function CappedDlls(dlls: seq<Dll>): (r: seq<Dll>)
    ensures |r| <= CAP
  {
    CapEach(FirstOf(dlls, CAP))
  }

  /** These descriptors stand one after the other from `start` on, none of them all zero, then one that is. */
  ghost predicate TableIs(bytes: seq<byte>, start: nat, ds: seq<Descriptor>)
    decreases |ds|
  {
    if ds == [] then DescriptorAt(bytes, start) in {None, Some(TERMINATOR)}
    else DescriptorAt(bytes, start) == Some(ds[0]) && ds[0] != TERMINATOR && TableIs(bytes, start + 20, ds[1..])
  }

  lemma {:induction false} TableIsRead(bytes: seq<byte>, start: nat, ds: seq<Descriptor>, rounds: nat)
    requires TableIs(bytes, start, ds)
    ensures DescriptorsFrom(bytes, start, rounds) == FirstOf(ds, rounds)
    decreases |ds|
  {
    if ds != [] && rounds > 0 {
      TableIsRead(bytes, start + 20, ds[1..], rounds - 1);
    }
  }

  /** What a descriptor contributes is what the DLL should. */
  ghost predicate Contributes(h: Headers, bytes: seq<byte>, d: Descriptor, dll: Dll) {
    Contribution(h, bytes, d) == Flat(CappedDll(dll))
  }

  ghost predicate AllContribute(h: Headers, bytes: seq<byte>, ds: seq<Descriptor>, dlls: seq<Dll>) {
    |ds| == |dlls| && forall i :: 0 <= i < |ds| ==> Contributes(h, bytes, ds[i], dlls[i])
  }

  lemma {:induction false} LaidDescriptors(h: Headers, bytes: seq<byte>, start: nat, dlls: seq<Dll>)
    returns (ds: seq<Descriptor>)
    requires DirectoryLaid(h, bytes, start, dlls)
    ensures TableIs(bytes, start, ds) && AllContribute(h, bytes, ds, dlls)
    decreases |dlls|
  {
    ds := [];
    if dlls == [] {
      if start + 20 <= |bytes| {
        DescriptorIsRead(bytes, start, TERMINATOR);
      }
    } else {
      var d := LaidDescriptor(h, bytes, start, dlls[0]);
      var rest := LaidDescriptors(h, bytes, start + 20, dlls[1..]);
      ds := [d] + rest;
      TableCons(bytes, start, d, rest);
      ContributeCons(h, bytes, d, rest, dlls);
    }
  }

  lemma LaidDescriptor(h: Headers, bytes: seq<byte>, offset: nat, dll: Dll) returns (d: Descriptor)
    requires DllLaid(h, bytes, offset, dll)
    ensures DescriptorAt(bytes, offset) == Some(d) && d != TERMINATOR && Contributes(h, bytes, d, dll)
  {
    d :| DescriptorHolds(bytes, offset, d) && DescriptorMeans(h, bytes, d, dll);
    DescriptorIsRead(bytes, offset, d);
    DescriptorLaid(h, bytes, d, dll);
  }

  lemma TableCons(bytes: seq<byte>, start: nat, d: Descriptor, rest: seq<Descriptor>)
    requires DescriptorAt(bytes, start) == Some(d) && d != TERMINATOR && TableIs(bytes, start + 20, rest)
    ensures TableIs(bytes, start, [d] + rest)
  {
    assert ([d] + rest)[1..] == rest;
  }

  lemma ContributeCons(h: Headers, bytes: seq<byte>, d: Descriptor, rest: seq<Descriptor>, dlls: seq<Dll>)
    requires dlls != [] && Contributes(h, bytes, d, dlls[0]) && AllContribute(h, bytes, rest, dlls[1..])
    ensures AllContribute(h, bytes, [d] + rest, dlls)
  {
    var ds := [d] + rest;
    forall i | 0 <= i < |ds| ensures Contributes(h, bytes, ds[i], dlls[i]) {
      assert i > 0 ==> Contributes(h, bytes, rest[i - 1], dlls[1..][i - 1]);
    }
  }

  /** What the DLLs should contribute, one after the other. */
  lemma {:induction false} FlattenIsConcat(dlls: seq<Dll>, parts: seq<seq<Import>>)
    requires |parts| == |dlls| && forall i :: 0 <= i < |dlls| ==> parts[i] == Flat(dlls[i])
    ensures Flatten(dlls) == Concat(parts)
    decreases |dlls|
  {
    if dlls != [] {
      FlattenIsConcat(dlls[1..], parts[1..]);
    }
  }

  lemma {:induction false} FirstContribute(h: Headers, bytes: seq<byte>, ds: seq<Descriptor>, dlls: seq<Dll>, n: nat)
    requires AllContribute(h, bytes, ds, dlls)
    ensures AllContribute(h, bytes, FirstOf(ds, n), FirstOf(dlls, n))
  {
    FirstOfAt(ds, n);
    FirstOfAt(dlls, n);
    var first, others := FirstOf(ds, n), FirstOf(dlls, n);
    forall i | 0 <= i < |first| ensures Contributes(h, bytes, first[i], others[i]) {
      assert Contributes(h, bytes, ds[i], dlls[i]);
    }
  }

  lemma {:induction false} FirstOfAt<T>(s: seq<T>, n: nat)
    ensures forall i :: 0 <= i < |FirstOf(s, n)| ==> FirstOf(s, n)[i] == s[i]
    decreases n
  {
    if s != [] && n > 0 {
      FirstOfAt(s[1..], n - 1);
    }
  }

  /** Descriptors that contribute what the DLLs should, together contribute what they should together. */
  lemma ContributeTogether(h: Headers, bytes: seq<byte>, ds: seq<Descriptor>, dlls: seq<Dll>)
    requires AllContribute(h, bytes, ds, dlls)
    ensures Contributions(h, bytes, ds) == Flatten(CapEach(dlls))
  {
    var parts := Parts(h, bytes, ds);
    forall i | 0 <= i < |dlls| ensures parts[i] == Flat(CapEach(dlls)[i]) {
      assert Contributes(h, bytes, ds[i], dlls[i]);
    }
    FlattenIsConcat(CapEach(dlls), parts);
  }

  /**
   For every list of DLLs and imports laid out as an import directory, `parse_imports` returns
   exactly the flattened list in table order, lowercased; past 4096 descriptors, or 4096 thunks of
   one of them, the rest is cut off.
   */
  lemma {:induction false} ImportsOfLaidDirectory(h: Headers, bytes: seq<byte>, dlls: seq<Dll>)
    requires DirectoryOffset(h, bytes).Some?
    requires DirectoryLaid(h, bytes, DirectoryOffset(h, bytes).value, dlls)
    ensures ImportsOf(h, bytes) == Flatten(CappedDlls(dlls))
  {
    var start: nat := DirectoryOffset(h, bytes).value;
    var ds := LaidDescriptors(h, bytes, start, dlls);
    TableIsRead(bytes, start, ds, CAP);
    FirstContribute(h, bytes, ds, dlls, CAP);
    ContributeTogether(h, bytes, FirstOf(ds, CAP), FirstOf(dlls, CAP));
  }

  lemma LaidIsParsed(h: Headers, bytes: seq<byte>)
    ensures DirectoryOffset(h, bytes).Some? ==>
              && (exists dlls :: DirectoryLaid(h, bytes, DirectoryOffset(h, bytes).value, dlls))
              && forall dlls :: DirectoryLaid(h, bytes, DirectoryOffset(h, bytes).value, dlls) ==>
                   ImportsOf(h, bytes) == Flatten(CappedDlls(dlls)) && Shows(ImportsOf(h, bytes), CappedDlls(dlls))
  {
    if DirectoryOffset(h, bytes).Some? {
      var some := EveryDirectoryIsLaid(h, bytes, DirectoryOffset(h, bytes).value);
      forall dlls | DirectoryLaid(h, bytes, DirectoryOffset(h, bytes).value, dlls)
        ensures ImportsOf(h, bytes) == Flatten(CappedDlls(dlls)) && Shows(ImportsOf(h, bytes), CappedDlls(dlls))
      {
        ImportsOfLaidDirectory(h, bytes, dlls);
        FlattenShows(CappedDlls(dlls));
      }
    }
  }

  // ----- every image has such a directory -----

  lemma ThunkHasMeaning(h: Headers, bytes: seq<byte>, thunk: nat) returns (s: Symbol)
    requires 0 < thunk
    ensures ThunkMeans(h, bytes, thunk, s)
  {
    var flag := if h.is64Bit then 0x8000_0000_0000_0000 else 0x8000_0000;
    if thunk >= flag {
      s := ByOrdinal(thunk % 0x1_0000);
    } else if thunk >= 0x1_0000_0000 {
      s := Unresolved;
    } else if name :| NamedAt(h, bytes, thunk, 2, name) {
      s := ByName(name);
    } else {
      s := Unresolved;
    }
  }

  lemma {:induction false} EveryTableIsLaid(h: Headers, bytes: seq<byte>, start: nat) returns (symbols: seq<Symbol>)
    ensures ThunksLaid(h, bytes, start, symbols)
    decreases |bytes| - start
  {
    symbols := [];
    var thunk := ThunkAt(h, bytes, start);
    if thunk.Some? {
      HoldsIff(bytes, start, thunk.value, ThunkSize(h));
      if thunk.value != 0 {
        var s := ThunkHasMeaning(h, bytes, thunk.value);
        var rest := EveryTableIsLaid(h, bytes, start + ThunkSize(h));
        symbols := [s] + rest;
        assert symbols[1..] == rest;
      }
    }
  }

  lemma DescriptorHasMeaning(h: Headers, bytes: seq<byte>, d: Descriptor) returns (dll: Dll)
    requires d != Descriptor(0, 0, 0)
    ensures DescriptorMeans(h, bytes, d, dll)
  {
    dll := UNREADABLE;
    if RvaToOffset(h, ThunksRva(d)).Some? {
      if name :| NamedAt(h, bytes, d.nameRva, 0, name) {
        var symbols := EveryTableIsLaid(h, bytes, RvaToOffset(h, ThunksRva(d)).value);
        dll := Dll(name, symbols);
      }
    }
  }

  /** Any bytes from any place on are the descriptor table of some list. */
  lemma {:induction false} EveryDirectoryIsLaid(h: Headers, bytes: seq<byte>, start: nat) returns (dlls: seq<Dll>)
    ensures DirectoryLaid(h, bytes, start, dlls)
    decreases |bytes| - start
  {
    dlls := [];
    var d := DescriptorAt(bytes, start);
    if d.Some? {
      DescriptorIsHeld(bytes, start, d.value);
      if d.value != Descriptor(0, 0, 0) {
        var dll := DescriptorHasMeaning(h, bytes, d.value);
        var rest := EveryDirectoryIsLaid(h, bytes, start + 20);
        dlls := [dll] + rest;
        assert DllLaid(h, bytes, start, dll) && dlls[1..] == rest;
      }
    }
  }

  lemma DescriptorIsHeld(bytes: seq<byte>, offset: nat, d: Descriptor)
    requires DescriptorAt(bytes, offset) == Some(d)
    ensures DescriptorHolds(bytes, offset, d)
  {
    HoldsIff(bytes, offset, d.originalFirstThunk, 4);
    HoldsIff(bytes, offset + 12, d.nameRva, 4);
    HoldsIff(bytes, offset + 16, d.firstThunk, 4);
  }

  /** So for every image with a directory, the imports are what the bytes there say, up to the caps. */
  lemma {:induction false} ImportsOfEveryImage(h: Headers, bytes: seq<byte>) returns (dlls: seq<Dll>)
    requires DirectoryOffset(h, bytes).Some?
    ensures DirectoryLaid(h, bytes, DirectoryOffset(h, bytes).value, dlls)
    ensures ImportsOf(h, bytes) == Flatten(CappedDlls(dlls))
  {
    dlls := EveryDirectoryIsLaid(h, bytes, DirectoryOffset(h, bytes).value);
    ImportsOfLaidDirectory(h, bytes, dlls);
  }

  // ----- the texts, byte by byte -----

  /** ASCII capitals have moved by 32, everything else is as it was. */
  ghost predicate LoweredBytes(name: seq<byte>, shown: seq<byte>) {
    |shown| == |name|
    && forall i :: 0 <= i < |name| ==> shown[i] == if 0x41 <= name[i] <= 0x5A then name[i] + 32 else name[i]
  }

  /** The value of a string of digits. */
  function DigitsValue(s: seq<byte>): (n: int)
  {
    if s == [] then 0 else 10 * DigitsValue(s[..|s| - 1]) + (s[|s| - 1] as int - 0x30)
  }

  /** "ord" and the number, in decimal digits without a leading zero. */
  ghost predicate OrdinalBytes(n: u16, shown: seq<byte>) {
    && |shown| >= 4 && shown[0] == 0x6F && shown[1] == 0x72 && shown[2] == 0x64
    && (forall i :: 3 <= i < |shown| ==> 0x30 <= shown[i] <= 0x39)
    && (|shown| > 4 ==> shown[3] != 0x30)
    && DigitsValue(shown[3..]) == n
  }

  /** The imports, one after the other, of the named symbols of one DLL. */
  ghost predicate Shows(imports: seq<Import>, dlls: seq<Dll>)
    decreases |dlls|
  {
    if dlls == [] then imports == []
    else exists k :: 0 <= k <= |imports| && ShowsDll(imports[..k], dlls[0]) && Shows(imports[k..], dlls[1..])
  }

  ghost predicate ShowsDll(imports: seq<Import>, dll: Dll)
    decreases |dll.symbols|
  {
    if dll.symbols == [] then imports == []
    else if dll.symbols[0].Unresolved? then ShowsDll(imports, Dll(dll.name, dll.symbols[1..]))
    else
      && imports != [] && ShowsSymbol(imports[0], dll.name, dll.symbols[0])
      && ShowsDll(imports[1..], Dll(dll.name, dll.symbols[1..]))
  }

  ghost predicate ShowsSymbol(i: Import, name: seq<byte>, s: Symbol)
    requires !s.Unresolved?
  {
    LoweredBytes(name, i.dll) && if s.ByName? then LoweredBytes(s.name, i.symbol) else OrdinalBytes(s.ordinal, i.symbol)
  }

  lemma LowerIsLowered(name: seq<byte>)
    ensures LoweredBytes(name, Lower(name))
  {
  }

  lemma {:induction false} AsciiSnoc(s: string, c: char)
    ensures Ascii(s + [c]) == Ascii(s) + [if c as int < 0x100 then c as int else 0x3F]
  {
  }

  lemma {:induction false} DigitsAreBytes(n: nat)
    ensures var b := Ascii(Decimal.Print(n));
            && b != [] && (forall i :: 0 <= i < |b| ==> 0x30 <= b[i] <= 0x39)
            && (|b| > 1 ==> b[0] != 0x30) && (n > 0 ==> b[0] != 0x30) && DigitsValue(b) == n
  {
    var b := Ascii(Decimal.Print(n));
    if n < 10 {
      assert b == [0x30 + n] && b[..0] == [];
      assert DigitsValue(b) == 10 * DigitsValue(b[..0]) + n;
    } else {
      DigitsAreBytes(n / 10);
      var init, last := Ascii(Decimal.Print(n / 10)), 0x30 + n % 10;
      AsciiSnoc(Decimal.Print(n / 10), Decimal.DigitChar(n % 10));
      assert b == init + [last] && b[..|b| - 1] == init;
    }
  }

  lemma OrdinalIsShown(n: u16)
    ensures OrdinalBytes(n, OrdinalSymbol(n))
  {
    var digits, shown := Ascii(Decimal.Print(n)), OrdinalSymbol(n);
    DigitsAreBytes(n);
    assert shown[3..] == digits;
  }

  lemma {:induction false} FlatShows(d: Dll)
    ensures ShowsDll(Flat(d), d)
    decreases |d.symbols|
  {
    if d.symbols != [] {
      var s, rest := d.symbols[0], Flat(Dll(d.name, d.symbols[1..]));
      FlatShows(Dll(d.name, d.symbols[1..]));
      if s.Unresolved? {
        EmptyLeft(rest);
      } else {
        assert (Shown(d.name, s) + rest)[1..] == rest;
        LowerIsLowered(d.name);
        if s.ByName? {
          LowerIsLowered(s.name);
        } else {
          OrdinalIsShown(s.ordinal);
        }
      }
    }
  }

  /** The flattened list shows each DLL's symbols in order, byte by byte. */
  lemma {:induction false} FlattenShows(dlls: seq<Dll>)
    ensures Shows(Flatten(dlls), dlls)
    decreases |dlls|
  {
    if dlls != [] {
      var first, rest := Flat(dlls[0]), Flatten(dlls[1..]);
      FlatShows(dlls[0]);
      FlattenShows(dlls[1..]);
      assert (first + rest)[..|first|] == first && (first + rest)[|first|..] == rest;
    }
  }

  lemma {:induction false} FirstOfIs<T>(s: seq<T>, n: nat)
    ensures FirstOf(s, n) == s[..if |s| <= n then |s| else n]
  {
    FirstOfAt(s, n);
  }

  /** The caps: the first 4096 descriptors, and the first 4096 thunks of each. */
  lemma CapsAre(dlls: seq<Dll>)
    ensures var r := CappedDlls(dlls);
            && |r| == Min(|dlls|, 4096)
            && forall i :: 0 <= i < |r| ==>
                 r[i] == Dll(dlls[i].name, dlls[i].symbols[..Min(|dlls[i].symbols|, 4096)])
  {
    FirstOfIs(dlls, CAP);
    forall i | 0 <= i < |CappedDlls(dlls)|
      ensures CappedDlls(dlls)[i] == Dll(dlls[i].name, dlls[i].symbols[..Min(|dlls[i].symbols|, 4096)])
    {
      FirstOfIs(dlls[i].symbols, CAP);
    }
  }

  /** Within the caps nothing is cut off. */
  lemma CapsCutNothing(dlls: seq<Dll>)
    requires |dlls| <= 4096 && forall i :: 0 <= i < |dlls| ==> |dlls[i].symbols| <= 4096
    ensures CappedDlls(dlls) == dlls
  {
    FirstOfFew(dlls, CAP);
    forall i | 0 <= i < |dlls| ensures CapEach(dlls)[i] == dlls[i] {
      FirstOfFew(dlls[i].symbols, CAP);
    }
  }

  // ----- distinct DLL names -----

  /** The DLL names of the imports. */
  function DllNames(imports: seq<Import>): (s: set<seq<byte>>)
  {
    set i | 0 <= i < |imports| :: imports[i].dll
  }

  /** The first import that names this DLL. */
  ghost predicate FirstAppearance(imports: seq<Import>, name: seq<byte>, at: nat) {
    && at < |imports| && imports[at].dll == name
    && forall j :: 0 <= j < at ==> imports[j].dll != name
  }

  ghost predicate BeforeIn(imports: seq<Import>, a: seq<byte>, b: seq<byte>) {
    exists i, j :: i < j && FirstAppearance(imports, a, i) && FirstAppearance(imports, b, j)
  }

  /** `dedup_dll_names`: each DLL name once, in order of first appearance. */
  method DedupDllNames(imports: seq<Import>) returns (out: seq<seq<byte>>)
    ensures (set i | 0 <= i < |out| :: out[i]) == DllNames(imports)
    ensures forall i, j :: 0 <= i < j < |out| ==> out[i] != out[j] && BeforeIn(imports, out[i], out[j])
  {
    var seen: set<seq<byte>> := {};
    out := [];
    ghost var at: seq<nat> := [];
    for k := 0 to |imports|
      invariant |at| == |out|
      invariant forall i :: 0 <= i < |out| ==> at[i] < k && FirstAppearance(imports, out[i], at[i])
      invariant forall i, j :: 0 <= i < j < |out| ==> at[i] < at[j]
      invariant forall x :: x in seen <==> x in out
      invariant forall j :: 0 <= j < k ==> imports[j].dll in out
    {
      if imports[k].dll !in seen {
        assert FirstAppearance(imports, imports[k].dll, k);
        seen := seen + {imports[k].dll};
        out := out + [imports[k].dll];
        at := at + [k];
      }
    }
    forall i, j | 0 <= i < j < |out|
      ensures out[i] != out[j] && BeforeIn(imports, out[i], out[j])
    {
      assert at[i] < at[j] && FirstAppearance(imports, out[i], at[i]) && FirstAppearance(imports, out[j], at[j]);
    }
    assert forall i :: 0 <= i < |out| ==> out[i] == imports[at[i]].dll;
  }
}
