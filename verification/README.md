# windows-erg: a Dafny model of its algorithms and protocols

The repository wraps Windows APIs, but much of what it does is its own: a file reader that follows
disk extents, a PE parser, an ETW session with two threads and two channels, a payload decoder with
a cache, a process-tree walk, overlapped pipe I/O, a snapshot differ, a path walk that follows no
link, and calendar arithmetic. This project models those parts and proves what they are for. Every
operating-system call is a parameter: an answer, a script of answers, or the state of the world at
the moment of the call, over which all statements are quantified.

`dafny verify dfyconfig.toml` checks everything.

## Layout

| files | model |
|---|---|
| `RetrievalPointers`, `RawFile`, `RawFileRefinement`, `RawFileCopy` | the raw reader: extent list, cursor, `read`, `copy_to` |
| `PeChecksum`, `PeHeaders`, `PeImports`, `PeImage` | PE checksum, headers, RVA translation, import table, a writer of images |
| `PeOverflow`, `PePatch`, `PeAnalysis`, `PeOddImage` | overflow in the whole PE analysis, and the images that show it |
| `EventPipeline`, `PipelineDelivery`, `EventTraces`, `TraceLifecycle`, `OpcodeDrops` | ETW session: callback and drains, what they deliver, start/stop/drop, opcode set |
| `EventText`, `EventSchema`, `EventFields`, `EventRoundTrip`, `EventWire`, `EventItems`, `EventReferences`, `EventWideText` | ETW payload decoder, its encoder, lengths and counts held in other fields |
| `Memo`, `SchemaCache`, `SchemaFreshness` | the decoder's two caches and the labels of value maps |
| `ProcessTree`, `KillOrder` | process tree, descendants, root ancestor, kill order |
| `OverlappedPipe` | overlapped reads and writes with a timeout |
| `PipePoller`, `Names` | named-pipe snapshots and their differences |
| `SafeWalk` | file creation and deletion without following reparse points |
| `Calendar`, `Timestamp`, `TimestampOrder` | ISO 8601 timestamps and their order |
| `Wrappers`, `Sequences`, `Lexicographic`, `Bytes`, `Decimal`, `Unicode` | results, slices, order, integers as bytes and text, UTF-16 and UTF-8 |

Code that updates things step by step is a class or a method with loops, proved against a
specification function (`Reader.Read` against `ReadStep`, `ParseValues` against `FieldsOfPayload`,
`OverlappedIo` against `Finished` and `Reported`, and so on); the properties are lemmas about those
functions. Two-thread protocols are state machines, and their invariants hold in every run.

## What the code does that its text does not say

Where a promise fails, the model keeps the code, shows an input, and proves the exact condition.

- `src/file/raw.rs:191-205`: the cursor advances by the clusters asked for, whatever came back. A short
  disk read loses bytes (`ShortReadLosesBytes`); a read keeps the cursor in step exactly if the volume
  handed over the whole request or all the file still had (`ReadStaysInSync`).
- `src/file/raw.rs:186-188`: a range of a sparse file has a negative position, on which the seek fails. A copy
  then fails exactly if the file goes on behind the extents before it (`CopyTo`, `SparseFileStops`).
- `src/file/pe.rs:430`: the checksum skips its own field only at an even offset (`FieldIgnoredIffEven`). With an
  odd `e_lfanew` storing the computed checksum is mostly a mismatch (`OddStoredChecksumIff`, `OddImageMismatches`).
- `src/file/pe.rs:4-5` promises that the analysis never panics. In an overflow-checked build two additions can:
  that of an RVA translation (`src/file/pe.rs:262`, `FarImagePanics`) and that of the length to the checksum
  (`src/file/pe.rs:442`, `LongImagePanics`). `AnalysisPanicsIff` says when, for every image; no image with
  given headers panics exactly if no address overflows in their sections, which `FindOverflow` decides, or there
  is no import entry (`ImportsNeverPanicIff`, `HeadersConditionIsExact`); and none of a given length exactly if that
  is, in 32 bits, at most 0xFFFF0000 (`LengthConditionIsExact`).
- `src/process/tree.rs:36`: the comment promises children first; sorting by falling height kills parents
  first (`KillTreeById`). `tree_depth` returns exactly if no cycle is below its argument
  (`DepthTerminatesIffAcyclic`); two processes that are each other's parent make one (`ReusedPidNeverEnds`).
- `src/process/tree.rs:70`: the tree is killed by a second snapshot, so the requested process may be missing
  from it (`MovedProcessIsMissed`; `KillSetFromRoot` says exactly when).
- `src/evt/render.rs:479-504`: a fraction of one to four digits gives no time, five digits are read as
  zero (`PrintParse`); month 14 and above and day 0 panic, the latter where overflow is checked (`PanicsIff`,
  `PanickingTexts`). Within one second the order of the texts is not that of the times where a fraction is
  absent or goes beyond six digits (`FractionSortsFirst`, `TextOrderIsTimeOrderIff`).
- `src/etw/session.rs:1332`: if the stop event cannot be created, `start` returns with its thread running
  on a freed context and leaves the session behind (`EventFailureMisfires`, `MisfiresIffEventFails`,
  `FailedStartLeavesSessionIff`).
- `src/etw/session.rs:698-703`: `stop` ignores whether the session could be stopped and reports success
  (`StoppedButRunning`, `StopLeavesSessionIff`).
- `src/etw/schema.rs:432-445`: an array whose property declares one element's length is cut to that length
  unless the length is below the count (`ArrayReadWholeIff`).
- `src/etw/schema.rs:399-409`: a count of 0 reads one value, off the next field (`CountOfZeroReadsOne`); sized
  elements take the bytes of as many as the count says exactly if it is not 0 (`ReferencedCountTakesIff`).
- `src/etw/schema.rs:728-738`: of a sized UTF-16 text with a string out-type the bytes before the first zero
  byte are tried as UTF-8 first. A text that starts with an ASCII letter shows only that letter
  (`AsciiShowsFirstLetter`); it comes back exactly if those bytes are not UTF-8, or it is empty or one ASCII letter
  (`SizedWideAsStringIff`).
- `src/etw/schema.rs:155`: maps are cached by name alone, so a record can show the label of another provider's map
  (`WrongLabel`). With stable schemas sessions show the right fields exactly if each map that one record loads
  labels the fields of every other that names it as its own does (`SessionsAreFreshIff`).
- `src/etw/schema.rs:813-828`: SIDs print every authority in decimal, where section 2.4.2.1 of MS-DTYP has
  hexadecimal from 2^32 on (`SidTextIsStandardIff`, `LargeAuthorityDiffers`).
- `src/pipes/enumerate.rs:98-101`: a failed listing discards the reports of the rounds before it while the
  baseline has moved on, so those changes are reported to nobody (`FailedRoundLosesReport`; `PollInterval`
  has the exact condition).
- `src/pipes/server.rs:667-677`: a read that times out can lose the bytes it received before the
  cancellation (`ReadsDeliverStreamIff`, `TimedOutReadLosesBytes`). `src/pipes/server.rs:630`: a timeout of
  2^32 - 1 ms or more waits for ever (`DurationToWaitMs`). A write that fails can have sent a part of which
  the caller learns nothing (`BrokenWriteSendsUnseen`; `Write` says when it learns of all).
- `src/file/safe.rs:9-11`: the walk is described as holding each directory open; it lets go of each
  parent (`src/file/safe.rs:169`), so at its end one handle is open (`OpenDirectoryChain`). What is proved
  is about the directory objects gone through and needs no handle to be held.

## Model

| member | source | states |
|---|---|---|
| RetrievalPointers.BufferToRetrievalPointers | src/file/win.rs:197-247 | succeeds exactly if the buffer holds all extents it announces; then the buffer starts with the encoding of the result; which error otherwise |
| RetrievalPointers.EncodeInjective | src/file/win.rs:197-247 | a buffer starts with the encoding of at most one extent list, so parsing inverts encoding |
| RawFile.ReadFromDisk | src/file/win.rs:177-195 | refused exactly if the buffer is shorter than the request; otherwise the transferred bytes are those at the disk position and the rest of the buffer is untouched |
| RawFile.Reader.constructor | src/file/raw.rs:55-100 | a new reader stands at the first cluster of the first extent |
| RawFile.Reader.TransferAtCursor | src/file/raw.rs:178-207 | one transfer: the bytes handed out, the three counters after it |
| RawFile.Reader.Read | src/file/raw.rs:146-212 | one call, for every extent list, cursor, buffer and disk answer: bytes delivered, error, and new cursor are those of `ReadStep` |
| RawFile.ReadEnds | src/file/raw.rs:146-189 | how every call ends, by the first extent from the cursor on whose cluster numbers are not used up: which error, nothing at the end of the file or the list, else bytes |
| RawFile.ReadTakes | src/file/raw.rs:178-207 | with a full transfer a call reads as many whole clusters as the buffer holds, not beyond the extent, no byte beyond the file, and moves the cursor by those clusters |
| RawFile.FileByteIs | src/file/raw.rs:157-194 | byte b of virtual cluster v of an extent is in the logical file at (v - starting VCN) clusters and b bytes, and on the disk at (LCN + v - the extent's first VCN) clusters and b bytes |
| RawFile.FileLength | src/file/raw.rs:157-205 | the mapped bytes are the clusters from the starting VCN to the last next VCN; the logical file is they, cut at the file size |
| RawFileRefinement.FindKeepsPosition | src/file/raw.rs:157-176 | skipping empty extents passes over no byte of the file, and the search fails only at the end of the mapped bytes |
| RawFileRefinement.ReadDelivers | src/file/raw.rs:146-212 | from a cursor in step, a read returns the next bytes of the logical file |
| RawFileRefinement.ReadStaysInSync | src/file/raw.rs:191-205 | the cursor stays in step exactly if the whole request came back, or all the file still had |
| RawFileRefinement.StepInSync | src/file/raw.rs:146-212 | every call with a complete answer keeps step, never passes the file size, and returns 0 bytes only at the end |
| RawFileRefinement.ReadsRefineFile | src/file/raw.rs:146-212 | over every sequence of reads the outputs joined are the logical file's bytes in order, none lost or repeated |
| RawFileRefinement.ShortReadLosesBytes | src/file/raw.rs:191-205 | a short disk read after which a byte of the file is never delivered |
| RawFileCopy.NonEmptyReadAdvances | src/file/raw.rs:196-205 | a read that returns bytes moves the cursor forward, whatever the extents |
| RawFileCopy.CopyTo | src/file/raw.rs:103-138 | the copy ends on every input, with any failing writes and flush; with complete answers and extents that lie on the disk up to the first that cannot be read: what was written is a prefix of their file, all of it on success; without faults it fails exactly if the file goes on behind them, with that extent's error |
| RawFileCopy.CutStep | src/file/raw.rs:146-212 | a read is one on the volume cut before an extent whose VCN falls or that has clusters at a negative position, except that at its end it fails with that extent's error |
| RawFileCopy.PlacedIsReadable | src/file/raw.rs:103-138 | where all extents lie on the disk, the copy's statement is about the whole logical file |
| RawFileCopy.SparseFileStops | src/file/raw.rs:186-188 | a sparse file of two bytes whose copy fails after the first |
| PeChecksum.ChecksumOf | src/file/pe.rs:426-443 | the loop computes the end-around-carry class of the word sum plus the length, in 32 bits |
| PeChecksum.FoldTracksSum | src/file/pe.rs:426-443 | each fold keeps the running sum at most 0xFFFF and congruent to the plain sum |
| PeChecksum.CanonIsRemainder | src/file/pe.rs:426-443 | that class is the remainder modulo 0xFFFF in 1..0xFFFF, 0 only for 0 |
| PeChecksum.FiveBytes | src/file/pe.rs:426-443 | the sum of any two words and an odd byte: low byte first, the field's two words left out |
| PeChecksum.FieldIgnoredIffEven | src/file/pe.rs:430-434 | the checksum does not depend on its own field exactly if the field's offset is even |
| PeChecksum.ByteChangeDetected | src/file/pe.rs:426-443 | changing any one byte outside the skipped words changes the checksum |
| PeHeaders.ReadSections | src/file/pe.rs:212-230 | all section headers, or a miss exactly if the last one is cut off |
| PeHeaders.Parse | src/file/pe.rs:171-239 | the result's fields are where the format puts them in the bytes; an error exactly if no headers are |
| PeHeaders.ParsesToIff | src/file/pe.rs:171-239 | parsing gives some headers exactly if the bytes hold their fields, little-endian, at the offsets of the format, for some place of the NT header and size of the optional header |
| PeHeaders.WhichError | src/file/pe.rs:171-239 | which error every file gets, from its signatures, magic and length |
| PeHeaders.FirstClaimDecides | src/file/pe.rs:253-268 | the first section that claims an address translates it, exactly unless the 32-bit sum overflows |
| PeHeaders.UnclaimedHasNoOffset | src/file/pe.rs:253-268 | an address no section claims has no offset |
| PeHeaders.DataDirectoryIff | src/file/pe.rs:243-251 | a data directory is found exactly if its index is below the announced count and its eight bytes hold a nonzero address and a nonzero size |
| PeOverflow.FindOverflow | src/file/pe.rs:253-268 | decides from the section table whether any address at all overflows, and gives one that does |
| PeOverflow.RoomyNeverOverflows | src/file/pe.rs:253-268 | no address overflows if every section's claimed addresses have room below 4 GiB |
| PeOverflow.CheckedRvaIs | src/file/pe.rs:253-268 | the search with a checked sum panics exactly at the addresses whose first claim overflows, and otherwise answers as the wrapping one |
| PeOverflow.ImportsCheck | src/file/pe.rs:292-389 | for every image, the import walk with checked sums panics exactly if one of the addresses it translates overflows, and otherwise gives the imports |
| PeAnalysis.AnalysisPanicsIff | src/file/pe.rs:96-120 | for every image, the whole analysis panics exactly if it parses and one of those addresses overflows, or the digests succeed, a checksum is stored and adding the length overflows; otherwise it gives the imports and the mismatch |
| PeAnalysis.ImportsNeverPanicIff | src/file/pe.rs:292-389 | for the headers of every image, the walk panics on none of the images with exactly these headers iff there is no import entry or no address overflows in their sections |
| PeAnalysis.HeadersConditionIsExact | src/file/pe.rs:96-120 | the same of the whole analysis, over the images of a safe length |
| PeAnalysis.LengthConditionIsExact | src/file/pe.rs:426-443 | for every length, the analysis panics on no image of it with such headers iff the length in 32 bits is at most 0xFFFF0000 |
| PeAnalysis.FarImagePanics | src/file/pe.rs:253-268 | an image of 532 bytes that parses and on which the import walk panics |
| PeAnalysis.LongImagePanics | src/file/pe.rs:442-442 | an image of 0xFFFFFFFF bytes that parses and on which the checksum panics |
| PeHeaders.HeadersIgnoreField | src/file/pe.rs:171-239 | images that agree outside the checksum field have the same fixed headers |
| PeHeaders.SectionsIgnoreField | src/file/pe.rs:212-230 | and the same sections, where the table does not overlap the field |
| PeHeaders.StoredChecksumMatches | src/file/pe.rs:285-290 | for every parseable image with even `e_lfanew`, storing the computed checksum is no mismatch; the headers stay as they were if the optional header covers the field, all but the section table if it is shorter |
| PeHeaders.OddStoredChecksumIff | src/file/pe.rs:285-290 | for every parseable image with odd `e_lfanew`, storing the computed checksum is no mismatch exactly if it is zero or its bytes add to the sum what the replaced ones did, modulo 0xFFFF |
| PeOddImage.OddImageMismatches | src/file/pe.rs:285-290 | an image of 185 bytes with odd `e_lfanew` whose own checksum, once stored, is a mismatch |
| PeHeaders.SingleByteChangeIsMismatch | src/file/pe.rs:285-290 | after any change of one byte an accepted nonzero checksum is a mismatch, exactly unless the change made the stored field zero |
| PeImports.ReadCStringIff | src/file/pe.rs:415-424 | a string is read exactly if it lies there with its NUL and is under 512 bytes |
| PeImports.WalkThunks | src/file/pe.rs:341-369 | the thunk loop appends exactly the imports of the table, at most 4096, to those before |
| PeImports.WalkTable | src/file/pe.rs:292-339 | the descriptor loop collects what each descriptor contributes, at most 4096 of them |
| PeImports.AppendImports | src/file/pe.rs:317-336 | a descriptor whose name or thunk table cannot be found contributes nothing |
| PeImports.ParseImports | src/file/pe.rs:292-339 | for every image: no directory, no imports; else the bytes there are the table of some list of DLLs, with every thunk and name that cannot be read, and for each such list the result is it flattened, up to the caps, every letter byte 0x41 to 0x5A raised by 32 and all others as they are, ordinals as `ord` and decimal digits |
| PeImports.ImportsOfLaidDirectory | src/file/pe.rs:292-389 | for every list of DLLs and imports whose descriptors, thunks and names the bytes hold, 32 or 64 bit, broken entries and cut tables included, the result is that list flattened in table order, up to the caps |
| PeImports.EveryDirectoryIsLaid | src/file/pe.rs:292-389 | whatever bytes stand there, they are the import table of some list |
| PeImports.ImportsOfEveryImage | src/file/pe.rs:292-389 | so for every image with a directory the imports are what its bytes say |
| PeImports.FlattenShows | src/file/pe.rs:326-387 | in the flattened list each import shows its DLL and symbol byte by byte: no upper-case byte, each byte the name's own or that plus 32 exactly for 0x41 to 0x5A; an ordinal is `ord` and decimal digits without leading zeros of which it is the value; unreadable symbols do not show |
| PeImage.ImageIsLaid | src/file/pe.rs:464-545 | for every writable list of DLLs the written image holds the headers and, where they point, the directory of the list |
| PeImage.ImageRoundTrip | src/file/pe.rs:171-389 | for every writable list, 32 or 64 bit, parsing the written image gives its headers and exactly the list, flattened and lowercased byte by byte |
| PeImports.CapsCutNothing | src/file/pe.rs:292-369 | within 4096 descriptors and 4096 thunks each, nothing is cut off |
| PeImports.CapsAre | src/file/pe.rs:292-369 | the caps keep the first 4096 descriptors, and of each the first 4096 thunks |
| PeImports.DedupDllNames | src/file/pe.rs:136-145 | each DLL name once, all of them, in order of first appearance |
| ProcessTree.BuildProcessTree | src/process/tree.rs:74-85 | every parent maps to exactly its children, in list order |
| ProcessTree.ChildrenInOrder | src/process/tree.rs:74-85 | those children are the processes at exactly the places of the list whose parent it is, in increasing order |
| ProcessTree.EdgeIff | src/process/tree.rs:74-85 | c is a child of p in the tree exactly if the list has c with parent p |
| ProcessTree.CollectDescendants | src/process/tree.rs:87-99 | it ends on every map, cycles included; what it adds lies below the start and has no gaps |
| ProcessTree.CollectedIsReachable | src/process/tree.rs:87-99 | from the empty set the result is exactly what one or more parent-to-child steps reach |
| ProcessTree.KillSet | src/process/tree.rs:28-34 | the kill set is the process and its descendants, nothing else |
| ProcessTree.InvertTree | src/process/tree.rs:119-125 | whatever the hash order, the reverse map gives a parent to exactly those that have one |
| ProcessTree.FindRootAncestor | src/process/tree.rs:115-138 | it ends on every map; the result is the start or an ancestor, and has a parent only on a cycle; with single parents it is the first parentless or cyclic process on the way up |
| ProcessTree.ClimbIsUnique | src/process/tree.rs:115-138 | with single parents there is one process where the way up ends |
| ProcessTree.DistinctPidsHaveOneParent | src/process/tree.rs:74-85 | a list that has each PID once gives single parents |
| ProcessTree.KillSetFromRoot | src/process/tree.rs:58-71 | with each PID once in the first snapshot, the requested process is in the kill set exactly if the end of the way up from it there is the process itself or still above it in the second; always if both are one |
| ProcessTree.MovedProcessIsMissed | src/process/tree.rs:58-71 | two lists, the process under 1 and then under 3, with which only process 1 is killed |
| KillOrder.DepthFalls | src/process/tree.rs:102-112 | without cycles the depth falls strictly from parent to child |
| KillOrder.DepthIsLongestChain | src/process/tree.rs:102-112 | the depth is d exactly if some chain of d parent-to-child steps goes down from the process and none is longer |
| KillOrder.DepthTerminatesIffAcyclic | src/process/tree.rs:102-112 | the recursion ends exactly if no cycle is reachable |
| KillOrder.ReusedPidNeverEnds | src/process/tree.rs:102-112 | two processes that are each other's parent, on whose tree the recursion never ends |
| KillOrder.ParentsFirst | src/process/tree.rs:36-38 | an order of falling depth has every parent before its children |
| KillOrder.SortByFallingKey | src/process/tree.rs:38-38 | a permutation with falling keys |
| KillOrder.KillTreeById | src/process/tree.rs:24-48 | does not return exactly if there are two or more processes to sort and a cycle; otherwise every process of the kill set once, in falling depth, each parent before its children, whatever the hash order |
| OpcodeDrops.IsDropped | src/etw/session.rs:75-87 | holds exactly if an entry of the class has the opcode's bit |
| OpcodeDrops.AddOpcodes | src/etw/session.rs:965-968 | setting bits adds exactly the named opcodes to the 256-bit set |
| OpcodeDrops.Builder.DropOpcodes | src/etw/session.rs:950-970 | the call adds its opcodes to its class and changes nothing else; one entry per class |
| OpcodeDrops.Configure | src/etw/session.rs:950-970 | over every sequence of calls an opcode is dropped exactly if some call named its class and it |
| EventPipeline.StepKeeps | src/etw/session.rs:240-312 | every step of callback or consumer keeps conservation, order and bound of both channels and the counters |
| EventPipeline.EveryRunKeeps | src/etw/session.rs:585-675 | so does every interleaving |
| EventPipeline.PipelineAccounting | src/etw/session.rs:585-675 | in every reachable state: accepted = received + queued + dropped on each stream, in order, within capacity; drops add up over both streams; each batch is what its filter keeps of what it received; `events_processed` is the total of the batch sizes |
| PipelineDelivery.PipelineDelivers | src/etw/session.rs:240-312 | over every interleaving: the callback offers, in order, exactly the events delivered to it while idle whose process is in the filter set (if any) and whose class and opcode no entry names; each stream has received and queued exactly those offered while it had room, in order; the drop counter is the number of offers with none |
| PipelineDelivery.NothingDroppedIff | src/etw/session.rs:280-311 | nothing is dropped exactly if at each offer the queue was below capacity (or, at capacity 0, a receiver waited); then a stream gets every such event |
| EventPipeline.KeepsWhatPasses | src/etw/session.rs:599-604 | of what a filtered drain received its batch has every occurrence of an event that the filter passes, none of another, in order |
| EventTraces.EventTrace.BeginCallback | src/etw/session.rs:250-264 | an idle callback takes up the event exactly if a stream is open, its process is in the filter set (if any) and no entry names its class and opcode; then the decoded stream, if open, is offered it first; else nothing changes |
| EventTraces.EventTrace.OfferNext | src/etw/session.rs:280-311 | one `try_send`, decoded before raw: with the queue below capacity the event is appended; a full one counts a drop, except that a raw channel without slots hands it to a waiting receiver |
| EventTraces.EventTrace.ReceiveFiltered | src/etw/session.rs:599-604 | one turn of a filtered drain, or the end of it when the channel is empty |
| EventTraces.EventTrace.NextBatchWithFilter | src/etw/session.rs:585-606 | fails exactly on a disabled stream; else drains until empty, whatever the callback does meanwhile, and returns what the filter keeps of the next events in order; `next_batch_decoded_with_filter` is the same on its stream |
| EventTraces.EventTrace.ReceiveFirst | src/etw/session.rs:631-635 | the blocking receive takes the first event or times out with an empty batch |
| EventTraces.EventTrace.NextBatchTimeout | src/etw/session.rs:619-641 | after the first event, takes all that has arrived; the batch is everything received, in order |
| TraceLifecycle.StepKeeps | src/etw/session.rs:680-729 | every step of the owner, the thread and other processes keeps the table of what is open, alive and running |
| TraceLifecycle.EveryRunKeeps | src/etw/session.rs:1121-1336 | so does every run of start, callbacks, stop and drop |
| TraceLifecycle.ProvidersAreEnabled | src/etw/session.rs:1194-1236 | in every run a trace that is handed out has every provider of a user-mode session enabled, and none of a kernel session; a start that failed on a provider has enabled fewer than all |
| TraceLifecycle.TakesOverIff | src/etw/session.rs:1121-1193 | a start that finds a session of its name gets one of its own exactly if it is a kernel session and both StartTraceW calls and the stop between them succeed |
| TraceLifecycle.StartsIff | src/etw/session.rs:1121-1193 | without such a session it gets one exactly if the first call succeeds, and else fails |
| TraceLifecycle.CallbacksHaveContext | src/etw/session.rs:200-220 | in every run in which the stop event was created, no callback executes without its context |
| TraceLifecycle.MisfiresIffEventFails | src/etw/session.rs:1317-1332 | where the stop event is created with the thread processing, a callback can run on the freed context exactly if the creation fails |
| TraceLifecycle.EventFailureMisfires | src/etw/session.rs:1317-1332 | a run of five steps in which a callback executes on the freed context |
| TraceLifecycle.HandleClosedOnce | src/etw/session.rs:707-713 | the trace handle is closed at most once, only after it was opened, and exactly once when the trace is gone |
| TraceLifecycle.FailedStartLeavesSessionIff | src/etw/session.rs:1121-1314 | a failed start leaves its session running exactly if the clean-up's stop failed or the stop event did, and nobody else stopped it |
| TraceLifecycle.StopIsIdempotent | src/etw/session.rs:680-683 | after a stop has returned, no run without a drop, of any owner, thread and foreign steps, changes anything but other processes' sessions |
| TraceLifecycle.StopReturns | src/etw/session.rs:680-722 | in every run from a stop under way without a drop: once the thread has exited, as many owner steps as are left, at most three, at whatever points, bring the stop to its return, with the handle closed |
| TraceLifecycle.CallReturns | src/etw/session.rs:680-729 | so every stop and every drop of a started trace returns |
| TraceLifecycle.DropFrees | src/etw/session.rs:725-729 | a drop then ends with the context freed, the thread gone and the handle closed, also of a trace that was stopped before |
| TraceLifecycle.JoinsIff | src/etw/session.rs:714-718 | the join goes on exactly if the thread has exited, and then the stop has returned |
| TraceLifecycle.StopLeavesSessionIff | src/etw/session.rs:698-703 | in every run, once the stop has made its call, the session still runs exactly if that call failed and nobody else stopped it |
| TraceLifecycle.StoppedButRunning | src/etw/session.rs:680-722 | a run in which the stop has returned and the session still runs |
| Unicode.Utf16RoundTrip | src/etw/schema.rs:785-785 | lossy decoding gives every encoded string back |
| Unicode.LoneSurrogate | src/etw/schema.rs:785-785 | a surrogate without its partner is read as U+FFFD and reading goes on behind it |
| Unicode.Utf8Iff | src/etw/schema.rs:795-795 | bytes decode to a string exactly if they are its encoding |
| Unicode.OctetsAreUtf8 | src/etw/schema.rs:795-795 | that encoding is the one of section 3 of RFC 3629, written out in bytes |
| EventText.ParseUtf16CStr | src/etw/schema.rs:845-863 | the text up to the first NUL unit or the last whole unit, and the bytes taken |
| EventWire.Utf16CStrIs | src/etw/schema.rs:845-863 | any units without NUL are read back and take two bytes each, two more for a NUL behind them; an odd byte at the end is left |
| EventText.ParseUtf16Sized | src/etw/schema.rs:769-786 | the text up to the first NUL within the declared length, which is consumed whole; odd or overlong lengths fail |
| EventRoundTrip.Utf16SizedRefuses | src/etw/schema.rs:769-786 | a declared length is refused exactly if it is zero, odd or beyond the data |
| EventText.Utf8CStrIff | src/etw/schema.rs:865-870 | a text is read exactly if its encoding stands at the start, free of NUL and up to a NUL or the end; the NUL is consumed |
| EventText.Utf8SizedIff | src/etw/schema.rs:788-808 | a text is read exactly if it stands so within the declared length, which is consumed whole |
| EventText.ParseSid | src/etw/schema.rs:813-828 | the SID's text and length, or nothing if the data is shorter than the SID it declares |
| EventText.SidRoundTrip | src/etw/schema.rs:813-828 | every SID's binary form is read back in front of anything |
| EventText.DecodeSidIff | src/etw/schema.rs:813-828 | a SID is read exactly where its binary form stands |
| EventText.AuthorityIs | src/etw/schema.rs:813-828 | the authority is six bytes, the highest first |
| EventText.KnownSid | src/etw/schema.rs:813-828 | the SID of the administrators is S-1-5-32-544 |
| EventText.SidTextInjective | src/etw/schema.rs:813-828 | the text determines the SID |
| EventText.SidTextIsStandardIff | src/etw/schema.rs:813-828 | the text is that of section 2.4.2.1 of MS-DTYP exactly if the authority is below 2^32 |
| EventText.LargeAuthorityDiffers | src/etw/schema.rs:813-828 | a SID whose text is not the standard's |
| EventFields.ParseValues | src/etw/schema.rs:362-397 | the loop returns the fields of the payload |
| EventReferences.ReferencesAreFixed | src/etw/schema.rs:362-420 | for every schema and payload: each field is what its property decodes right after the fields before it, with the lengths and counts that those hold (unsigned, or signed and not negative, pointers and flags, below 2^16) put in their place; a length that refers to no such number is the property's own, a count then is 1 |
| EventReferences.FixedPropertyIs | src/etw/schema.rs:375-409 | without references a count up to 1 is one value of the property's length, a larger one an array |
| EventFields.PayloadDecodingIff | src/etw/schema.rs:362-397 | they are the one sequence of fields that tile a prefix of the payload, each decoded by its property right after those before it, until a property fails or the payload ends |
| EventFields.FieldsTilePrefix | src/etw/schema.rs:362-397 | every field takes at least one byte, together at most the payload |
| EventFields.TruncatedSchema | src/etw/schema.rs:362-420 | the first k properties decode exactly the first k fields |
| EventFields.PaddingIsIrrelevant | src/etw/schema.rs:399-420 | a reference to a field not decoded yet falls back to the default |
| EventRoundTrip.StringRoundTripIff | src/etw/provider.rs:71-75 | a written string is read back exactly if it holds no NUL |
| EventRoundTrip.FieldRoundTrip | src/etw/provider.rs:66-78 | a written field is read back and takes its own bytes, exactly if it holds no NUL |
| EventRoundTrip.EventRoundTripIff | src/etw/provider.rs:65-78 | for every list of fields with a describing schema the decoder returns what was written exactly if no string holds a NUL, and then every byte is consumed |
| EventWire.InTypeRoundTrip | src/etw/schema.rs:507-643 | every in-type, sized, NUL-terminated, blob or scalar, reads its own wire form back, in front of anything |
| EventWire.InTypeReadsIff | src/etw/schema.rs:507-619 | a value of a fixed size, written out per in-type, is read exactly if its bytes are there |
| EventWire.BooleanIs | src/etw/schema.rs:714-726 | a flag is false exactly if its bytes, four for the in-type, one or four for the out-type, are all zero |
| EventWire.OutTypeRoundTrip | src/etw/schema.rs:645-767 | every out-type other than the text ones does, whatever the in-type; booleans with a declared length up to 4 bytes |
| EventWire.OutTypeDecidesIff | src/etw/schema.rs:507-511 | an out-type of a fixed size decides exactly if its bytes are there, else the in-type does |
| EventWire.HexRenderedShown | src/etw/schema.rs:645-700 | status codes and hexadecimal out-types show `0x` and 2, 4, 8 or 16 upper-case digits of which the number is the value |
| EventWire.HexScalarShown | src/etw/schema.rs:608-619 | so do the hexadecimal in-types, with 8 and 16 digits |
| EventWire.SocketAddressIff | src/etw/schema.rs:744-767 | a socket address is read exactly for family 2 with 8 bytes and family 23 with 24 |
| EventWire.PortIs | src/etw/schema.rs:684-690 | a port has its high byte first |
| EventWire.LongBooleanIff | src/etw/schema.rs:714-726 | a boolean with a longer declared length has four bytes if the length is still there, else one |
| EventWire.WireRoundTrip | src/etw/schema.rs:507-767 | so does every property that tells the kind, with its length and count resolved from any fields before it |
| EventItems.EventDecodes | src/etw/schema.rs:362-457 | for every list mixing all kinds of values, with lengths and counts in any earlier fields: the decoder returns exactly the list, each field taking its own bytes, and consumes the whole payload |
| EventReferences.LengthOnTheWire | src/etw/schema.rs:411-420 | for whole events: a text or blob of n bytes whose length n, below 2^16, stands on the wire in any earlier field of 8, 16, 32 or 64 bits, signed from 0 on, boolean, pointer, port or process ID, is read back with all fields before and behind it |
| EventReferences.CountOnTheWire | src/etw/schema.rs:399-409 | likewise an array of n elements whose count stands so |
| EventReferences.FallbackOnTheWire | src/etw/schema.rs:399-420 | a reference to a negative number, one of 2^16 and more, a field that is no number or one not yet decoded falls back to the property's own length and to a count of 1 |
| EventReferences.KnownEvent | src/etw/schema.rs:1184-1232 | 03 00 00 00 61 62 63 07 with a 32-bit length in front is 3, "abc" and 7 |
| EventReferences.ElementSizeIff | src/etw/schema.rs:459-484 | the bytes of one array element: 4 and 16 for the two address out-types, whatever the in-type, else 1, 2, 4, 8 or 16 by in-type, none for texts |
| EventItems.WrittenIsWire | src/etw/provider.rs:65-78 | the four kinds a provider writes are among these, with the same bytes and meaning |
| EventWire.BlobReads | src/etw/schema.rs:509-571 | a scalar with a declared length beyond its size is read as that many bytes |
| EventWire.LongLengthIsIgnored | src/etw/schema.rs:507-643 | a declared length beyond the data is as good as none |
| EventWire.OtherTakesAll | src/etw/schema.rs:507-643 | an unknown in-type without a length takes all that is left |
| EventWire.SizedWideReads | src/etw/schema.rs:769-786 | a UTF-16 text in a buffer of the declared size, with any NUL padding, is read back and the buffer consumed |
| EventWire.SizedUtf8Reads | src/etw/schema.rs:788-808 | so is a UTF-8 text |
| EventItems.TextAfterItsLength | src/etw/schema.rs:411-420 | a text whose length stands in any earlier field is read back, whatever the other fields |
| EventWideText.SizedWideAsStringIff | src/etw/schema.rs:728-738 | for every text without NUL and every padding: a sized UTF-16 text with a string out-type shows what the bytes before the first zero byte are in UTF-8, or the text if they are not; it comes back exactly if they are not, or it is empty or one ASCII letter |
| EventWideText.AsciiShowsFirstLetter | src/etw/schema.rs:728-738 | a text that starts with an ASCII letter shows only that letter |
| EventItems.ArrayAfterItsCount | src/etw/schema.rs:399-409 | an array whose count stands in any earlier field is read back whole, whatever the other fields |
| EventWire.CountOfZeroReadsOne | src/etw/schema.rs:399-409 | for every property and any data left, a count field of 0 reads one value, which takes at least one byte of what follows |
| EventWire.ReferencedCountTakesIff | src/etw/schema.rs:399-457 | sized elements take the bytes of as many as their count field says exactly if that is not 0 |
| EventWire.ReferencedCountIff | src/etw/schema.rs:399-409 | a count in an earlier field is taken at its word exactly if it is at least 1 and fits 16 bits |
| EventWire.ArrayWithoutLength | src/etw/schema.rs:447-456 | an array of sized elements with no declared length is read whole |
| EventWire.CountedValueIff | src/etw/schema.rs:422-457 | an array takes n bytes, as they are, exactly if n is the declared length (times the count if below it) and is there, or else the element size times the count and is there |
| EventWire.ArrayReadWholeIff | src/etw/schema.rs:432-445 | an array that declares one element's length is read whole exactly if the length is below the count |
| EventWire.ArrayCutShort | src/etw/schema.rs:432-445 | two 4-byte elements under a declared length of 4: only the first is read |
| Memo.MemoIsFreshIff | src/etw/schema.rs:102-162 | a table that keeps successful loads answers every sequence of queries as the loader would exactly if loads depend on the key alone |
| Memo.LookupKeepsBacked | src/etw/schema.rs:104-107 | a table holds only what loaded: failed loads are never kept |
| SchemaCache.RenderNumeric | src/etw/schema.rs:166-192 | the label of a number; there is none exactly if no entry has the number and, in a bitmap, no entry with a nonzero number has all its bits set in it |
| SchemaCache.NumericLabelIs | src/etw/schema.rs:166-192 | in a bitmap with such entries the label is their captions joined, else the caption of the first entry with the number |
| SchemaCache.BitLabelsInOrder | src/etw/schema.rs:173-186 | those captions are of exactly the entries whose bits are set, in the order of the table |
| SchemaCache.JoinSnoc | src/etw/schema.rs:188-188 | captions are joined with a vertical bar between each two |
| SchemaCache.LabelOfIff | src/etw/schema.rs:141-151 | a value has no label exactly if no entry speaks of it, by number or, for a text, by a text equal but for ASCII case |
| SchemaCache.LabelledIff | src/etw/schema.rs:126-152 | a field without a map, or of which its map does not speak, is unchanged; any other shows its label as text under its name |
| SchemaCache.HasBitsIff | src/etw/schema.rs:175-180 | the mask test holds exactly if each set bit of the mask is set in the value |
| SchemaCache.BitLabelsAre | src/etw/schema.rs:173-181 | a bitmap's labels are those of the entries whose bits are set, no others |
| SchemaCache.ExactLabelIsFirst | src/etw/schema.rs:168-171 | an exact label is that of the first entry with the number |
| SchemaCache.TextLabelIsFirst | src/etw/schema.rs:194-199 | a text label is that of the first entry equal but for ASCII case |
| SchemaCache.Cache.GetOrLoadMap | src/etw/schema.rs:154-162 | answer and table are those of a memo over map names |
| SchemaCache.Cache.ApplyMapValues | src/etw/schema.rs:126-152 | each field has at most a label from a map that its own property names and is otherwise unchanged; a field of which the map it gets does not speak is unchanged; with stable answers its label is that of the current map |
| SchemaCache.Cache.ParseEventFields | src/etw/schema.rs:102-124 | fields and tables are those of `DecodeWith`: the fields that the cached or loaded schema decodes, named by their properties, each with at most a label from a map its property names; with stable answers the result is that of decoding without a cache; a failed schema load changes nothing |
| SchemaCache.DecodeSession | src/etw/schema.rs:102-162 | every session is decoded as `DecodeAll` says, and with stable answers every record as without a cache |
| SchemaCache.CachesAreFreshIff | src/etw/schema.rs:102-162 | both caches always answer right exactly if schemas depend on the key and maps on the name alone |
| SchemaCache.StableIff | src/etw/schema.rs:34-44 | that is: the schema one record loads is loaded by all of the same provider, id, opcode, version and level, and the map one query loads by all of its name |
| SchemaFreshness.SessionsAreFreshIff | src/etw/schema.rs:102-162 | where schemas depend on their key, every session shows the fields that decoding without tables shows exactly if each map that one record loads labels the fields of every other that names it as its own does |
| SchemaFreshness.WrongLabel | src/etw/schema.rs:154-162 | two records of two providers with a map of the same name, the second shown with the first's label |
| SchemaCache.FieldsAreNamed | src/etw/schema.rs:362-397 | each field has the name of the property at its position |
| OverlappedPipe.DurationToWaitMs | src/pipes/server.rs:630-632 | whole milliseconds below 2^32 - 1; from there on the infinite wait |
| OverlappedPipe.NamedPipeServer.OverlappedIo | src/pipes/server.rs:640-689 | for every outcome of reset, start, wait and cancel race it returns with no operation pending, the bytes moved are those of the completion, and the report is that of `Reported` |
| OverlappedPipe.TimesOutIff | src/pipes/server.rs:655-677 | an operation times out exactly if it was pending (997), the wait did not fail, it was not complete in time and the timeout is below 2^32 - 1 ms; it starts exactly if the reset succeeded and the start was not refused |
| OverlappedPipe.NamedPipeServer.Read | src/pipes/server.rs:702-713 | the buffer holds the client's next bytes; the caller learns of all of them unless the read timed out; what it is told in each case, by Windows error code: 0 bytes for 109 and 233, the bytes for 234, else the error |
| OverlappedPipe.NamedPipeServer.Write | src/pipes/server.rs:717-728 | what went out is a prefix of the data; the caller is told how much exactly if the write started, did not time out and completed without an error; what it is told in each case, by error code |
| OverlappedPipe.ReadsDeliverStreamIff | src/pipes/server.rs:640-713 | over every sequence of reads, received then left is what the client wrote, exactly if no timed-out read had completed with bytes |
| OverlappedPipe.UntimedReadsAreAPrefix | src/pipes/server.rs:664-713 | without a timeout, the reads joined are a prefix of the client's bytes |
| OverlappedPipe.TimedOutReadLosesBytes | src/pipes/server.rs:667-677 | a timed-out read whose two bytes are never seen |
| OverlappedPipe.BrokenWriteSendsUnseen | src/pipes/server.rs:717-728 | a write that breaks after three of four bytes, of which the caller learns nothing |
| OverlappedPipe.ReadRepeatedly | src/pipes/server.rs:699-713 | a run of reads on the server gives that stream |
| PipePoller.Poller.Seed | src/pipes/enumerate.rs:79-86 | replaces the baseline and reports its size; a failed listing keeps it |
| PipePoller.Poller.Poll | src/pipes/enumerate.rs:50-76 | the sorted difference between the old baseline and the new listing, which replaces it |
| PipePoller.MapOfLast | src/pipes/enumerate.rs:51-56 | of several pipes listed under one name the baseline keeps the last |
| PipePoller.MapOfHas | src/pipes/enumerate.rs:51-56 | it has exactly the names listed |
| Names.LessIff | src/pipes/enumerate.rs:72-72 | one name is below another exactly if at the first difference it has the smaller code point or has ended |
| PipePoller.DiffIsUnique | src/pipes/enumerate.rs:50-76 | there is one such report, so it does not depend on hash order |
| PipePoller.ReplayDiff | src/pipes/enumerate.rs:50-76 | applying a report to the old names gives the new names |
| PipePoller.NotBoth | src/pipes/enumerate.rs:50-76 | no name is reported both as appeared and as removed |
| PipePoller.DiffSize | src/pipes/enumerate.rs:50-76 | a report has one change per name of the symmetric difference |
| PipePoller.PollInterval | src/pipes/enumerate.rs:89-103 | over every run the baseline is that of the last listing before the first failure; fails exactly if some listing does; on success each report is its round's sorted diff; what the caller was handed, replayed, gives the names known now exactly if every listing succeeded or those names are the old ones |
| PipePoller.FailedRoundLosesReport | src/pipes/enumerate.rs:98-101 | a listing with a new pipe, then a failed one: the pipe is known and was reported to nobody |
| PipePoller.PollIntervalWithCallback | src/pipes/enumerate.rs:105-122 | the callback gets each round's report; the total is the number of changes |
| PipePoller.TotalIsDifference | src/pipes/enumerate.rs:105-122 | the total is the sum of the symmetric-difference sizes |
| SafeWalk.ValidateFileName | src/file/safe.rs:247-257 | accepts exactly single plain components: not empty, not `.` or `..`, without backslash, slash, colon and NUL |
| SafeWalk.Process.RefuseReparsePoint | src/file/safe.rs:174-187 | passes exactly an object seen not to be a reparse point |
| SafeWalk.Process.Descend | src/file/safe.rs:151-170 | the next directory is a child of the current object, checked after it was opened; at most one handle is kept; which error for a component that is no name or not Unicode |
| SafeWalk.Process.OpenDirectoryChain | src/file/safe.rs:115-172 | under every interference it succeeds exactly if a verified chain leads from the volume root to the end of the path, and returns its last object; which error for an unsupported prefix and a path that is not absolute |
| SafeWalk.ChainIsUnique | src/file/safe.rs:115-172 | in one run of the world a walk goes through one sequence of objects |
| SafeWalk.StuckWalk | src/file/safe.rs:151-170 | a step that fails ends the walk for good |
| SafeWalk.LookupDirectoryIff | src/file/safe.rs:191-245 | a name is found exactly if it has at most 32767 UTF-16 units and the parent has it, as a directory or a file as asked for, that may be opened |
| SafeWalk.Process.WriteAll | src/file/safe.rs:61-74 | for every split of write sizes the file holds a prefix of the content, all of it exactly on success |
| SafeWalk.Process.CreateNewNoFollow | src/file/safe.rs:42-75 | a file is created exactly if the name is plain, a verified chain leads to the end of the path and the name is free there; it is in the last object of the chain and holds exactly the content on success, less after a failed write; otherwise nothing is created |
| SafeWalk.Process.DeleteNoFollow | src/file/safe.rs:79-111 | succeeds exactly if the path names a file in a directory, the name is plain, a verified chain leads there, and the file found is seen not to be a reparse point and can be deleted; deletes that file, otherwise nothing |
| Calendar.CountDays | src/evt/render.rs:486-504 | for every year, month and day: panics exactly if the month is 14 or above or the day is 0, otherwise the two loops compute 365 days a year from 1970 plus the leap days by fours, hundreds and four hundreds, and the day in the year by the common month lengths, written out |
| Calendar.DaysAreGregorian | src/evt/render.rs:486-519 | the day number is that Gregorian count |
| Calendar.MonthEnds | src/evt/render.rs:486-519 | the months have 30, 31 and 28 days, February 29 in years divisible by 4 but not by 100, or by 400 |
| Calendar.MonthLoopIs | src/evt/render.rs:493-501 | the month loop with its table access panics exactly if it is to pass month 13, and else adds the days of the months between |
| Calendar.CountedDaysAre | src/evt/render.rs:486-504 | so the whole count panics exactly on month 14 and above and day 0 |
| Calendar.NextDayIsNextNumber | src/evt/render.rs:486-519 | consecutive calendar days have consecutive numbers |
| Calendar.NumberIsElapsedDays | src/evt/render.rs:486-519 | a valid date's number is exactly the days elapsed since 1970-01-01 |
| Calendar.NumberIsMonotone | src/evt/render.rs:486-519 | later dates have larger numbers |
| Timestamp.ParseTimestamp | src/evt/render.rs:464-514 | no time exactly if a field is no number; panics exactly on month 14 and above or day 0; every other text gives the Unix time of its fields, in range or not; every printed valid time with no fraction or six digits and more is read as its instant |
| Timestamp.FieldsIff | src/evt/render.rs:464-484 | for every text: its fields are numbers exactly if it has 20 bytes or more and at each of the fixed places stand digits, or a sign and digits, in whole characters; what they say, place by place; a fraction that is no number is 0; the characters between are not looked at |
| Timestamp.TimeIsUnixTime | src/evt/render.rs:486-514 | whatever the fields, a time is 86400 times the Gregorian day count, plus 3600, 60 and 1 times the clock |
| Timestamp.KnownTime | src/evt/render.rs:464-519 | 2024-01-15T10:30:45Z is 1705314645 |
| Timestamp.KnownLeapDay | src/evt/render.rs:517-519 | 2000-02-29T00:00:00Z is 951782400 |
| Timestamp.ParsePrinted | src/evt/render.rs:464-514 | what parsing makes of every printed set of fields and every fraction |
| Timestamp.PrintParse | src/evt/render.rs:464-514 | printing in the form of section 5.6 of RFC 3339 and parsing is the identity to the microsecond exactly if the fraction is absent, has six digits or more, or is five zeros |
| Timestamp.PanicsIff | src/evt/render.rs:494-504 | for every text: it panics exactly if its fields are numbers and the month is 14 or above or the day is 0 |
| Timestamp.PanickingTexts | src/evt/render.rs:494-504 | 2024-14-01T00:00:00Z and 2024-01-00T00:00:00Z panic |
| TimestampOrder.TextOrderIsTimeOrderIff | src/evt/render.rs:464-514 | for all valid times and all fractions that are absent or have six digits or more, the byte order of the texts is the order of the times they are read as, exactly unless both are of one second and their fractions disagree |
| TimestampOrder.LaterIsLater | src/evt/render.rs:464-514 | with six digits each, a text is below another exactly if its time is strictly earlier |
| TimestampOrder.FractionSortsFirst | src/evt/render.rs:479-483 | a text with a fraction is below the one without, and not earlier |

## Left out

- Opening a volume, drive metadata and the DeviceIoControl loop of `src/file/win.rs`: answers of the system.
- Arithmetic overflow of 64-bit offsets in the raw reader: cluster numbers and sizes are unbounded integers.
- Overlay detection, import hashes and the SHA and MD5 digests of `src/file/pe.rs`: they would add easy members.
- `src/etw/decode.rs` is not part of this model: a decoded event is the record it came from.
- Stack traces, thread contexts and CPU samples attached to raw events.
- Loading schemas and maps from the system (`load_event_map`, `build_schema`): arbitrary functions of the
  record here.
- A callback that panics or a poisoned schema lock.
- Connecting a pipe server (`connect_with_wait_timeout`), impersonation and message boundaries of pipes.
- `Drop` of handles other than those counted in `SafeWalk`; sharing modes and access rights.
- A content of 4 GiB or more in one WriteFile call.
- XML and variant rendering in `src/evt/render.rs`; desktop, registry, security, crypto and service wrappers.
