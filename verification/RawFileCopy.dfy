/**
 `copy_to` (src/file/raw.rs): a copy of the logical file, or, for an extent list with an extent that cannot be
 read, of the extents before it.
 */
module RawFileCopy {
  import opened Wrappers
  import opened Bytes
  import opened RetrievalPointers
  import opened Sequences
  import opened RawFile
  import opened RawFileRefinement

  // ----- extents that cannot be read -----

  /** The volume with the first k extents only. */
  function Cut(v: Volume, k: nat): (w: Volume)
    requires k <= |v.pointers.extents|
  {
    v.(pointers := v.pointers.(extents := v.pointers.extents[..k]))
  }

  /** Why extent k cannot be read: its VCN falls, or it has clusters at a negative position, as sparse ranges do. */
  function Obstacle(v: Volume, k: nat): (e: Option<IoError>)
  {
    if k >= |v.pointers.extents| then None
    else if ClusterCount(v.pointers, k) < 0 then Some(NotMonotonic)
    else if ClusterCount(v.pointers, k) > 0 && v.pointers.extents[k].lcn < 0 then Some(NegativeSeek)
    else None
  }

  /** The first k extents lie on the disk; they are all there are, or the next cannot be read. */
  ghost predicate ReadableUpTo(v: Volume, k: nat) {
    && k <= |v.pointers.extents| && Placed(Cut(v, k))
    && (k < |v.pointers.extents| ==> Obstacle(v, k).Some?)
  }

  lemma PlacedIsReadable(v: Volume)
    requires Placed(v)
    ensures ReadableUpTo(v, |v.pointers.extents|) && Cut(v, |v.pointers.extents|) == v
  {
    assert v.pointers.extents[..|v.pointers.extents|] == v.pointers.extents;
  }

  lemma SameCount(v: Volume, k: nat, i: nat)
    requires i < k <= |v.pointers.extents|
    ensures ClusterCount(Cut(v, k).pointers, i) == ClusterCount(v.pointers, i)
  {
  }

  /** The search in the cut list: it finds what the search in the whole list finds, or ends at the obstacle. */
  lemma {:induction false} CutSearch(v: Volume, k: nat, c: Cursor)
    requires ReadableUpTo(v, k) && c.extentIndex <= k && (c.extentIndex == k ==> c.clusterIndex == 0)
    ensures var f, g := FindExtent(v.pointers, c), FindExtent(Cut(v, k).pointers, c);
            && (g.Found? ==> f == g && g.cursor.extentIndex < k)
            && (!g.Found? ==> g.Exhausted?)
            && (g.Exhausted? ==>
                  match Obstacle(v, k)
                  case None => f == g
                  case Some(e) =>
                    f.cursor.extentIndex == k && f.cursor.clusterIndex == 0
                    && if e.NotMonotonic? then f.Disordered? else f.Found?)
    decreases k - c.extentIndex
  {
    if c.extentIndex < k {
      SameCount(v, k, c.extentIndex);
      assert PlacedAt(Cut(v, k), c.extentIndex);
      if c.clusterIndex >= ClusterCount(v.pointers, c.extentIndex) {
        CutSearch(v, k, c.(extentIndex := c.extentIndex + 1, clusterIndex := 0));
      }
    }
  }

  lemma CutFound(v: Volume, k: nat, c: Cursor, bufferLen: nat, answer: DiskAnswer)
    requires k <= |v.pointers.extents| && v.bytesPerCluster > 0 && bufferLen >= v.bytesPerCluster
    requires c.extentIndex < k && c.clusterIndex < ClusterCount(v.pointers, c.extentIndex) && c.bytesRead < v.fileSize
    ensures ClusterCount(Cut(v, k).pointers, c.extentIndex) == ClusterCount(v.pointers, c.extentIndex)
    ensures ReadFound(Cut(v, k), c, bufferLen, answer) == ReadFound(v, c, bufferLen, answer)
  {
    SameCount(v, k, c.extentIndex);
  }

  /** A read on the volume is one on the cut volume, except that at the end of that one it may meet the obstacle. */
  lemma CutStep(v: Volume, k: nat, c: Cursor, bufferLen: nat, answer: DiskAnswer)
    requires ReadableUpTo(v, k) && bufferLen >= v.bytesPerCluster
    requires c.extentIndex <= k && (c.extentIndex == k ==> c.clusterIndex == 0)
    ensures var s := ReadStep(v, c, bufferLen, answer);
            if c.bytesRead < v.fileSize && !FindExtent(Cut(v, k).pointers, c).Found? && Obstacle(v, k).Some?
            then s.outcome == Err(Obstacle(v, k).value)
            else s == ReadStep(Cut(v, k), c, bufferLen, answer)
  {
    CutSearch(v, k, c);
    var g := FindExtent(Cut(v, k).pointers, c);
    if c.bytesRead < v.fileSize && g.Found? {
      CutFound(v, k, g.cursor, bufferLen, answer);
    }
  }

  // ----- the loop -----

  /** What is left of the cursor's own extent: half of the loop's termination measure. */
  ghost function ClustersLeft(p: Pointers, c: Cursor): (n: nat)
  {
    if c.extentIndex < |p.extents| && ClusterCount(p, c.extentIndex) > c.clusterIndex
    then ClusterCount(p, c.extentIndex) - c.clusterIndex else 0
  }

  /** A read that returns bytes moves the cursor forward, whatever the extents and the answers. */
  lemma {:induction false} NonEmptyReadAdvances(v: Volume, c: Cursor, bufferLen: nat, answer: DiskAnswer)
    requires v.bytesPerCluster > 0
    requires ReadStep(v, c, bufferLen, answer).outcome.Ok? && ReadStep(v, c, bufferLen, answer).outcome.value != []
    ensures var d := ReadStep(v, c, bufferLen, answer).cursor;
            c.extentIndex < |v.pointers.extents| &&
            (d.extentIndex > c.extentIndex
             || (d.extentIndex == c.extentIndex && ClustersLeft(v.pointers, d) < ClustersLeft(v.pointers, c)))
  {
  }

  ghost predicate AllComplete(bufferLen: nat, answers: nat -> DiskAnswer) {
    forall i: nat :: Complete(bufferLen, answers(i))
  }

  /** The loop invariant of `copy_to`. */
  ghost predicate CopiedSoFar(v: Volume, c: Cursor, written: seq<byte>)
    requires Placed(v)
  {
    InSync(v, c) && c.bytesRead <= |LogicalFile(v)| && written == LogicalFile(v)[..c.bytesRead]
  }

  /** The copy is over at an obstacle: all before it is written, and the file goes on. */
  ghost predicate StoppedAt(v: Volume, k: nat, written: seq<byte>, e: IoError)
    requires ReadableUpTo(v, k)
  {
    Obstacle(v, k) == Some(e) && written == Mapped(Cut(v, k)) && |Mapped(Cut(v, k))| < v.fileSize
  }

  /** The copy is complete, and nothing kept it from the rest of the file. */
  ghost predicate Finished(v: Volume, k: nat, written: seq<byte>)
    requires ReadableUpTo(v, k)
  {
    written == LogicalFile(Cut(v, k)) && (Obstacle(v, k).Some? ==> v.fileSize <= |Mapped(Cut(v, k))|)
  }

  lemma ErrorIsFault(v: Volume, c: Cursor, bufferLen: nat, answer: DiskAnswer)
    requires Placed(v) && InSync(v, c) && bufferLen >= v.bytesPerCluster
    requires ReadStep(v, c, bufferLen, answer).outcome.Err?
    ensures answer.Fault?
  {
    FindKeepsPosition(v, c);
    if FindExtent(v.pointers, c).Found? {
      assert PlacedAt(v, FindExtent(v.pointers, c).cursor.extentIndex);
    }
  }

  /** Where clusters are left and the answer is complete, a read returns bytes. */
  lemma FoundIsNotEmpty(v: Volume, c: Cursor, bufferLen: nat, limit: nat)
    requires Placed(v) && InSync(v, c) && c.bytesRead < v.fileSize && bufferLen >= v.bytesPerCluster
    requires FindExtent(v.pointers, c).Found? && Complete(bufferLen, Transfer(limit))
    ensures ReadStep(v, c, bufferLen, Transfer(limit)).outcome != Ok([])
  {
    var d := FindExtent(v.pointers, c).cursor;
    FindKeepsPosition(v, c);
    assert PlacedAt(v, d.extentIndex);
    ReadFoundDelivers(v, d, bufferLen, limit);
    HandedWhenComplete(v, c, bufferLen, limit);
    ReadStaysInSync(v, c, bufferLen, limit);
  }

  lemma CopyOneOf(v: Volume, c: Cursor, bufferLen: nat, answer: DiskAnswer, written: seq<byte>)
    requires Placed(v) && CopiedSoFar(v, c, written)
    requires bufferLen >= v.bytesPerCluster && Complete(bufferLen, answer)
    ensures var s := ReadStep(v, c, bufferLen, answer);
            match s.outcome
            case Ok(data) => CopiedSoFar(v, s.cursor, written + data) && (data == [] ==> written == LogicalFile(v))
            case Err(_) => answer.Fault?
  {
    StepInSync(v, c, bufferLen, answer);
    var s := ReadStep(v, c, bufferLen, answer);
    if s.outcome.Ok? {
      JoinSlices(LogicalFile(v), 0, c.bytesRead, s.cursor.bytesRead);
    } else {
      ErrorIsFault(v, c, bufferLen, answer);
    }
  }

  /** At the end of the cut volume, with the file not finished, everything in it is written. */
  lemma EndOfCut(w: Volume, c: Cursor, written: seq<byte>)
    requires Placed(w) && CopiedSoFar(w, c, written) && c.bytesRead < w.fileSize
    requires FindExtent(w.pointers, c).Exhausted?
    ensures written == Mapped(w) && |Mapped(w)| < w.fileSize
  {
    FindKeepsPosition(w, c);
    assert LogicalFile(w) == Mapped(w)[..|Mapped(w)|] == Mapped(w);
  }

  lemma CopyOne(v: Volume, k: nat, c: Cursor, bufferLen: nat, answer: DiskAnswer, written: seq<byte>)
    requires ReadableUpTo(v, k) && CopiedSoFar(Cut(v, k), c, written)
    requires bufferLen >= v.bytesPerCluster && Complete(bufferLen, answer)
    ensures var s := ReadStep(v, c, bufferLen, answer);
            match s.outcome
            case Ok(data) =>
              CopiedSoFar(Cut(v, k), s.cursor, written + data) && (data == [] ==> Finished(v, k, written))
            case Err(e) => answer.Fault? || StoppedAt(v, k, written, e)
  {
    var w := Cut(v, k);
    CutStep(v, k, c, bufferLen, answer);
    CopyOneOf(w, c, bufferLen, answer, written);
    CutSearch(v, k, c);
    if c.bytesRead < v.fileSize {
      if FindExtent(w.pointers, c).Found? {
        if answer.Transfer? {
          FoundIsNotEmpty(w, c, bufferLen, answer.limit);
        }
      } else {
        EndOfCut(w, c, written);
      }
    }
  }

  /** How a copy ended, on a volume that is readable up to extent k, with complete answers. */
  ghost predicate Ended(
    v: Volume, k: nat, answers: nat -> DiskAnswer, writeFaults: nat -> Option<int>,
    r: Result<(), IoError>, written: seq<byte>)
    requires ReadableUpTo(v, k)
  {
    && written <= LogicalFile(Cut(v, k))
    && (r.Ok? ==> Finished(v, k, written))
    && (r.Err? ==> StoppedAt(v, k, written, r.error) || exists i: nat :: answers(i).Fault? || writeFaults(i).Some?)
  }

  /** One read of the loop, as the bytes it puts into the buffer. */
  method ReadBytes(source: Reader, buffer: array<byte>, answer: DiskAnswer) returns (r: Result<seq<byte>, IoError>)
    requires source.Valid()
    modifies source, buffer
    ensures source.Valid()
    ensures Step(source.View(), r) == ReadStep(source.volume, old(source.View()), buffer.Length, answer)
  {
    ghost var outcome := ReadStep(source.volume, source.View(), buffer.Length, answer).outcome;
    ghost var before := buffer[..];
    var read := source.Read(buffer, answer);
    Reported(outcome, read, before, buffer[..]);
    if read.Err? {
      return Err(read.error);
    }
    assert buffer[..read.value] == buffer[..][..read.value];
    return Ok(buffer[..read.value]);
  }

  lemma Reported(outcome: Result<seq<byte>, IoError>, r: Result<nat, IoError>, before: seq<byte>, after: seq<byte>)
    requires Reports(outcome, r, before, after)
    ensures r.Err? ==> outcome == Err(r.error)
    ensures r.Ok? ==> r.value <= |after| && outcome == Ok(after[..r.value])
  {
    if outcome.Ok? {
      assert after[..|outcome.value|] == outcome.value;
    }
  }

  /** The read-and-write loop of `copy_to`, on a fresh reader with a buffer of `clustersPerRead` clusters. */
  method CopyLoop(
    v: Volume, clustersPerRead: nat, answers: nat -> DiskAnswer, writeFaults: nat -> Option<int>, ghost k: nat)
    returns (r: Result<(), IoError>, written: seq<byte>)
    requires v.bytesPerCluster > 0 && clustersPerRead > 0
    ensures ReadableUpTo(v, k) && AllComplete(ClusterBytes(clustersPerRead, v.bytesPerCluster), answers) ==>
              Ended(v, k, answers, writeFaults, r, written)
  {
    var source := new Reader(v);
    var bufferLen := ClusterBytes(clustersPerRead, v.bytesPerCluster);
    ClusterBytesPositive(clustersPerRead, v.bytesPerCluster);
    var buffer := new byte[bufferLen];
    written := [];
    var calls: nat := 0;
    ghost var good := ReadableUpTo(v, k) && AllComplete(bufferLen, answers);
    if good {
      StartInSync(Cut(v, k));
    }
    while true
      invariant source.Valid() && source.volume == v && buffer.Length == bufferLen && fresh(source) && fresh(buffer)
      invariant good ==> CopiedSoFar(Cut(v, k), source.View(), written)
      decreases |v.pointers.extents| - source.extentIndex, ClustersLeft(v.pointers, source.View())
    {
      ghost var before := source.View();
      if good {
        CopyOne(v, k, before, bufferLen, answers(calls), written);
      }
      var read := ReadBytes(source, buffer, answers(calls));
      if read.Err? {
        return Err(read.error), written;
      }
      if read.value == [] {
        return Ok(()), written;
      }
      if writeFaults(calls).Some? {
        return Err(WriteFault(writeFaults(calls).value)), written;
      }
      NonEmptyReadAdvances(v, before, bufferLen, answers(calls));
      written := written + read.value;
      calls := calls + 1;
    }
  }

  ghost predicate NoFaults(answers: nat -> DiskAnswer, writeFaults: nat -> Option<int>, flushFault: Option<int>) {
    flushFault.None? && forall i: nat :: !answers(i).Fault? && writeFaults(i).None?
  }

  /**
   `copy_to`: the i-th `ReadFile` gets the i-th answer, the i-th write to the destination fails if
   `writeFaults(i)` says so, and so does the flush. It ends for every extent list and every answers.
   When the disk's answers are complete and the first k extents are all there are, or the next cannot be
   read: what was written is a prefix of their file, all of it on success. Without faults the copy fails
   exactly if the file goes on behind them, with the error of the extent that cannot be read.
   */
  method CopyTo(
    v: Volume, clustersPerRead: nat, answers: nat -> DiskAnswer, writeFaults: nat -> Option<int>,
    flushFault: Option<int>, ghost k: nat)
    returns (r: Result<(), IoError>, written: seq<byte>)
    requires v.bytesPerCluster > 0 && clustersPerRead > 0
    ensures r.Ok? ==> flushFault.None?
    ensures ReadableUpTo(v, k) && AllComplete(ClusterBytes(clustersPerRead, v.bytesPerCluster), answers) ==>
              var w := Cut(v, k);
              && written <= LogicalFile(w)
              && (r.Ok? ==> written == LogicalFile(w))
              && (r.Ok? ==> (|written| == v.fileSize <==> v.fileSize <= |Mapped(w)|))
              && (NoFaults(answers, writeFaults, flushFault) ==>
                    && (r.Err? <==> Obstacle(v, k).Some? && |Mapped(w)| < v.fileSize)
                    && (r.Err? ==> r.error == Obstacle(v, k).value && written == Mapped(w)))
  {
    r, written := CopyLoop(v, clustersPerRead, answers, writeFaults, k);
    if r.Ok? && flushFault.Some? {
      r := Err(FlushFault(flushFault.value));
    }
  }

  // ----- a sparse file -----

  /** One cluster with a 7, and one that is not allocated. */
  ghost function SparseFile(): (v: Volume)
  {
    Volume([7], 1, 2, Pointers(0, [Extent(1, 0), Extent(2, -1)]))
  }

  /** A sparse file of two bytes whose copy, by the contract of `copy_to`, fails after the first. */
  lemma SparseFileStops()
    ensures ReadableUpTo(SparseFile(), 1) && Obstacle(SparseFile(), 1) == Some(NegativeSeek)
    ensures Mapped(Cut(SparseFile(), 1)) == [7] && SparseFile().fileSize == 2
  {
    var w := Cut(SparseFile(), 1);
    assert w.pointers.extents == [Extent(1, 0)];
    assert ClusterBytes(1, 1) == 1 + ClusterBytes(0, 1);
    assert PlacedAt(w, 0);
    assert ExtentBytes(w, 0) == [7];
    assert MappedFrom(w, 1) == [];
  }
}
