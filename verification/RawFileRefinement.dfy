/**
 The cursor of `RawFile` refines "read the next bytes of the logical file" for every sequence of
 buffer sizes; and exactly which disk answers break this.
 */
module RawFileRefinement {
  import opened Wrappers
  import opened Bytes
  import opened RetrievalPointers
  import opened Sequences
  import opened RawFile

  // ----- moving the cursor -----

  /** Skipping empty extents moves over no bytes. */
  lemma {:induction false} FindKeepsPosition(v: Volume, c: Cursor)
    requires Placed(v) && OnDisk(v, c)
    ensures !FindExtent(v.pointers, c).Disordered?
    ensures OnDisk(v, FindExtent(v.pointers, c).cursor)
    ensures Passed(v, FindExtent(v.pointers, c).cursor) == Passed(v, c)
    ensures FindExtent(v.pointers, c).Exhausted? ==> Passed(v, c) == Mapped(v)
    decreases |v.pointers.extents| - c.extentIndex
  {
    var p := v.pointers;
    if c.extentIndex == |p.extents| {
      CursorSplits(v, c);
    } else {
      assert PlacedAt(v, c.extentIndex);
      if c.clusterIndex >= ClusterCount(p, c.extentIndex) {
        PassWholeExtent(v, c);
        FindKeepsPosition(v, c.(extentIndex := c.extentIndex + 1, clusterIndex := 0));
      }
    }
  }

  lemma PassWholeExtent(v: Volume, c: Cursor)
    requires Placed(v) && OnDisk(v, c) && c.extentIndex < |v.pointers.extents|
    requires c.clusterIndex == ClusterCount(v.pointers, c.extentIndex)
    ensures OnDisk(v, c.(extentIndex := c.extentIndex + 1, clusterIndex := 0))
    ensures Passed(v, c.(extentIndex := c.extentIndex + 1, clusterIndex := 0)) == Passed(v, c)
  {
    var next := c.(extentIndex := c.extentIndex + 1, clusterIndex := 0);
    assert OnDisk(v, next) by {
      if next.extentIndex < |v.pointers.extents| {
        assert PlacedAt(v, next.extentIndex);
      }
    }
    assert MappedBefore(v, next.extentIndex) == MappedBefore(v, c.extentIndex) + ExtentBytes(v, c.extentIndex);
    if next.extentIndex < |v.pointers.extents| {
      assert ExtentRange(v, next.extentIndex, 0, 0) == [];
    }
  }

  /** Advancing by n clusters moves over exactly those clusters. */
  lemma AdvancePasses(v: Volume, c: Cursor, n: nat)
    requires Placed(v) && OnDisk(v, c) && c.extentIndex < |v.pointers.extents|
    requires c.clusterIndex + n <= ClusterCount(v.pointers, c.extentIndex)
    ensures OnDisk(v, AdvanceClusters(v.pointers, c, n))
    ensures Passed(v, AdvanceClusters(v.pointers, c, n))
         == Passed(v, c) + ExtentRange(v, c.extentIndex, c.clusterIndex, c.clusterIndex + n)
  {
    var i := c.extentIndex;
    var moved := c.(clusterIndex := c.clusterIndex + n);
    ExtentRangeJoin(v, i, 0, c.clusterIndex, c.clusterIndex + n);
    ConcatAssoc(MappedBefore(v, i), ExtentRange(v, i, 0, c.clusterIndex),
                ExtentRange(v, i, c.clusterIndex, c.clusterIndex + n));
    assert Passed(v, moved) == Passed(v, c) + ExtentRange(v, i, c.clusterIndex, c.clusterIndex + n);
    if c.clusterIndex + n == ClusterCount(v.pointers, i) {
      PassWholeExtent(v, moved);
    }
  }

  // ----- one read -----

  /** How many bytes this read asks the volume for, before the `as u32` cast. */
  ghost function Request(v: Volume, c: Cursor, bufferLen: nat): (n: nat)
    requires Placed(v) && OnDisk(v, c) && bufferLen >= v.bytesPerCluster && FindExtent(v.pointers, c).Found?
  {
    ClusterBytes(ClustersToRead(v, FindExtent(v.pointers, c).cursor, bufferLen), v.bytesPerCluster)
  }

  /** How many bytes the volume hands over for it. */
  ghost function Handed(v: Volume, c: Cursor, bufferLen: nat, limit: nat): (n: nat)
    requires Placed(v) && OnDisk(v, c) && bufferLen >= v.bytesPerCluster && FindExtent(v.pointers, c).Found?
  {
    var d := FindExtent(v.pointers, c).cursor;
    assert PlacedAt(v, d.extentIndex);
    Transferred(v, DiskOffset(v, d), Request(v, c, bufferLen), limit)
  }

  lemma ClusterBytesPositive(n: nat, k: nat)
    requires n > 0
    ensures ClusterBytes(n, k) >= k
  {
    ClusterBytesMono(1, n, k);
    assert ClusterBytes(1, k) == k + ClusterBytes(0, k);
  }

  /** The n clusters at the cursor are on the disk, at its disk offset. */
  lemma RequestOnDisk(v: Volume, c: Cursor, n: nat)
    requires c.extentIndex < |v.pointers.extents| && PlacedAt(v, c.extentIndex)
    requires c.clusterIndex + n <= ClusterCount(v.pointers, c.extentIndex)
    ensures DiskCluster(v, c) >= 0
    ensures ClusterBytes(DiskCluster(v, c) + n, v.bytesPerCluster) <= |v.disk|
    ensures DiskOffset(v, c) + ClusterBytes(n, v.bytesPerCluster) <= |v.disk|
  {
    var x: nat := DiskCluster(v, c);
    ClusterBytesMono(x + n, v.pointers.extents[c.extentIndex].lcn + ClusterCount(v.pointers, c.extentIndex),
                     v.bytesPerCluster);
    ClusterBytesSum(x, n, v.bytesPerCluster);
  }

  lemma RequestBytes(v: Volume, c: Cursor, n: nat, m: nat)
    requires c.extentIndex < |v.pointers.extents| && PlacedAt(v, c.extentIndex)
    requires c.clusterIndex + n <= ClusterCount(v.pointers, c.extentIndex) && m <= ClusterBytes(n, v.bytesPerCluster)
    requires DiskCluster(v, c) >= 0
    requires DiskOffset(v, c) + ClusterBytes(n, v.bytesPerCluster) <= |v.disk|
    ensures DiskBytes(v, DiskOffset(v, c), m) <= ExtentRange(v, c.extentIndex, c.clusterIndex, c.clusterIndex + n)
  {
    RequestOnDisk(v, c, n);
    ClusterSlicePrefix(v.disk, v.bytesPerCluster, DiskCluster(v, c), n, m);
  }

  lemma SamePosition(v: Volume, a: Cursor, b: Cursor)
    requires Placed(v) && OnDisk(v, a) && b == a.(bytesRead := b.bytesRead)
    ensures OnDisk(v, b) && Passed(v, b) == Passed(v, a)
  {
  }

  /** The clusters a read at a found extent asks for. */
  ghost function Asked(v: Volume, c: Cursor, bufferLen: nat): (s: seq<byte>)
    requires c.extentIndex < |v.pointers.extents| && PlacedAt(v, c.extentIndex)
    requires v.bytesPerCluster > 0 && c.clusterIndex < ClusterCount(v.pointers, c.extentIndex)
    ensures |s| == ClusterBytes(ClustersToRead(v, c, bufferLen), v.bytesPerCluster)
  {
    ExtentRange(v, c.extentIndex, c.clusterIndex, c.clusterIndex + ClustersToRead(v, c, bufferLen))
  }

  /** What a transferring read at a found extent delivers: a prefix of the clusters it asked for. */
  lemma ReadFoundDelivers(v: Volume, c: Cursor, bufferLen: nat, limit: nat)
    requires c.bytesRead < v.fileSize && v.bytesPerCluster > 0 && bufferLen >= v.bytesPerCluster
    requires c.extentIndex < |v.pointers.extents| && PlacedAt(v, c.extentIndex)
    requires c.clusterIndex < ClusterCount(v.pointers, c.extentIndex)
    ensures DiskCluster(v, c) >= 0
    ensures ReadFound(v, c, bufferLen, Transfer(limit)).outcome.Ok?
    ensures var data := ReadFound(v, c, bufferLen, Transfer(limit)).outcome.value;
            && |data| == Min(Transferred(v, DiskOffset(v, c), |Asked(v, c, bufferLen)|, limit),
                             v.fileSize - c.bytesRead)
            && data <= Asked(v, c, bufferLen)
  {
    var n := ClustersToRead(v, c, bufferLen);
    RequestOnDisk(v, c, n);
    RequestBytes(v, c, n, |ReadFound(v, c, bufferLen, Transfer(limit)).outcome.value|);
  }

  lemma ReadFoundCursor(v: Volume, c: Cursor, bufferLen: nat, limit: nat)
    requires c.bytesRead < v.fileSize && v.bytesPerCluster > 0 && bufferLen >= v.bytesPerCluster
    requires c.extentIndex < |v.pointers.extents| && PlacedAt(v, c.extentIndex)
    requires c.clusterIndex < ClusterCount(v.pointers, c.extentIndex)
    ensures var s := ReadFound(v, c, bufferLen, Transfer(limit));
            && s.outcome.Ok?
            && s.cursor
               == AdvanceClusters(v.pointers, c, ClustersToRead(v, c, bufferLen))
                  .(bytesRead := c.bytesRead + |s.outcome.value|)
  {
  }

  /** Where a transferring read at a found extent leaves the cursor: past all it asked for. */
  lemma ReadFoundMoves(v: Volume, c: Cursor, bufferLen: nat, d: Cursor)
    requires Placed(v) && OnDisk(v, c)
    requires c.extentIndex < |v.pointers.extents| && PlacedAt(v, c.extentIndex)
    requires c.clusterIndex < ClusterCount(v.pointers, c.extentIndex)
    requires d == AdvanceClusters(v.pointers, c, ClustersToRead(v, c, bufferLen)).(bytesRead := d.bytesRead)
    ensures OnDisk(v, d) && Passed(v, d) == Passed(v, c) + Asked(v, c, bufferLen)
  {
    var n := ClustersToRead(v, c, bufferLen);
    AdvancePasses(v, c, n);
    SamePosition(v, AdvanceClusters(v.pointers, c, n), d);
  }

  /** A read that transfers delivers the next bytes of the file. */
  lemma ReadDelivers(v: Volume, c: Cursor, bufferLen: nat, limit: nat)
    requires Placed(v) && InSync(v, c) && c.bytesRead < v.fileSize && bufferLen >= v.bytesPerCluster
    requires FindExtent(v.pointers, c).Found?
    ensures var s := ReadStep(v, c, bufferLen, Transfer(limit));
            && s.outcome.Ok?
            && c.bytesRead <= s.cursor.bytesRead <= |LogicalFile(v)|
            && s.outcome.value == LogicalFile(v)[c.bytesRead..s.cursor.bytesRead]
  {
    FindKeepsPosition(v, c);
    var d := FindExtent(v.pointers, c).cursor;
    assert PlacedAt(v, d.extentIndex);
    ReadFoundDelivers(v, d, bufferLen, limit);
    ReadFoundCursor(v, d, bufferLen, limit);
    var s := ReadFound(v, d, bufferLen, Transfer(limit));
    ReadFoundMoves(v, d, bufferLen, s.cursor);
    CursorSplits(v, s.cursor);
    DeliveredSlice(Mapped(v), Passed(v, d), Asked(v, d, bufferLen), Remaining(v, s.cursor), s.outcome.value,
                   v.fileSize);
  }

  /**
   The exact condition for the next read to be right as well: the cursor is back in step with
   `bytesRead` if and only if the volume handed over everything asked for, or all the file still had.
   */
  lemma ReadStaysInSync(v: Volume, c: Cursor, bufferLen: nat, limit: nat)
    requires Placed(v) && InSync(v, c) && c.bytesRead < v.fileSize && bufferLen >= v.bytesPerCluster
    requires FindExtent(v.pointers, c).Found?
    ensures InSync(v, ReadStep(v, c, bufferLen, Transfer(limit)).cursor)
            <==> Handed(v, c, bufferLen, limit) >= Min(Request(v, c, bufferLen), v.fileSize - c.bytesRead)
    ensures Request(v, c, bufferLen) > 0
  {
    FindKeepsPosition(v, c);
    var d := FindExtent(v.pointers, c).cursor;
    assert PlacedAt(v, d.extentIndex);
    ReadFoundDelivers(v, d, bufferLen, limit);
    ReadFoundCursor(v, d, bufferLen, limit);
    ReadFoundMoves(v, d, bufferLen, ReadFound(v, d, bufferLen, Transfer(limit)).cursor);
    ClusterBytesPositive(ClustersToRead(v, d, bufferLen), v.bytesPerCluster);
  }

  /** Bytes behind what was passed, cut at the file size, are the file's next bytes. */
  lemma DeliveredSlice(
    whole: seq<byte>, before: seq<byte>, range: seq<byte>, after: seq<byte>, data: seq<byte>, size: nat)
    requires whole == (before + range) + after && data <= range && |before| + |data| <= size
    ensures |before| + |data| <= |whole[..Min(size, |whole|)]|
    ensures whole[..Min(size, |whole|)][|before|..|before| + |data|] == data
  {
    var from, to, cut := |before|, |before| + |data|, Min(size, |whole|);
    assert to <= cut <= |whole|;
    SliceOfPrefix(whole, cut, from, to);
    assert whole[from..to] == range[..|data|];
    assert range[..|data|] == data;
  }

  lemma SliceOfPrefix(s: seq<byte>, cut: nat, from: nat, to: nat)
    requires from <= to <= cut <= |s|
    ensures s[..cut][from..to] == s[from..to]
  {
  }

  /** A complete answer: the volume fails, or has the whole request, which is under 4 GiB. */
  predicate Complete(bufferLen: nat, answer: DiskAnswer) {
    answer.Fault? || (bufferLen < 0x1_0000_0000 && bufferLen <= answer.limit)
  }

  /** Every call with a complete answer keeps the cursor in step and delivers the next file bytes. */
  lemma StepInSync(v: Volume, c: Cursor, bufferLen: nat, answer: DiskAnswer)
    requires Placed(v) && InSync(v, c) && Complete(bufferLen, answer)
    ensures var s := ReadStep(v, c, bufferLen, answer);
            && InSync(v, s.cursor)
            && c.bytesRead <= s.cursor.bytesRead
            && (s.outcome.Err? ==> s.cursor.bytesRead == c.bytesRead)
            && (c.bytesRead <= |LogicalFile(v)| ==>
                  && s.cursor.bytesRead <= |LogicalFile(v)|
                  && (s.outcome.Ok? ==> s.outcome.value == LogicalFile(v)[c.bytesRead..s.cursor.bytesRead])
                  && (s.outcome == Ok([]) ==> c.bytesRead == |LogicalFile(v)|))
  {
    if bufferLen >= v.bytesPerCluster && c.bytesRead < v.fileSize {
      FindKeepsPosition(v, c);
      var f := FindExtent(v.pointers, c);
      CursorSplits(v, c);
      if f.Found? {
        assert PlacedAt(v, f.cursor.extentIndex);
        if answer.Transfer? {
          HandedWhenComplete(v, c, bufferLen, answer.limit);
          ReadDelivers(v, c, bufferLen, answer.limit);
          ReadStaysInSync(v, c, bufferLen, answer.limit);
        }
      }
    }
  }

  lemma HandedWhenComplete(v: Volume, c: Cursor, bufferLen: nat, limit: nat)
    requires Placed(v) && OnDisk(v, c) && bufferLen >= v.bytesPerCluster && FindExtent(v.pointers, c).Found?
    requires bufferLen < 0x1_0000_0000 && bufferLen <= limit
    ensures Handed(v, c, bufferLen, limit) == Request(v, c, bufferLen)
  {
    var d := FindExtent(v.pointers, c).cursor;
    var n, bpc := ClustersToRead(v, d, bufferLen), v.bytesPerCluster;
    FindKeepsPosition(v, c);
    ClusterBytesMono(n, ClustersThatFit(bufferLen, bpc), bpc);
    RequestOnDisk(v, d, n);
  }

  // ----- runs -----

  datatype Call = Call(bufferLen: nat, answer: DiskAnswer)

  /** The cursor after the calls, and everything the successful ones delivered. */
  ghost function Run(v: Volume, c: Cursor, calls: seq<Call>): (r: (Cursor, seq<byte>))
    requires v.bytesPerCluster > 0
    decreases |calls|
  {
    if calls == [] then (c, [])
    else
      var s := ReadStep(v, c, calls[0].bufferLen, calls[0].answer);
      var rest := Run(v, s.cursor, calls[1..]);
      (rest.0, if s.outcome.Ok? then s.outcome.value + rest.1 else rest.1)
  }

  /**
   For every extent list and every sequence of reads, failed ones included, whose disk answers are
   complete: what was delivered is exactly the stretch of the logical file between the two cursors,
   so from the start it is the first `bytesRead` bytes, none lost or repeated.
   */
  lemma {:induction false} ReadsRefineFile(v: Volume, c: Cursor, calls: seq<Call>)
    requires Placed(v) && InSync(v, c) && c.bytesRead <= |LogicalFile(v)|
    requires forall i :: 0 <= i < |calls| ==> Complete(calls[i].bufferLen, calls[i].answer)
    ensures var (d, delivered) := Run(v, c, calls);
            && InSync(v, d)
            && c.bytesRead <= d.bytesRead <= |LogicalFile(v)|
            && delivered == LogicalFile(v)[c.bytesRead..d.bytesRead]
    decreases |calls|
  {
    if calls != [] {
      StepInSync(v, c, calls[0].bufferLen, calls[0].answer);
      var s := ReadStep(v, c, calls[0].bufferLen, calls[0].answer);
      ReadsRefineFile(v, s.cursor, calls[1..]);
      JoinSlices(LogicalFile(v), c.bytesRead, s.cursor.bytesRead, Run(v, c, calls).0.bytesRead);
    }
  }

  lemma StartInSync(v: Volume)
    requires Placed(v)
    ensures InSync(v, START)
  {
    if |v.pointers.extents| > 0 {
      assert PlacedAt(v, 0);
    }
    assert Passed(v, START) == [];
  }

  /** Two one-byte clusters holding 7 and 9. */
  ghost function TwoClusters(): (v: Volume)
  {
    Volume([7, 9], 1, 2, Pointers(0, [Extent(2, 0)]))
  }

  lemma TwoClustersLayout()
    ensures Placed(TwoClusters()) && LogicalFile(TwoClusters()) == [7, 9]
  {
    var v := TwoClusters();
    assert ClusterBytes(2, 1) == 2 by {
      assert ClusterBytes(1, 1) == 1 + ClusterBytes(0, 1);
      assert ClusterBytes(2, 1) == 1 + ClusterBytes(1, 1);
    }
    assert Placed(v);
    assert ExtentBytes(v, 0) == [7, 9];
    assert MappedFrom(v, 1) == [];
  }

  lemma FirstReadIsShort()
    ensures ReadStep(TwoClusters(), START, 2, Transfer(1)) == Step(Cursor(1, 0, 1), Ok([7]))
  {
    assert ClusterBytes(1, 1) == 1 + ClusterBytes(0, 1);
    assert ClusterBytes(2, 1) == 1 + ClusterBytes(1, 1);
    assert FindExtent(TwoClusters().pointers, START) == Found(START);
    assert ClustersToRead(TwoClusters(), START, 2) == 2;
    assert Transferred(TwoClusters(), 0, 2, 1) == 1;
    assert DiskBytes(TwoClusters(), 0, 1) == [7];
  }

  lemma SecondReadIsEmpty()
    ensures ReadStep(TwoClusters(), Cursor(1, 0, 1), 2, Transfer(2)) == Step(Cursor(1, 0, 1), Ok([]))
  {
    assert FindExtent(TwoClusters().pointers, Cursor(1, 0, 1)) == Exhausted(Cursor(1, 0, 1));
  }

  /**
   The smallest failure: a two-byte buffer, and a volume that hands over one byte first. The second
   byte is never delivered although the next call reports the end of the file.
   */
  lemma ShortReadLosesBytes()
    ensures ReadStep(TwoClusters(), START, 2, Transfer(1)) == Step(Cursor(1, 0, 1), Ok([7]))
    ensures ReadStep(TwoClusters(), Cursor(1, 0, 1), 2, Transfer(2)) == Step(Cursor(1, 0, 1), Ok([]))
    ensures Placed(TwoClusters()) && LogicalFile(TwoClusters()) == [7, 9]
  {
    TwoClustersLayout();
    FirstReadIsShort();
    SecondReadIsEmpty();
  }
}
