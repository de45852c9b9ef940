/**
 Reading a file through its disk extents (src/file/raw.rs). The volume is a byte sequence; every
 `ReadFile` on it is answered by an environment that may fail or transfer fewer bytes than asked.
 */
module RawFile {
  import opened Wrappers
  import opened Bytes
  import opened RetrievalPointers
  import opened Sequences

  /** How the volume answers one `ReadFile`: an error, or at most `limit` bytes of those asked for. */
  datatype DiskAnswer = Fault(code: int) | Transfer(limit: nat)

  datatype IoError =
    | InsufficientBuffer
    | NotMonotonic
    | NegativeSeek
    | DiskFault(code: int)
    | WriteFault(code: int)
    | FlushFault(code: int)

  datatype Volume = Volume(disk: seq<byte>, bytesPerCluster: nat, fileSize: nat, pointers: Pointers)

  datatype Cursor = Cursor(extentIndex: nat, clusterIndex: nat, bytesRead: nat)

  const START := Cursor(0, 0, 0)

  // ----- cluster arithmetic -----

  /** The bytes in n clusters of k bytes: n times k, by repeated addition. */
  function ClusterBytes(n: nat, k: nat): (b: nat)
  {
    if n == 0 then 0 else k + ClusterBytes(n - 1, k)
  }

  lemma {:induction false} ClusterBytesIsProduct(n: nat, k: nat)
    ensures ClusterBytes(n, k) == n * k
  {
    if n > 0 {
      ClusterBytesIsProduct(n - 1, k);
    }
  }

  lemma {:induction false} ClusterBytesSum(a: nat, b: nat, k: nat)
    ensures ClusterBytes(a + b, k) == ClusterBytes(a, k) + ClusterBytes(b, k)
  {
    if a > 0 {
      ClusterBytesSum(a - 1, b, k);
    }
  }

  lemma ClusterBytesMono(a: nat, b: nat, k: nat)
    requires a <= b
    ensures ClusterBytes(a, k) <= ClusterBytes(b, k)
  {
    ClusterBytesSum(a, b - a, k);
  }

  /** `len / k` clusters fit in `len` bytes, and no more do. */
  function ClustersThatFit(len: nat, k: nat): (n: nat)
    requires k > 0
    ensures ClusterBytes(n, k) <= len < ClusterBytes(n, k) + k
    ensures len >= k ==> n > 0
  {
    ClusterBytesIsProduct(len / k, k);
    len / k
  }

  /** Clusters x up to y of a disk with clusters of k bytes. */
  ghost function ClusterSlice(disk: seq<byte>, k: nat, x: nat, y: nat): (s: seq<byte>)
    requires x <= y && ClusterBytes(y, k) <= |disk|
    ensures |s| == ClusterBytes(y - x, k)
  {
    ClusterBytesSum(x, y - x, k);
    disk[ClusterBytes(x, k)..ClusterBytes(y, k)]
  }

  lemma ClusterSliceJoin(disk: seq<byte>, k: nat, x: nat, y: nat, z: nat)
    requires x <= y <= z && ClusterBytes(z, k) <= |disk|
    ensures ClusterBytes(y, k) <= |disk|
    ensures ClusterSlice(disk, k, x, y) + ClusterSlice(disk, k, y, z) == ClusterSlice(disk, k, x, z)
  {
    ClusterBytesMono(x, y, k);
    ClusterBytesMono(y, z, k);
    JoinSlices(disk, ClusterBytes(x, k), ClusterBytes(y, k), ClusterBytes(z, k));
  }

  /** A read of n clusters at cluster x, of which the first m bytes are kept. */
  lemma ClusterSlicePrefix(disk: seq<byte>, k: nat, x: nat, n: nat, m: nat)
    requires ClusterBytes(x + n, k) <= |disk| && m <= ClusterBytes(n, k)
    ensures ClusterBytes(x, k) + ClusterBytes(n, k) <= |disk|
    ensures disk[ClusterBytes(x, k)..ClusterBytes(x, k) + m] <= ClusterSlice(disk, k, x, x + n)
  {
    ClusterBytesSum(x, n, k);
  }

  // ----- the logical file -----

  function PreviousVcn(p: Pointers, i: nat): (vcn: i64)
    requires i < |p.extents|
  {
    if i > 0 then p.extents[i - 1].nextVcn else p.startingVcn
  }

  /** Clusters in extent i; negative when the list is not monotonic there. */
  function ClusterCount(p: Pointers, i: nat): (n: int)
    requires i < |p.extents|
  {
    p.extents[i].nextVcn as int - PreviousVcn(p, i) as int
  }

  /** Extent i lies on the disk; it may have no clusters. */
  ghost predicate PlacedAt(v: Volume, i: nat)
    requires i < |v.pointers.extents|
  {
    && 0 <= ClusterCount(v.pointers, i)
    && 0 <= v.pointers.extents[i].lcn
    && ClusterBytes(v.pointers.extents[i].lcn + ClusterCount(v.pointers, i), v.bytesPerCluster) <= |v.disk|
  }

  ghost predicate Placed(v: Volume) {
    && v.bytesPerCluster > 0
    && forall i: nat :: i < |v.pointers.extents| ==> PlacedAt(v, i)
  }

  /** The bytes of clusters a up to b of extent i. */
  ghost function ExtentRange(v: Volume, i: nat, a: nat, b: nat): (s: seq<byte>)
    requires i < |v.pointers.extents| && PlacedAt(v, i) && a <= b <= ClusterCount(v.pointers, i)
    ensures |s| == ClusterBytes(b - a, v.bytesPerCluster)
  {
    var lcn: nat := v.pointers.extents[i].lcn;
    ClusterBytesMono(lcn + b, lcn + ClusterCount(v.pointers, i), v.bytesPerCluster);
    ClusterSlice(v.disk, v.bytesPerCluster, lcn + a, lcn + b)
  }

  lemma ExtentRangeJoin(v: Volume, i: nat, a: nat, b: nat, c: nat)
    requires i < |v.pointers.extents| && PlacedAt(v, i) && a <= b <= c <= ClusterCount(v.pointers, i)
    ensures ExtentRange(v, i, a, b) + ExtentRange(v, i, b, c) == ExtentRange(v, i, a, c)
  {
    var lcn: nat := v.pointers.extents[i].lcn;
    ClusterBytesMono(lcn + c, lcn + ClusterCount(v.pointers, i), v.bytesPerCluster);
    ClusterSliceJoin(v.disk, v.bytesPerCluster, lcn + a, lcn + b, lcn + c);
  }

  ghost function ExtentBytes(v: Volume, i: nat): (s: seq<byte>)
    requires i < |v.pointers.extents| && PlacedAt(v, i)
  {
    ExtentRange(v, i, 0, ClusterCount(v.pointers, i))
  }

  /** The bytes of extents i, i+1, ... in order. */
  ghost function MappedFrom(v: Volume, i: nat): (s: seq<byte>)
    requires Placed(v) && i <= |v.pointers.extents|
    decreases |v.pointers.extents| - i
  {
    if i == |v.pointers.extents| then [] else ExtentBytes(v, i) + MappedFrom(v, i + 1)
  }

  /** The bytes of the first i extents in order. */
  ghost function MappedBefore(v: Volume, i: nat): (s: seq<byte>)
    requires Placed(v) && i <= |v.pointers.extents|
  {
    if i == 0 then [] else MappedBefore(v, i - 1) + ExtentBytes(v, i - 1)
  }

  /** All bytes the extents map, in file order. */
  ghost function Mapped(v: Volume): (s: seq<byte>)
    requires Placed(v)
  {
    MappedFrom(v, 0)
  }

  lemma {:induction false} MappedSplit(v: Volume, i: nat)
    requires Placed(v) && i <= |v.pointers.extents|
    ensures Mapped(v) == MappedBefore(v, i) + MappedFrom(v, i)
  {
    if i > 0 {
      MappedSplit(v, i - 1);
      ConcatAssoc(MappedBefore(v, i - 1), ExtentBytes(v, i - 1), MappedFrom(v, i));
    }
  }

  ghost predicate OnDisk(v: Volume, c: Cursor)
    requires Placed(v)
  {
    && c.extentIndex <= |v.pointers.extents|
    && (c.extentIndex == |v.pointers.extents| ==> c.clusterIndex == 0)
    && (c.extentIndex < |v.pointers.extents| ==> c.clusterIndex <= ClusterCount(v.pointers, c.extentIndex))
  }

  /** What the extents hold before the cursor. */
  ghost function Passed(v: Volume, c: Cursor): (s: seq<byte>)
    requires Placed(v) && OnDisk(v, c)
  {
    MappedBefore(v, c.extentIndex)
    + if c.extentIndex == |v.pointers.extents| then [] else ExtentRange(v, c.extentIndex, 0, c.clusterIndex)
  }

  /** What the extents still hold after the cursor. */
  ghost function Remaining(v: Volume, c: Cursor): (s: seq<byte>)
    requires Placed(v) && OnDisk(v, c)
  {
    if c.extentIndex == |v.pointers.extents| then []
    else ExtentRange(v, c.extentIndex, c.clusterIndex, ClusterCount(v.pointers, c.extentIndex))
         + MappedFrom(v, c.extentIndex + 1)
  }

  lemma CursorSplits(v: Volume, c: Cursor)
    requires Placed(v) && OnDisk(v, c)
    ensures Mapped(v) == Passed(v, c) + Remaining(v, c)
  {
    MappedSplit(v, c.extentIndex);
    if c.extentIndex < |v.pointers.extents| {
      var i, n := c.extentIndex, ClusterCount(v.pointers, c.extentIndex);
      ExtentRangeJoin(v, i, 0, c.clusterIndex, n);
      ConcatAssoc(ExtentRange(v, i, 0, c.clusterIndex), ExtentRange(v, i, c.clusterIndex, n), MappedFrom(v, i + 1));
      ConcatAssoc(MappedBefore(v, i), ExtentRange(v, i, 0, c.clusterIndex), Remaining(v, c));
    }
  }

  /** The logical file: the mapped bytes, cut at the file size. */
  ghost function LogicalFile(v: Volume): (s: seq<byte>)
    requires Placed(v)
  {
    Mapped(v)[..Min(v.fileSize, |Mapped(v)|)]
  }

  /** The cursor stands exactly `bytesRead` bytes into the mapped bytes, unless the whole file was read. */
  ghost predicate InSync(v: Volume, c: Cursor)
    requires Placed(v)
  {
    && OnDisk(v, c)
    && c.bytesRead <= v.fileSize
    && (c.bytesRead < v.fileSize ==> c.bytesRead == |Passed(v, c)|)
  }

  // ----- the logical file, byte by byte -----

  /** The virtual cluster number at which extent i starts; behind the last extent, the number where the list ends. */
  function StartOf(p: Pointers, i: nat): (vcn: int)
    requires i <= |p.extents|
  {
    if i == 0 then p.startingVcn as int else p.extents[i - 1].nextVcn as int
  }

  lemma {:induction false} BytesBefore(v: Volume, i: nat)
    requires Placed(v) && i <= |v.pointers.extents|
    ensures v.pointers.startingVcn as int <= StartOf(v.pointers, i)
    ensures var clusters := StartOf(v.pointers, i) - v.pointers.startingVcn as int;
            |MappedBefore(v, i)| == ClusterBytes(clusters, v.bytesPerCluster)
  {
    if i > 0 {
      BytesBefore(v, i - 1);
      assert PlacedAt(v, i - 1);
      ClusterBytesSum(StartOf(v.pointers, i - 1) - v.pointers.startingVcn as int, ClusterCount(v.pointers, i - 1),
                      v.bytesPerCluster);
    }
  }

  /** The mapped bytes reach from the first cluster number of the list to the last. */
  lemma {:induction false} FileLength(v: Volume)
    requires Placed(v)
    ensures var clusters := StartOf(v.pointers, |v.pointers.extents|) - v.pointers.startingVcn as int;
            var mapped := clusters * v.bytesPerCluster;
            |Mapped(v)| == mapped && |LogicalFile(v)| == if v.fileSize < mapped then v.fileSize else mapped
  {
    var n := |v.pointers.extents|;
    MappedSplit(v, n);
    BytesBefore(v, n);
    ClusterBytesIsProduct(StartOf(v.pointers, n) - v.pointers.startingVcn as int, v.bytesPerCluster);
  }

  lemma {:induction false} ExtentByte(v: Volume, i: nat, cluster: nat, b: nat)
    requires i < |v.pointers.extents| && PlacedAt(v, i)
    requires cluster < ClusterCount(v.pointers, i) && b < v.bytesPerCluster
    ensures var at, k := ClusterBytes(cluster, v.bytesPerCluster) + b, v.pointers.extents[i].lcn as nat + cluster;
            && at < |ExtentBytes(v, i)| && ClusterBytes(k, v.bytesPerCluster) + b < |v.disk|
            && ExtentBytes(v, i)[at] == v.disk[ClusterBytes(k, v.bytesPerCluster) + b]
  {
    var size, lcn: nat := v.bytesPerCluster, v.pointers.extents[i].lcn;
    ClusterBytesMono(cluster + 1, ClusterCount(v.pointers, i), size);
    ClusterBytesSum(lcn, ClusterCount(v.pointers, i), size);
    ClusterBytesSum(lcn, cluster, size);
  }

  lemma {:induction false} MappedByte(v: Volume, i: nat, cluster: nat, b: nat, before: nat, k: nat)
    requires Placed(v) && i < |v.pointers.extents| && cluster < ClusterCount(v.pointers, i) && b < v.bytesPerCluster
    requires before == StartOf(v.pointers, i) - v.pointers.startingVcn as int
    requires k == v.pointers.extents[i].lcn as int + cluster
    ensures var at := ClusterBytes(before + cluster, v.bytesPerCluster) + b;
            && at < |Mapped(v)| && ClusterBytes(k, v.bytesPerCluster) + b < |v.disk|
            && Mapped(v)[at] == v.disk[ClusterBytes(k, v.bytesPerCluster) + b]
  {
    MappedSplit(v, i);
    BytesBefore(v, i);
    ExtentByte(v, i, cluster, b);
    ClusterBytesSum(before, cluster, v.bytesPerCluster);
  }

  /**
   Byte b of the virtual cluster `vcn` of extent i stands in the file at that cluster's place behind the first one, and
   is the byte of the volume at the same place behind the extent's logical cluster number.
   */
  lemma {:induction false} FileByteIs(v: Volume, i: nat, vcn: int, b: nat, at: nat, from: nat)
    requires Placed(v) && i < |v.pointers.extents| && b < v.bytesPerCluster
    requires StartOf(v.pointers, i) <= vcn < v.pointers.extents[i].nextVcn as int
    requires at == (vcn - v.pointers.startingVcn as int) * v.bytesPerCluster + b
    requires from == (v.pointers.extents[i].lcn as int + (vcn - StartOf(v.pointers, i))) * v.bytesPerCluster + b
    ensures at < |Mapped(v)| && from < |v.disk| && Mapped(v)[at] == v.disk[from]
    ensures at < v.fileSize ==> at < |LogicalFile(v)| && LogicalFile(v)[at] == v.disk[from]
  {
    var p := v.pointers;
    var cluster := vcn - StartOf(p, i);
    assert PlacedAt(v, i);
    var k: nat := p.extents[i].lcn as int + cluster;
    BytesBefore(v, i);
    assert ClusterBytes(vcn - p.startingVcn as int, v.bytesPerCluster) + b == at by {
      ClusterBytesIsProduct(vcn - p.startingVcn as int, v.bytesPerCluster);
    }
    assert ClusterBytes(k, v.bytesPerCluster) + b == from by {
      ClusterBytesIsProduct(k, v.bytesPerCluster);
    }
    MappedByte(v, i, cluster, b, StartOf(p, i) - p.startingVcn as int, k);
  }

  // ----- one read -----

  datatype Search = Exhausted(cursor: Cursor) | Disordered(cursor: Cursor) | Found(cursor: Cursor)

  /** Move past extents with no clusters left to read. */
  function FindExtent(p: Pointers, c: Cursor): (s: Search)
    ensures s.cursor.bytesRead == c.bytesRead
    ensures s.cursor.extentIndex >= c.extentIndex
    ensures s.Found? ==>
              && s.cursor.extentIndex < |p.extents|
              && s.cursor.clusterIndex < ClusterCount(p, s.cursor.extentIndex)
    ensures s.Found? && s.cursor.extentIndex == c.extentIndex ==> s.cursor == c
    decreases |p.extents| - c.extentIndex
  {
    if c.extentIndex >= |p.extents| then Exhausted(c)
    else if ClusterCount(p, c.extentIndex) < 0 then Disordered(c)
    else if c.clusterIndex >= ClusterCount(p, c.extentIndex) then
      FindExtent(p, c.(extentIndex := c.extentIndex + 1, clusterIndex := 0))
    else Found(c)
  }

  datatype Step = Step(cursor: Cursor, outcome: Result<seq<byte>, IoError>)

  /** Clusters asked for at a found extent. */
  function ClustersToRead(v: Volume, c: Cursor, bufferLen: nat): (n: nat)
    requires v.bytesPerCluster > 0 && c.extentIndex < |v.pointers.extents|
    requires c.clusterIndex < ClusterCount(v.pointers, c.extentIndex)
  {
    Min(ClusterCount(v.pointers, c.extentIndex) - c.clusterIndex, ClustersThatFit(bufferLen, v.bytesPerCluster))
  }

  /** The cursor's next cluster on the volume; seeking to a negative one fails. */
  function DiskCluster(v: Volume, c: Cursor): (cluster: int)
    requires c.extentIndex < |v.pointers.extents|
  {
    v.pointers.extents[c.extentIndex].lcn as int + c.clusterIndex
  }

  function DiskOffset(v: Volume, c: Cursor): (offset: nat)
    requires c.extentIndex < |v.pointers.extents| && DiskCluster(v, c) >= 0
  {
    ClusterBytes(DiskCluster(v, c), v.bytesPerCluster)
  }

  /** Bytes the volume transfers: the `as u32` cast of the request, the answer and the disk end all bound it. */
  function Transferred(v: Volume, diskOffset: nat, request: nat, limit: nat): (k: nat)
    ensures k <= request
    ensures diskOffset <= |v.disk| ==> diskOffset + k <= |v.disk|
    ensures diskOffset + request <= |v.disk| && request < 0x1_0000_0000 && request <= limit ==> k == request
  {
    var asked := Wrap32(request);
    if diskOffset > |v.disk| then 0
    else Min(Min(asked, limit), |v.disk| - diskOffset)
  }

  function DiskBytes(v: Volume, diskOffset: nat, k: nat): (s: seq<byte>)
    requires k > 0 ==> diskOffset + k <= |v.disk|
    ensures |s| == k
  {
    if k == 0 then [] else v.disk[diskOffset..diskOffset + k]
  }

  lemma DiskBytesPrefix(v: Volume, diskOffset: nat, k: nat, m: nat, out: seq<byte>)
    requires m <= k && (k > 0 ==> diskOffset + k <= |v.disk|)
    requires DiskBytes(v, diskOffset, k) <= out
    ensures DiskBytes(v, diskOffset, m) <= out
  {
  }

  function AdvanceClusters(p: Pointers, c: Cursor, clusters: nat): (r: Cursor)
    requires c.extentIndex < |p.extents|
  {
    if clusters == ClusterCount(p, c.extentIndex) - c.clusterIndex then
      c.(extentIndex := c.extentIndex + 1, clusterIndex := 0)
    else c.(clusterIndex := c.clusterIndex + clusters)
  }

  /** The read at a found extent. */
  function ReadFound(v: Volume, c: Cursor, bufferLen: nat, answer: DiskAnswer): (s: Step)
    requires v.bytesPerCluster > 0 && bufferLen >= v.bytesPerCluster
    requires c.extentIndex < |v.pointers.extents|
    requires c.clusterIndex < ClusterCount(v.pointers, c.extentIndex)
    requires c.bytesRead < v.fileSize
  {
    var clusters := ClustersToRead(v, c, bufferLen);
    if DiskCluster(v, c) < 0 then Step(c, Err(NegativeSeek))
    else match answer
      case Fault(code) => Step(c, Err(DiskFault(code)))
      case Transfer(limit) =>
        var diskOffset := DiskOffset(v, c);
        var k := Min(Transferred(v, diskOffset, ClusterBytes(clusters, v.bytesPerCluster), limit),
                     v.fileSize - c.bytesRead);
        Step(AdvanceClusters(v.pointers, c, clusters).(bytesRead := c.bytesRead + k), Ok(DiskBytes(v, diskOffset, k)))
  }

  /** One call of `Read::read` with a buffer of `bufferLen` bytes. */
  function ReadStep(v: Volume, c: Cursor, bufferLen: nat, answer: DiskAnswer): (s: Step)
    requires v.bytesPerCluster > 0
  {
    if bufferLen < v.bytesPerCluster then Step(c, Err(InsufficientBuffer))
    else if c.bytesRead >= v.fileSize then Step(c, Ok([]))
    else match FindExtent(v.pointers, c)
      case Exhausted(d) => Step(d, Ok([]))
      case Disordered(d) => Step(d, Err(NotMonotonic))
      case Found(d) => ReadFound(v, d, bufferLen, answer)
  }

  /** Extent k has no cluster left for the cursor. */
  predicate UsedUp(p: Pointers, c: Cursor, k: nat)
    requires k < |p.extents|
  {
    0 <= p.extents[k].nextVcn as int - StartOf(p, k) <= if k == c.extentIndex then c.clusterIndex else 0
  }

  /** k is the first extent from the cursor on that is not used up, or the end of the list. */
  ghost predicate Reads(p: Pointers, c: Cursor, k: nat) {
    && c.extentIndex <= k <= |p.extents|
    && (forall j :: c.extentIndex <= j < k ==> UsedUp(p, c, j))
    && (k < |p.extents| ==> !UsedUp(p, c, k))
  }

  /** The cursor at extent k. */
  function CursorAt(c: Cursor, k: nat): (d: Cursor)
  {
    if k == c.extentIndex then c else c.(extentIndex := k, clusterIndex := 0)
  }

  lemma {:induction false} FindIs(p: Pointers, c: Cursor, k: nat)
    requires Reads(p, c, k)
    ensures FindExtent(p, c) == if k == |p.extents| then Exhausted(CursorAt(c, k))
                                else if p.extents[k].nextVcn as int < StartOf(p, k) then Disordered(CursorAt(c, k))
                                else Found(CursorAt(c, k))
    decreases k - c.extentIndex
  {
    if c.extentIndex < k {
      assert UsedUp(p, c, c.extentIndex);
      var d := c.(extentIndex := c.extentIndex + 1, clusterIndex := 0);
      forall j | d.extentIndex <= j < k ensures UsedUp(p, d, j) {
        assert UsedUp(p, c, j);
      }
      FindIs(p, d, k);
    }
  }

  /** How one call ends, by the first extent that still has clusters. */
  lemma {:induction false} ReadEnds(v: Volume, c: Cursor, bufferLen: nat, answer: DiskAnswer, k: nat)
    requires v.bytesPerCluster > 0 && Reads(v.pointers, c, k)
    ensures var p, s, d := v.pointers, ReadStep(v, c, bufferLen, answer), CursorAt(c, k);
            && (bufferLen < v.bytesPerCluster ==> s == Step(c, Err(InsufficientBuffer)))
            && (bufferLen >= v.bytesPerCluster && c.bytesRead >= v.fileSize ==> s == Step(c, Ok([])))
            && (bufferLen >= v.bytesPerCluster && c.bytesRead < v.fileSize ==>
                  if k == |p.extents| then s == Step(d, Ok([]))
                  else if p.extents[k].nextVcn as int < StartOf(p, k) then s == Step(d, Err(NotMonotonic))
                  else if p.extents[k].lcn as int + d.clusterIndex < 0 then s == Step(d, Err(NegativeSeek))
                  else if answer.Fault? then s == Step(d, Err(DiskFault(answer.code)))
                  else s.outcome.Ok?)
  {
    FindIs(v.pointers, c, k);
  }

  /**
   What a call reads at extent k when the volume hands over all it is asked for: as many whole clusters as the buffer
   holds, but not beyond the extent, and no byte beyond the file.
   */
  lemma {:induction false} ReadTakes(v: Volume, c: Cursor, bufferLen: nat, k: nat, left: nat, clusters: nat, bytes: nat)
    requires v.bytesPerCluster > 0 && Reads(v.pointers, c, k) && k < |v.pointers.extents|
    requires bufferLen >= v.bytesPerCluster && c.bytesRead < v.fileSize && PlacedAt(v, k)
    requires left == v.pointers.extents[k].nextVcn as int - StartOf(v.pointers, k) - CursorAt(c, k).clusterIndex
    requires clusters == if left < bufferLen / v.bytesPerCluster then left else bufferLen / v.bytesPerCluster
    requires bytes == clusters * v.bytesPerCluster < 0x1_0000_0000
    ensures var s := ReadStep(v, c, bufferLen, Transfer(bytes));
            && s.outcome.Ok?
            && |s.outcome.value| == (if v.fileSize - c.bytesRead < bytes then v.fileSize - c.bytesRead else bytes)
            && s.cursor.extentIndex == (if clusters == left then k + 1 else k)
            && s.cursor.clusterIndex == (if clusters == left then 0 else CursorAt(c, k).clusterIndex + clusters)
  {
    var d := CursorAt(c, k);
    FindIs(v.pointers, c, k);
    assert ClustersToRead(v, d, bufferLen) == clusters;
    ClusterBytesIsProduct(clusters, v.bytesPerCluster);
    ClusterBytesSum(DiskCluster(v, d), clusters, v.bytesPerCluster);
    ClusterBytesMono(DiskCluster(v, d) + clusters, DiskCluster(v, d) + left, v.bytesPerCluster);
  }

  /**
   `read_file_from_disk_pointer`: a buffer shorter than the request is refused; otherwise the first
   bytes of the buffer become the bytes at the disk position.
   */
  method ReadFromDisk(v: Volume, out: array<byte>, diskOffset: nat, bytesToRead: u32, limit: nat)
    returns (r: Result<nat, IoError>)
    modifies out
    ensures r.Err? <==> out.Length < bytesToRead
    ensures r.Err? ==> r.error == InsufficientBuffer && out[..] == old(out[..])
    ensures r.Ok? ==>
              && r.value == Transferred(v, diskOffset, bytesToRead, limit) <= out.Length
              && DiskBytes(v, diskOffset, r.value) <= out[..]
              && out[r.value..] == old(out[r.value..])
  {
    if out.Length < bytesToRead {
      return Err(InsufficientBuffer);
    }
    var k := Transferred(v, diskOffset, bytesToRead, limit);
    for i := 0 to k
      invariant forall j :: 0 <= j < i ==> out[j] == v.disk[diskOffset + j]
      invariant forall j :: i <= j < out.Length ==> out[j] == old(out[j])
    {
      out[i] := v.disk[diskOffset + i];
    }
    return Ok(k);
  }

  /** The call returns the count of the delivered bytes and leaves them at the start of the buffer. */
  ghost predicate Reports(outcome: Result<seq<byte>, IoError>, r: Result<nat, IoError>, before: seq<byte>,
                          after: seq<byte>) {
    match outcome
    case Ok(data) => r == Ok(|data|) && data <= after
    case Err(e) => r == Err(e) && after == before
  }

  lemma {:induction false} CastIsBelow(n: nat)
    ensures Wrap32(n) <= n && Wrap32(Wrap32(n)) == Wrap32(n)
  {
    if n >= 0x1_0000_0000 {
      CastIsBelow(n - 0x1_0000_0000);
    }
  }

  /** The reader object: `read` moves three counters and fills the caller's buffer. */
  class Reader {
    const volume: Volume
    var extentIndex: nat
    var clusterIndex: nat
    var bytesRead: nat

    ghost predicate Valid() { volume.bytesPerCluster > 0 }

    function View(): (c: Cursor)
      reads this
    {
      Cursor(extentIndex, clusterIndex, bytesRead)
    }

    constructor (v: Volume)
      requires v.bytesPerCluster > 0
      ensures volume == v && View() == START && Valid()
    {
      volume := v;
      extentIndex, clusterIndex, bytesRead := 0, 0, 0;
    }

    /** The part of the loop body after a successful seek, when the disk transfers. */
    method TransferAtCursor(out: array<byte>, limit: nat) returns (readBytes: nat)
      requires Valid()
      requires extentIndex < |volume.pointers.extents|
      requires clusterIndex < ClusterCount(volume.pointers, extentIndex)
      requires out.Length >= volume.bytesPerCluster && bytesRead < volume.fileSize
      requires DiskCluster(volume, View()) >= 0
      modifies this, out
      ensures View() == ReadFound(volume, old(View()), out.Length, Transfer(limit)).cursor
      ensures Reports(ReadFound(volume, old(View()), out.Length, Transfer(limit)).outcome, Ok(readBytes), old(out[..]),
                      out[..])
    {
      ghost var start := View();
      var diskOffset := DiskOffset(volume, View());
      var clustersAvailable := ClusterCount(volume.pointers, extentIndex) - clusterIndex;
      var clustersToRead := Min(clustersAvailable, ClustersThatFit(out.Length, volume.bytesPerCluster));
      ClusterBytesMono(clustersToRead, ClustersThatFit(out.Length, volume.bytesPerCluster), volume.bytesPerCluster);
      var request := ClusterBytes(clustersToRead, volume.bytesPerCluster);
      CastIsBelow(request);
      var answered := ReadFromDisk(volume, out, diskOffset, Wrap32(request), limit);
      var transferred := answered.value;
      readBytes := Min(transferred, volume.fileSize - bytesRead);
      DiskBytesPrefix(volume, diskOffset, transferred, readBytes, out[..]);
      assert ReadFound(volume, start, out.Length, Transfer(limit)).outcome
          == Ok(DiskBytes(volume, diskOffset, readBytes));
      bytesRead := bytesRead + readBytes;
      if clustersToRead == clustersAvailable {
        extentIndex := extentIndex + 1;
        clusterIndex := 0;
      } else {
        clusterIndex := clusterIndex + clustersToRead;
      }
    }

    method Read(out: array<byte>, answer: DiskAnswer) returns (r: Result<nat, IoError>)
      requires Valid()
      modifies this, out
      ensures View() == ReadStep(volume, old(View()), out.Length, answer).cursor
      ensures Reports(ReadStep(volume, old(View()), out.Length, answer).outcome, r, old(out[..]), out[..])
    {
      if out.Length < volume.bytesPerCluster {
        return Err(InsufficientBuffer);
      }
      if bytesRead >= volume.fileSize {
        return Ok(0);
      }
      while extentIndex < |volume.pointers.extents|
        invariant bytesRead == old(bytesRead) && bytesRead < volume.fileSize && out[..] == old(out[..])
        invariant FindExtent(volume.pointers, View()) == FindExtent(volume.pointers, old(View()))
        decreases |volume.pointers.extents| - extentIndex
      {
        var extentClusters := ClusterCount(volume.pointers, extentIndex);
        if extentClusters < 0 {
          return Err(NotMonotonic);
        }
        if clusterIndex >= extentClusters {
          extentIndex := extentIndex + 1;
          clusterIndex := 0;
          continue;
        }
        if DiskCluster(volume, View()) < 0 {
          return Err(NegativeSeek);
        }
        if answer.Fault? {
          return Err(DiskFault(answer.code));
        }
        var readBytes := TransferAtCursor(out, answer.limit);
        return Ok(readBytes);
      }
      return Ok(0);
    }
  }
}
