/**
 The extent list of a file, as `FSCTL_GET_RETRIEVAL_POINTERS` returns it
 (src/file/win.rs): a 4-byte count, 4 reserved bytes, an 8-byte starting VCN, then one
 (next VCN, LCN) pair of 8-byte signed integers per extent.
 */
module RetrievalPointers {
  import opened Wrappers
  import opened Bytes
  import opened Sequences

  datatype Extent = Extent(nextVcn: i64, lcn: i64)

  datatype Pointers = Pointers(startingVcn: i64, extents: seq<Extent>)

  datatype ParseError = MissingHeader | MissingExtent

  function EncodeExtent(e: Extent): (s: seq<byte>)
    ensures |s| == 16
  {
    ToLe(AsUnsigned64(e.nextVcn), 8) + ToLe(AsUnsigned64(e.lcn), 8)
  }

  function EncodeExtents(es: seq<Extent>): (s: seq<byte>)
    ensures |s| == 16 * |es|
  {
    if es == [] then [] else EncodeExtents(es[..|es| - 1]) + EncodeExtent(es[|es| - 1])
  }

  lemma EncodeExtentsSnoc(es: seq<Extent>, e: Extent)
    ensures EncodeExtents(es + [e]) == EncodeExtents(es) + EncodeExtent(e)
  {
    assert (es + [e])[..|es|] == es;
  }

  /** The buffer layout: the writer's side, independent of the parser. */
  function Encode(p: Pointers, reserved: u32): (s: seq<byte>)
    ensures |s| == 16 + 16 * |p.extents|
  {
    ToLe(|p.extents|, 4) + ToLe(reserved, 4) + ToLe(AsUnsigned64(p.startingVcn), 8) + EncodeExtents(p.extents)
  }

  function SignedAt(buffer: seq<byte>, offset: nat): (r: i64)
    requires offset + 8 <= |buffer|
    ensures ToLe(AsUnsigned64(r), 8) == buffer[offset..offset + 8]
  {
    ToLeOfLeNat(buffer[offset..offset + 8]);
    AsSigned64(U64At(buffer, offset).value)
  }

  function ExtentAt(buffer: seq<byte>, offset: nat): (e: Extent)
    requires offset + 16 <= |buffer|
    ensures EncodeExtent(e) == buffer[offset..offset + 16]
  {
    JoinSlices(buffer, offset, offset + 8, offset + 16);
    Extent(SignedAt(buffer, offset), SignedAt(buffer, offset + 8))
  }

  /** The number of extents the buffer announces. */
  function DeclaredCount(buffer: seq<byte>): (n: u32)
    requires |buffer| >= 16
  {
    U32At(buffer, 0).value
  }

  /**
   `buffer_to_retrieval_pointers`. It succeeds exactly when the buffer holds every extent it
   announces, and then the result is the extent list whose encoding the buffer starts with.
   */
  method BufferToRetrievalPointers(buffer: seq<byte>) returns (r: Result<Pointers, ParseError>)
    ensures |buffer| < 16 ==> r == Err(MissingHeader)
    ensures |buffer| >= 16 ==> (r.Ok? <==> 16 + 16 * DeclaredCount(buffer) <= |buffer|)
    ensures |buffer| >= 16 && r.Err? ==> r.error == MissingExtent
    ensures r.Ok? ==> |r.value.extents| == DeclaredCount(buffer)
    ensures r.Ok? ==> Encode(r.value, U32At(buffer, 4).value) <= buffer
  {
    if |buffer| < 16 {
      return Err(MissingHeader);
    }
    var extentCount := DeclaredCount(buffer);
    var startingVcn := SignedAt(buffer, 8);
    var extents: seq<Extent> := [];
    var offset := 16;
    for i := 0 to extentCount
      invariant |extents| == i && offset == 16 + 16 * i <= |buffer|
      invariant EncodeExtents(extents) == buffer[16..offset]
    {
      if |buffer| < offset + 16 {
        return Err(MissingExtent);
      }
      var extent := ExtentAt(buffer, offset);
      EncodeExtentsSnoc(extents, extent);
      JoinSlices(buffer, 16, offset, offset + 16);
      extents := extents + [extent];
      offset := offset + 16;
    }
    HeaderEncodes(buffer, startingVcn, extents);
    r := Ok(Pointers(startingVcn, extents));
  }

  lemma HeaderEncodes(buffer: seq<byte>, startingVcn: i64, extents: seq<Extent>)
    requires |buffer| >= 16 && startingVcn == SignedAt(buffer, 8) && |extents| == DeclaredCount(buffer)
    requires EncodeExtents(extents) <= buffer[16..]
    ensures Encode(Pointers(startingVcn, extents), U32At(buffer, 4).value) <= buffer
  {
    ToLeOfLeNat(buffer[0..4]);
    ToLeOfLeNat(buffer[4..8]);
    JoinSlices(buffer, 0, 4, 8);
    JoinSlices(buffer, 0, 8, 16);
    PrefixJoin(buffer[0..16], EncodeExtents(extents), buffer);
  }

  lemma SignedOfEncoded(pre: seq<byte>, n: i64, post: seq<byte>)
    ensures SignedAt(pre + ToLe(AsUnsigned64(n), 8) + post, |pre|) == n
  {
    U64OfPlaced(pre, AsUnsigned64(n), post);
  }

  lemma EncodeExtentInjective(a: Extent, b: Extent)
    requires EncodeExtent(a) == EncodeExtent(b)
    ensures a == b
  {
    SignedOfEncoded([], a.nextVcn, ToLe(AsUnsigned64(a.lcn), 8));
    SignedOfEncoded([], b.nextVcn, ToLe(AsUnsigned64(b.lcn), 8));
    SignedOfEncoded(ToLe(AsUnsigned64(a.nextVcn), 8), a.lcn, []);
    SignedOfEncoded(ToLe(AsUnsigned64(b.nextVcn), 8), b.lcn, []);
    forall e: Extent
      ensures [] + ToLe(AsUnsigned64(e.nextVcn), 8) + ToLe(AsUnsigned64(e.lcn), 8) == EncodeExtent(e)
      ensures ToLe(AsUnsigned64(e.nextVcn), 8) + ToLe(AsUnsigned64(e.lcn), 8) + [] == EncodeExtent(e)
    {
    }
  }

  lemma {:induction false} EncodeExtentsInjective(a: seq<Extent>, b: seq<Extent>)
    requires EncodeExtents(a) == EncodeExtents(b)
    ensures a == b
  {
    assert |a| == |b|;
    if a != [] {
      var n := |a| - 1;
      var ea, eb := EncodeExtents(a[..n]), EncodeExtents(b[..n]);
      assert ea == (ea + EncodeExtent(a[n]))[..16 * n] == (eb + EncodeExtent(b[n]))[..16 * n] == eb;
      assert EncodeExtent(a[n]) == (ea + EncodeExtent(a[n]))[16 * n..] == EncodeExtent(b[n]);
      EncodeExtentsInjective(a[..n], b[..n]);
      EncodeExtentInjective(a[n], b[n]);
      assert a == a[..n] + [a[n]] && b == b[..n] + [b[n]];
    }
  }

  /**
   A buffer starts with the encoding of at most one extent list, whatever the reserved word and
   whatever trails: so the contract of `BufferToRetrievalPointers` fixes its result, and parsing
   an encoded list gives that list back.
   */
  lemma EncodeInjective(p: Pointers, q: Pointers, rp: u32, rq: u32, buffer: seq<byte>)
    requires |p.extents| < 0x1_0000_0000 && |q.extents| < 0x1_0000_0000
    requires Encode(p, rp) <= buffer && Encode(q, rq) <= buffer
    ensures p == q
  {
    Pow256Sizes();
    var a, b := Encode(p, rp), Encode(q, rq);
    LeNatOfToLe(|p.extents|, 4);
    LeNatOfToLe(|q.extents|, 4);
    assert ToLe(|p.extents|, 4) == a[..4] == buffer[..4] == b[..4] == ToLe(|q.extents|, 4);
    assert |p.extents| == |q.extents|;
    assert a == b;
    assert ToLe(AsUnsigned64(p.startingVcn), 8) == a[8..16] == b[8..16] == ToLe(AsUnsigned64(q.startingVcn), 8);
    LeNatOfToLe(AsUnsigned64(p.startingVcn), 8);
    LeNatOfToLe(AsUnsigned64(q.startingVcn), 8);
    assert EncodeExtents(p.extents) == a[16..] == b[16..] == EncodeExtents(q.extents);
    EncodeExtentsInjective(p.extents, q.extents);
  }
}
