/** MOVB: the visibility blocks of a WMO root file. A block's own layout is
    outside this model: each is kept as the bytes it was built from, and its
    on-disk width is a parameter. The count is fixed by floor division, so a
    partial tail is dropped without notice. */
module ModelVisibleBlocks {
  import opened Binary
  import opened Stride

  const Signature: seq<byte> := Ascii("MOVB")

  /** A visibility block, kept as its bytes; it serializes to them. */
  datatype VisibleBlock = VisibleBlock(raw: seq<byte>)

  datatype ModelVisibleBlocks = ModelVisibleBlocks(visibleBlocks: seq<VisibleBlock>)

  function GetSignature(): (r: seq<byte>)
    ensures r == [0x4D, 0x4F, 0x56, 0x42]
  {
    Signature
  }

  function Raws(bs: seq<VisibleBlock>): (r: seq<seq<byte>>)
    ensures |r| == |bs|
    ensures forall i :: 0 <= i < |bs| ==> r[i] == bs[i].raw
  {
    seq(|bs|, i requires 0 <= i < |bs| => bs[i].raw)
  }

  /** `length / size` blocks, block i from bytes [i*size, (i+1)*size). */
  function Load(body: seq<byte>, size: nat): (r: ModelVisibleBlocks)
    requires size > 0
    ensures |r.visibleBlocks| == |body| / size
    ensures forall i :: 0 <= i < |r.visibleBlocks| ==>
              0 <= i * size && i * size + size <= |body| && r.visibleBlocks[i].raw == body[i * size..i * size + size]
  {
    var records := FloorRecords(body, size);
    FloorShape(body, size);
    var bs := seq(|records|, i requires 0 <= i < |records| => VisibleBlock(records[i]));
    assert Raws(bs) == records;
    ModelVisibleBlocks(bs)
  }

  /** Each block's serialization, in list order. */
  function Serialize(m: ModelVisibleBlocks): seq<byte>
  {
    Flatten(Raws(m.visibleBlocks))
  }

  /** With every block `size` bytes wide, the serialized block i sits at
      bytes [i*size, (i+1)*size); an empty list writes nothing. */
  lemma SerializeSlices(m: ModelVisibleBlocks, size: nat)
    requires size > 0
    requires forall i :: 0 <= i < |m.visibleBlocks| ==> |m.visibleBlocks[i].raw| == size
    ensures |Serialize(m)| == |m.visibleBlocks| * size
    ensures forall i :: 0 <= i < |m.visibleBlocks| ==>
              0 <= i * size && i * size + size <= |Serialize(m)| && Serialize(m)[i * size..i * size + size] == m.visibleBlocks[i].raw
  {
    FlattenSlices(Raws(m.visibleBlocks), size);
  }

  /** Round trip, provided each block serializes to exactly `size` bytes. */
  lemma LoadSerialize(m: ModelVisibleBlocks, size: nat)
    requires size > 0
    requires forall i :: 0 <= i < |m.visibleBlocks| ==> |m.visibleBlocks[i].raw| == size
    ensures Load(Serialize(m), size) == m
  {
    RecordsRoundTrip(Raws(m.visibleBlocks), size);
  }

  /** Reloading and rewriting keeps the body minus its last
      `length % size` bytes. */
  lemma SerializeLoad(body: seq<byte>, size: nat)
    requires size > 0
    ensures Serialize(Load(body, size)) == body[..|body| - |body| % size]
  {
    FloorShape(body, size);
    assert Raws(Load(body, size).visibleBlocks) == FloorRecords(body, size);
  }

  /** The dropped tail makes no difference to the load. */
  lemma LoadIgnoresPartialTail(body: seq<byte>, size: nat)
    requires size > 0
    ensures Load(body, size) == Load(body[..|body| - |body| % size], size)
  {
    FloorShape(body, size);
    SerializeLoad(body, size);
    RecordsRoundTrip(FloorRecords(body, size), size);
  }
}
