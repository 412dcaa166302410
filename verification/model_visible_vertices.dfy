/** MOVV: the vertices of a WMO root file's visibility geometry, a body of
    12-byte vectors counted by floor division, so a partial tail is never
    read. */
module ModelVisibleVertices {
  import opened Binary
  import opened Stride
  import opened Vectors

  const Signature: seq<byte> := Ascii("MOVV")

  datatype ModelVisibleVertices = ModelVisibleVertices(visibleVertices: seq<Vector3>)

  function GetSignature(): (r: seq<byte>)
    ensures r == [0x4D, 0x4F, 0x56, 0x56]
  {
    Signature
  }

  function Raws(vs: seq<Vector3>): (r: seq<seq<byte>>)
    ensures |r| == |vs|
    ensures forall i :: 0 <= i < |vs| ==> r[i] == vs[i].raw
  {
    seq(|vs|, i requires 0 <= i < |vs| => vs[i].raw)
  }

  /** `length / 12` vectors, vertex i from bytes [12i, 12i + 12); the last
      `length % 12` bytes are not read. */
  function Load(body: seq<byte>): (r: ModelVisibleVertices)
    ensures |r.visibleVertices| == |body| / 12
    ensures forall i :: 0 <= i < |r.visibleVertices| ==>
              && 12 * i + 12 <= |body|
              && IsVector3(r.visibleVertices[i])
              && r.visibleVertices[i].raw == body[12 * i..12 * i + 12]
  {
    var records := FloorRecords(body, Vector3Size);
    FloorShape(body, Vector3Size);
    ModelVisibleVertices(seq(|records|, i requires 0 <= i < |records| => Vector3(records[i])))
  }

  /** The vertices' bytes in list order. */
  function Serialize(m: ModelVisibleVertices): seq<byte>
  {
    Flatten(Raws(m.visibleVertices))
  }

  /** The serialized vertex i sits at bytes [12i, 12i + 12); an empty list
      writes nothing. */
  lemma SerializeSlices(m: ModelVisibleVertices)
    requires forall i :: 0 <= i < |m.visibleVertices| ==> IsVector3(m.visibleVertices[i])
    ensures |Serialize(m)| == 12 * |m.visibleVertices|
    ensures forall i :: 0 <= i < |m.visibleVertices| ==>
              Serialize(m)[12 * i..12 * i + 12] == m.visibleVertices[i].raw
  {
    FlattenSlices(Raws(m.visibleVertices), Vector3Size);
  }

  lemma LoadSerialize(m: ModelVisibleVertices)
    requires forall i :: 0 <= i < |m.visibleVertices| ==> IsVector3(m.visibleVertices[i])
    ensures Load(Serialize(m)) == m
  {
    RecordsRoundTrip(Raws(m.visibleVertices), Vector3Size);
  }

  /** Reloading and rewriting keeps the body minus its partial tail. */
  lemma SerializeLoad(body: seq<byte>)
    ensures Serialize(Load(body)) == body[..|body| - |body| % 12]
  {
    FloorShape(body, Vector3Size);
    assert Raws(Load(body).visibleVertices) == FloorRecords(body, Vector3Size);
  }

  /** The trailing `length % 12` bytes make no difference to the load. */
  lemma LoadIgnoresPartialTail(body: seq<byte>)
    ensures Load(body) == Load(body[..|body| - |body| % 12])
  {
    var whole := body[..|body| - |body| % 12];
    FloorShape(body, Vector3Size);
    FloorShape(whole, Vector3Size);
    SerializeLoad(body);
    RecordsRoundTrip(FloorRecords(body, Vector3Size), Vector3Size);
  }
}
