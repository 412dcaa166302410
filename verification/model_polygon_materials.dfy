/** MOPY: the per-polygon materials of a WMO group. A material's own layout
    is outside this model: each is kept as the bytes it was built from, and
    its on-disk width is a parameter. The body is sliced while bytes remain
    with a reader that returns whatever is left, so a short final slice is
    still turned into a material. */
module ModelPolygonMaterials {
  import opened Binary
  import opened Stride

  const Signature: seq<byte> := Ascii("MOPY")

  /** A polygon material, kept as its bytes; it serializes to them. */
  datatype PolygonMaterial = PolygonMaterial(raw: seq<byte>)

  datatype ModelPolygonMaterials = ModelPolygonMaterials(polygonMaterials: seq<PolygonMaterial>)

  function GetSignature(): (r: seq<byte>)
    ensures r == [0x4D, 0x4F, 0x50, 0x59]
  {
    Signature
  }

  function Raws(ms: seq<PolygonMaterial>): (r: seq<seq<byte>>)
    ensures |r| == |ms|
    ensures forall i :: 0 <= i < |ms| ==> r[i] == ms[i].raw
  {
    seq(|ms|, i requires 0 <= i < |ms| => ms[i].raw)
  }

  /** ceil(length / size) materials whose bytes, in order, are exactly the
      body: all but the last are `size` bytes wide, and the last is
      `length % size` bytes wide when size does not divide the length. */
  function Load(body: seq<byte>, size: nat): (r: ModelPolygonMaterials)
    requires size > 0
    ensures var ms := r.polygonMaterials;
            && |ms| == (|body| + size - 1) / size
            && Flatten(Raws(ms)) == body
            && (forall i :: 0 <= i < |ms| - 1 ==> |ms[i].raw| == size)
            && (|ms| > 0 ==> 0 < |ms[|ms| - 1].raw| <= size)
            && (|ms| > 0 && |body| % size != 0 ==> |ms[|ms| - 1].raw| == |body| % size)
  {
    var records := CeilRecords(body, size);
    CeilShape(body, size);
    ModelPolygonMaterials(Wrap(records))
  }

  /** One material per slice, in order. */
  function Wrap(records: seq<seq<byte>>): (ms: seq<PolygonMaterial>)
    ensures Raws(ms) == records
  {
    var ms := seq(|records|, i requires 0 <= i < |records| => PolygonMaterial(records[i]));
    assert Raws(ms) == records;
    ms
  }

  /** Each material's serialization, in list order. */
  function Serialize(m: ModelPolygonMaterials): seq<byte>
  {
    Flatten(Raws(m.polygonMaterials))
  }

  /** With every material `size` bytes wide, the serialized material i sits at
      bytes [i*size, (i+1)*size); an empty list writes nothing. */
  lemma SerializeSlices(m: ModelPolygonMaterials, size: nat)
    requires size > 0
    requires forall i :: 0 <= i < |m.polygonMaterials| ==> |m.polygonMaterials[i].raw| == size
    ensures |Serialize(m)| == |m.polygonMaterials| * size
    ensures forall i :: 0 <= i < |m.polygonMaterials| ==>
              0 <= i * size && i * size + size <= |Serialize(m)| && Serialize(m)[i * size..i * size + size] == m.polygonMaterials[i].raw
  {
    FlattenSlices(Raws(m.polygonMaterials), size);
  }

  /** Round trip, provided each material serializes to exactly `size`
      bytes. */
  lemma LoadSerialize(m: ModelPolygonMaterials, size: nat)
    requires size > 0
    requires forall i :: 0 <= i < |m.polygonMaterials| ==> |m.polygonMaterials[i].raw| == size
    ensures Load(Serialize(m), size) == m
  {
    RecordsRoundTrip(Raws(m.polygonMaterials), size);
    assert Raws(Load(Serialize(m), size).polygonMaterials) == Raws(m.polygonMaterials);
  }
}
