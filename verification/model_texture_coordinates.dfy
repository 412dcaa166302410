/** MOTV: the texture coordinates of a WMO group, a body of 8-byte vectors
    read while bytes remain, so a partial final pair makes the read fail. */
module ModelTextureCoordinates {
  import opened Binary
  import opened Stride
  import opened Vectors

  const Signature: seq<byte> := Ascii("MOTV")

  datatype ModelTextureCoordinates = ModelTextureCoordinates(textureCoordinates: seq<Vector2>)

  function GetSignature(): (r: seq<byte>)
    ensures r == [0x4D, 0x4F, 0x54, 0x56]
  {
    Signature
  }

  function Raws(vs: seq<Vector2>): (r: seq<seq<byte>>)
    ensures |r| == |vs|
    ensures forall i :: 0 <= i < |vs| ==> r[i] == vs[i].raw
  {
    seq(|vs|, i requires 0 <= i < |vs| => vs[i].raw)
  }

  /** ReadVector2 until the position reaches the length: pair i from bytes
      [8i, 8i + 8), in file order; an empty body gives an empty list, and a
      length that is not a multiple of 8 makes the last read run past the
      end. */
  function Load(body: seq<byte>): (r: Result<ModelTextureCoordinates>)
    ensures r.Ok? <==> |body| % 8 == 0
    ensures r.Ok? ==> |r.value.textureCoordinates| == |body| / 8
    ensures r.Ok? ==> forall i :: 0 <= i < |r.value.textureCoordinates| ==>
                        && 8 * i + 8 <= |body|
                        && IsVector2(r.value.textureCoordinates[i])
                        && r.value.textureCoordinates[i].raw == body[8 * i..8 * i + 8]
  {
    ExactShape(body, Vector2Size);
    var records :- ExactRecords(body, Vector2Size);
    FloorShape(body, Vector2Size);
    Ok(ModelTextureCoordinates(seq(|records|, i requires 0 <= i < |records| => Vector2(records[i]))))
  }

  /** The pairs' bytes in list order. */
  function Serialize(m: ModelTextureCoordinates): seq<byte>
  {
    Flatten(Raws(m.textureCoordinates))
  }

  /** The serialized pair i sits at bytes [8i, 8i + 8). */
  lemma SerializeSlices(m: ModelTextureCoordinates)
    requires forall i :: 0 <= i < |m.textureCoordinates| ==> IsVector2(m.textureCoordinates[i])
    ensures |Serialize(m)| == 8 * |m.textureCoordinates|
    ensures forall i :: 0 <= i < |m.textureCoordinates| ==>
              Serialize(m)[8 * i..8 * i + 8] == m.textureCoordinates[i].raw
  {
    FlattenSlices(Raws(m.textureCoordinates), Vector2Size);
  }

  lemma LoadSerialize(m: ModelTextureCoordinates)
    requires forall i :: 0 <= i < |m.textureCoordinates| ==> IsVector2(m.textureCoordinates[i])
    ensures Load(Serialize(m)) == Ok(m)
  {
    RecordsRoundTrip(Raws(m.textureCoordinates), Vector2Size);
    assert Load(Serialize(m)).value.textureCoordinates == m.textureCoordinates;
  }

  lemma SerializeLoad(body: seq<byte>)
    requires Load(body).Ok?
    ensures Serialize(Load(body).value) == body
  {
    ExactShape(body, Vector2Size);
    FloorShape(body, Vector2Size);
    assert Raws(Load(body).value.textureCoordinates) == FloorRecords(body, Vector2Size);
    assert body[..|body| - |body| % 8] == body;
  }
}
