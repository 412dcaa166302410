/** MOBR: the face indices of a WMO group's BSP tree, a body of consecutive
    little-endian uint16 values read until the body is exhausted. */
module ModelBspFaceIndices {
  import opened Binary
  import opened Stride

  const Signature: seq<byte> := Ascii("MOBR")

  /** The width of one index on disk. */
  const IndexSize: nat := 2

  datatype ModelBspFaceIndices = ModelBspFaceIndices(bspFaceIndices: seq<uint16>)

  function GetSignature(): (r: seq<byte>)
    ensures r == [0x4D, 0x4F, 0x42, 0x52]
  {
    Signature
  }

  /** Each two-byte record as a uint16. */
  function DecodeIndices(records: seq<seq<byte>>): (r: seq<uint16>)
    requires AllWidth(records, IndexSize)
    ensures |r| == |records|
    ensures forall i :: 0 <= i < |r| ==> EncodeUInt16(r[i]) == records[i]
  {
    seq(|records|, i requires 0 <= i < |records| =>
      EncodeDecodeUInt16(records[i]);
      DecodeUInt16(records[i]))
  }

  /** Each index as its two little-endian bytes. */
  function EncodeIndices(indices: seq<uint16>): (r: seq<seq<byte>>)
    ensures |r| == |indices| && AllWidth(r, IndexSize)
    ensures forall i :: 0 <= i < |r| ==> DecodeUInt16(r[i]) == indices[i]
  {
    seq(|indices|, i requires 0 <= i < |indices| => EncodeUInt16(indices[i]))
  }

  /** ReadUInt16 while bytes remain: an even body gives one index per two
      bytes in file order; on an odd body the last read runs past the end. */
  function Load(body: seq<byte>): (r: Result<ModelBspFaceIndices>)
    ensures r.Ok? <==> |body| % 2 == 0
    ensures r.Ok? ==> |r.value.bspFaceIndices| == |body| / 2
    ensures r.Ok? ==> forall i :: 0 <= i < |r.value.bspFaceIndices| ==>
                        2 * i + 2 <= |body| && EncodeUInt16(r.value.bspFaceIndices[i]) == body[2 * i..2 * i + 2]
  {
    ExactShape(body, IndexSize);
    var records :- ExactRecords(body, IndexSize);
    FloorShape(body, IndexSize);
    Ok(ModelBspFaceIndices(DecodeIndices(records)))
  }

  /** Each index as two little-endian bytes, in list order. */
  function Serialize(m: ModelBspFaceIndices): (r: seq<byte>)
    ensures |r| == 2 * |m.bspFaceIndices|
    ensures forall i :: 0 <= i < |m.bspFaceIndices| ==>
              DecodeUInt16(r[2 * i..2 * i + 2]) == m.bspFaceIndices[i]
  {
    var records := EncodeIndices(m.bspFaceIndices);
    FlattenSlices(records, IndexSize);
    Flatten(records)
  }

  /** Loading the output of Serialize gives back the original list. */
  lemma LoadSerialize(m: ModelBspFaceIndices)
    ensures Load(Serialize(m)) == Ok(m)
  {
    var records := EncodeIndices(m.bspFaceIndices);
    RecordsRoundTrip(records, IndexSize);
    assert DecodeIndices(records) == m.bspFaceIndices;
  }

  /** Serializing a loaded body reproduces it byte for byte. */
  lemma SerializeLoad(body: seq<byte>)
    requires Load(body).Ok?
    ensures Serialize(Load(body).value) == body
  {
    ExactShape(body, IndexSize);
    FloorShape(body, IndexSize);
    var records := ExactRecords(body, IndexSize).value;
    assert EncodeIndices(DecodeIndices(records)) == records;
    assert body[..|body| - |body| % 2] == body;
  }
}
