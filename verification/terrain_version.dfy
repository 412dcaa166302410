/** MVER: the version chunk of terrain files and model groups, a single
    little-endian uint32. */
module TerrainVersion {
  import opened Binary

  const Signature: seq<byte> := Ascii("MVER")

  datatype TerrainVersion = TerrainVersion(version: uint32)

  /** The size of the chunk's data. */
  function GetSize(): nat {
    4
  }

  /** The first four bytes as a uint32; bytes after them are not read, and a
      shorter body makes the read fail. */
  function Load(body: seq<byte>): (r: Result<TerrainVersion>)
    ensures r.Ok? <==> |body| >= GetSize()
    ensures r.Ok? ==> EncodeUInt32(r.value.version) == body[..GetSize()]
  {
    if |body| < 4 then Err(TruncatedInput)
    else
      EncodeDecodeUInt32(body[..4]);
      Ok(TerrainVersion(DecodeUInt32(body[..4])))
  }

  function Serialize(t: TerrainVersion): (r: seq<byte>)
    ensures |r| == GetSize()
    ensures DecodeUInt32(r) == t.version
  {
    EncodeUInt32(t.version)
  }

  lemma LoadSerialize(t: TerrainVersion)
    ensures Load(Serialize(t)) == Ok(t)
  {
    assert Serialize(t)[..4] == Serialize(t);
  }

  lemma SerializeLoad(body: seq<byte>)
    requires |body| >= GetSize()
    ensures Serialize(Load(body).value) == body[..GetSize()]
  {
  }

  lemma LoadIgnoresTail(body: seq<byte>, extra: seq<byte>)
    requires |body| >= GetSize()
    ensures Load(body + extra) == Load(body)
  {
    assert (body + extra)[..4] == body[..4];
  }
}
