/** A WMO group file: an MVER version chunk followed by an MOGP group-data
    chunk. The group data's own layout is not part of this model: it is
    decoded and encoded by a caller-supplied pair of functions, of which only
    the two name offsets are inspected here. */
module ModelGroup {
  import opened Binary
  import ChunkFrame
  import TerrainVersion

  const GroupDataSignature: seq<byte> := Ascii("MOGP")

  /** The group data, reduced to the two offsets into the root file's group
      name block and the rest of its body. */
  datatype ModelGroupData = ModelGroupData(
    groupNameOffset: uint32,
    descriptiveGroupNameOffset: uint32,
    payload: seq<byte>)

  /** The group-data body codec, which lives outside this model. */
  datatype GroupDataCodec = GroupDataCodec(
    decode: seq<byte> -> Result<ModelGroupData>,
    encode: ModelGroupData -> seq<byte>)

  /** The assumption the round trip rests on: decoding what was encoded gives
      the group data back. */
  ghost predicate Inverse(codec: GroupDataCodec) {
    forall g :: codec.decode(codec.encode(g)) == Ok(g)
  }

  datatype ModelGroup = ModelGroup(version: TerrainVersion.TerrainVersion, groupData: ModelGroupData)

  /** The frame at the start of the data, when there is a whole one. */
  function FirstFrame(data: seq<byte>): (f: ChunkFrame.Frame)
    requires ChunkFrame.ReadFrame(data, 0).Ok?
  {
    ChunkFrame.ReadFrame(data, 0).value.0
  }

  /** The frame that starts where the first one ends. */
  function SecondFrame(data: seq<byte>): (f: ChunkFrame.Frame)
    requires ChunkFrame.ReadFrame(data, 0).Ok?
    requires ChunkFrame.ReadFrame(data, ChunkFrame.ReadFrame(data, 0).value.1).Ok?
  {
    ChunkFrame.ReadFrame(data, ChunkFrame.ReadFrame(data, 0).value.1).value.0
  }

  /** A group file loads when it opens with a whole MVER frame whose body
      holds a version, followed at once by a whole MOGP frame whose body the
      codec decodes. */
  predicate FramesLoad(data: seq<byte>, codec: GroupDataCodec) {
    && ChunkFrame.ReadFrame(data, 0).Ok?
    && FirstFrame(data).signature == TerrainVersion.Signature
    && TerrainVersion.Load(FirstFrame(data).body).Ok?
    && ChunkFrame.ReadFrame(data, ChunkFrame.ReadFrame(data, 0).value.1).Ok?
    && SecondFrame(data).signature == GroupDataSignature
    && codec.decode(SecondFrame(data).body).Ok?
  }

  /** The constructor: the version chunk, then the group-data chunk right
      after it; anything later is not read. */
  function Load(data: seq<byte>, codec: GroupDataCodec): (r: Result<ModelGroup>)
    ensures r.Ok? ==> |data| >= 8 + TerrainVersion.GetSize() + 8
    ensures r.Ok? ==> data[..4] == TerrainVersion.Signature
    ensures r.Ok? <==> FramesLoad(data, codec)
    ensures r.Ok? ==>
              && Ok(r.value.version) == TerrainVersion.Load(FirstFrame(data).body)
              && Ok(r.value.groupData) == codec.decode(SecondFrame(data).body)
  {
    var (versionBody, next) :- ChunkFrame.ReadChunk(data, 0, TerrainVersion.Signature);
    var version :- TerrainVersion.Load(versionBody);
    var (groupBody, _) :- ChunkFrame.ReadChunk(data, next, GroupDataSignature);
    var groupData :- codec.decode(groupBody);
    Ok(ModelGroup(version, groupData))
  }

  /** The offset of the group's name in the root file's MOGN block. */
  function GetInternalNameOffset(g: ModelGroup): (offset: uint32) {
    g.groupData.groupNameOffset
  }

  /** The offset of the group's descriptive name in the same block. */
  function GetInternalDescriptiveNameOffset(g: ModelGroup): (offset: uint32) {
    g.groupData.descriptiveGroupNameOffset
  }

  /** On a loaded group, both name offsets are the ones the codec decoded
      from the body of the MOGP chunk. */
  lemma LoadedNameOffsets(data: seq<byte>, codec: GroupDataCodec)
    requires Load(data, codec).Ok?
    ensures FramesLoad(data, codec)
    ensures GetInternalNameOffset(Load(data, codec).value)
            == codec.decode(SecondFrame(data).body).value.groupNameOffset
    ensures GetInternalDescriptiveNameOffset(Load(data, codec).value)
            == codec.decode(SecondFrame(data).body).value.descriptiveGroupNameOffset
  {
  }

  /** The version chunk and then the group-data chunk, nothing else. */
  function Serialize(g: ModelGroup, codec: GroupDataCodec): (r: Result<seq<byte>>)
    ensures r.Ok? <==> |codec.encode(g.groupData)| < ChunkFrame.MaxBodyLength
    ensures r.Ok? ==>
              && |r.value| == 20 + |codec.encode(g.groupData)|
              && r.value[..4] == TerrainVersion.Signature
              && DecodeUInt32(r.value[4..8]) == TerrainVersion.GetSize()
              && r.value[8..12] == TerrainVersion.Serialize(g.version)
              && r.value[12..16] == GroupDataSignature
              && DecodeUInt32(r.value[16..20]) == |codec.encode(g.groupData)|
              && r.value[20..] == codec.encode(g.groupData)
  {
    var versionChunk := ChunkFrame.WriteFrame(TerrainVersion.Signature, TerrainVersion.Serialize(g.version)).value;
    var groupChunk :- ChunkFrame.WriteFrame(GroupDataSignature, codec.encode(g.groupData));
    assert (versionChunk + groupChunk)[8..12] == versionChunk[8..];
    assert (versionChunk + groupChunk)[12..16] == groupChunk[..4];
    assert (versionChunk + groupChunk)[20..] == groupChunk[8..];
    assert (versionChunk + groupChunk)[4..8] == versionChunk[4..8];
    assert (versionChunk + groupChunk)[16..20] == groupChunk[4..8];
    Ok(versionChunk + groupChunk)
  }

  /** Round trip: with an inverse group-data codec, loading a serialized
      group, whatever bytes follow it, gives the group back, name offsets
      included. */
  lemma LoadSerialize(g: ModelGroup, codec: GroupDataCodec, rest: seq<byte>)
    requires Inverse(codec)
    requires Serialize(g, codec).Ok?
    ensures Load(Serialize(g, codec).value + rest, codec) == Ok(g)
    ensures GetInternalNameOffset(Load(Serialize(g, codec).value + rest, codec).value)
            == g.groupData.groupNameOffset
    ensures GetInternalDescriptiveNameOffset(Load(Serialize(g, codec).value + rest, codec).value)
            == g.groupData.descriptiveGroupNameOffset
  {
    var vbody := TerrainVersion.Serialize(g.version);
    var gbody := codec.encode(g.groupData);
    var vchunk := ChunkFrame.WriteFrame(TerrainVersion.Signature, vbody).value;
    var gchunk := ChunkFrame.WriteFrame(GroupDataSignature, gbody).value;
    var data := vchunk + gchunk + rest;
    assert Serialize(g, codec).value + rest == data;
    ChunkFrame.ReadWrittenFrame([], TerrainVersion.Signature, vbody, gchunk + rest);
    assert [] + vchunk + (gchunk + rest) == data;
    ChunkFrame.ReadWrittenFrame(vchunk, GroupDataSignature, gbody, rest);
    TerrainVersion.LoadSerialize(g.version);
  }

  /** Bytes after the two chunks are never read. */
  lemma LoadIgnoresTail(data: seq<byte>, codec: GroupDataCodec, extra: seq<byte>)
    requires Load(data, codec).Ok?
    ensures Load(data + extra, codec) == Load(data, codec)
  {
    ChunkFrame.ReadFrameIgnoresTail(data, 0, extra);
    var next := ChunkFrame.ReadFrame(data, 0).value.1;
    ChunkFrame.ReadFrameIgnoresTail(data, next, extra);
  }
}
