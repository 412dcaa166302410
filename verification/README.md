# libwarcraft chunk bodies and record schemas in Dafny

This project models the part of libwarcraft that decodes and re-encodes the
bodies of little-endian chunks in ADT terrain files and WMO world-model
files, plus the version-gated row schemas of two DBC tables. Everything is a
pure function or a small loop over `seq<byte>`. A failed read is a `Result`
error value, where the library would throw an exception.

The model covers four groups.

- **Offset-keyed string blocks.** The group-name block `ModelGroupNames`
  (MOGN), the doodad-path block `ModelDoodadPaths` (MODN) and the model list
  `TerrainModels` (MMDX) are built from the shared `StringBlock` module.
  - A body is scanned into back-to-back null-terminated strings. Each string
    is keyed by the offset of its first byte.
  - The lemmas relate the keys to running sums of (length + 1) and to the
    string starts of the body.
  - They prove the MODN round trips. They also prove that the MOGN writer,
    with its two-zero prefix and 4-byte padding, is not the loader's inverse.
- **Fixed-stride record arrays.** The `Stride` module models the three loop
  disciplines the readers use:
  - `length / size` records, with the tail dropped: MOVB and MOVV;
  - read while bytes remain, failing on a partial record: MOBR and MOTV;
  - read while bytes remain with a reader that returns what is left: MOPY.

  `MapChunkVertexNormals` (MCNR) is modelled as the nested 16-row loop it is.
  `TerrainVersion` (MVER) is a single uint32.
- **Two-chunk composite.** `ModelGroup` is a version chunk followed by a
  group-data chunk. Its name offsets feed the MOGN lookup, through the
  unchecked `(int)` cast.
- **Version-gated record schemas.** `RecordSchema` turns the field
  attributes into a declarative list. The schema for version V is the
  declaration-ordered selection of fields introduced at or before V.
  `AnimationDataRecord` and `LiquidObjectRecord` are instances.

Assumptions stated for helpers whose code is not part of this model:

- **The null-terminated string reader** returns the bytes before the next
  zero byte and consumes that zero. It treats each byte as one character. It
  fails as truncated when the body ends first.
- **The null-terminated string writer** writes the bytes and then exactly one
  zero byte.
- **Vectors** are opaque 8-byte (`Vector2`) or 12-byte (`Vector3`) records.
  `VisibleBlock` and `PolygonMaterial` are opaque records. Their on-disk
  width is a parameter, and each serializes to the bytes it was built from.
- **The chunk frame reader and writer** (`ReadIFFChunk`, `WriteIFFChunk`) are
  modelled by `ChunkFrame`:
  - a frame is 4 signature bytes, a little-endian uint32 body length, then
    the body;
  - a short header or body fails as truncated;
  - a typed read also checks the signature.
- **The group-data body codec** is a pair of functions. The round trip
  assumes they are mutually inverse (`ModelGroup.Inverse`).
- **`WarcraftVersion`** is ordered Classic < BurningCrusade < Wrath <
  Cataclysm < Mists < Warlords < Legion. `RecordSchema.Rank` states this order.

The library's loaders behave as follows:

- The floor-division chunks (MOVB, MOVV) silently drop a partial tail.
  MOBR and MOTV fail on it with a truncated read.
  MOPY accepts a short final slice.
- MOGN keeps every string, the empty ones included.
- MODN filters only the one-character string `"\0"`. The reader never
  produces that string, so on loaded data the filter removes nothing
  (`ModelDoodadPaths.RemoveNullEntriesKeepsZeroFree`).
- A lookup at an offset that is not a string start behaves differently in
  the two blocks. MOGN throws (`Err(NotFound)` here). MODN returns the empty
  string.
- MOGN's writer does not invert its loader (`ModelGroupNames.ReloadSerialized`).

## Model

| member | source | states |
|---|---|---|
| Binary.EncodeUInt16 | libwarcraft/WMO/GroupFile/Chunks/ModelBSPFaceIndices.cs:100 | writing a ushort gives two bytes, least significant first, which read back as the same value |
| Binary.EncodeDecodeUInt16 | libwarcraft/WMO/GroupFile/Chunks/ModelBSPFaceIndices.cs:75 | every two bytes are the encoding of the ushort read from them |
| Binary.EncodeUInt32 | libwarcraft/ADT/Chunks/TerrainVersion.cs:87 | writing a uint gives four bytes that read back as the same value |
| Binary.EncodeDecodeUInt32 | libwarcraft/ADT/Chunks/TerrainVersion.cs:63 | every four bytes are the encoding of the uint read from them |
| Binary.SByte | libwarcraft/ADT/Chunks/Subchunks/MapChunkVertexNormals.cs:79-81 | a signed byte is the int8 congruent to the raw byte modulo 256 |
| StringBlock.ReadCString | libwarcraft/WMO/RootFile/Chunks/ModelGroupNames.cs:71 | the string read succeeds exactly when a zero byte follows the position; it returns zero-free bytes and consumes exactly them and their terminator |
| StringBlock.Scan | libwarcraft/WMO/RootFile/Chunks/ModelGroupNames.cs:69-72 | reading strings until the position reaches the length succeeds exactly when the body is empty or ends in a zero byte |
| StringBlock.ScanLayout | libwarcraft/WMO/RootFile/Chunks/ModelGroupNames.cs:69-72 | a scan yields zero-free names keyed by running sums of (length + 1) from the start, whose terminated concatenation is the scanned bytes |
| StringBlock.ScanOffsets | libwarcraft/WMO/RootFile/Chunks/ModelGroupNames.cs:65-73 | scanned keys start at 0 and strictly increase, each by the previous name's length plus one, with one entry per zero byte |
| StringBlock.LayoutOffsets | libwarcraft/WMO/RootFile/Chunks/ModelGroupNames.cs:69-72 | laid-out offsets start at the start offset, step by length + 1, strictly increase and stay inside the block |
| StringBlock.LayoutLocates | libwarcraft/WMO/RootFile/Chunks/ModelDoodadPaths.cs:126-129 | every laid-out entry sits where the bytes hold its name followed by a zero |
| StringBlock.LayoutKeysAreStarts | libwarcraft/WMO/RootFile/Chunks/ModelGroupNames.cs:69-72 | an offset is a layout key exactly when a string of the bytes starts there |
| StringBlock.LayoutAppend | libwarcraft/WMO/RootFile/Chunks/ModelGroupNames.cs:126-129 | laying out two name lists in turn is laying out the second where the first ends |
| StringBlock.ScanJoinNames | libwarcraft/WMO/RootFile/Chunks/ModelDoodadPaths.cs:79-82 | scanning zero-free names written with terminators gives them back at their running-sum offsets |
| StringBlock.Find | libwarcraft/WMO/RootFile/Chunks/ModelDoodadPaths.cs:106-112 | a lookup finds nothing exactly when no entry has the offset, and otherwise returns the name of the first entry that has it |
| StringBlock.LookupAfterScan | libwarcraft/WMO/RootFile/Chunks/ModelGroupNames.cs:90-92 | after a scan, an offset is found exactly when a string starts there, and what is found is that string up to its terminator |
| Stride.FloorShape | libwarcraft/WMO/RootFile/Chunks/ModelVisibleBlocks.cs:65-69 | the floor loop reads length / size records, record i being bytes [i*size, (i+1)*size), and together they are the body minus its last length % size bytes |
| Stride.ExactShape | libwarcraft/WMO/GroupFile/Chunks/ModelBSPFaceIndices.cs:73-76 | the read-until-exhausted loop succeeds exactly when size divides the length, and then reads what the floor loop reads |
| Stride.CeilShape | libwarcraft/WMO/GroupFile/Chunks/ModelPolygonMaterials.cs:65-68 | the remainder-returning loop takes ceil(length / size) slices that cover the body, all full but the last, which is length % size wide when size does not divide the length |
| Stride.LoopsAgreeOnWholeRecords | libwarcraft/WMO/GroupFile/Chunks/ModelTextureCoordinates.cs:67-70 | when size divides the length, the three loops read the same records |
| Stride.RecordsRoundTrip | libwarcraft/WMO/RootFile/Chunks/ModelVisibleBlocks.cs:79-91 | concatenating same-width records and reading them back with any of the three loops gives the records |
| Stride.FlattenSlices | libwarcraft/WMO/RootFile/Chunks/ModelVisibleBlocks.cs:84-87 | in a concatenation of same-width records, record i is at bytes [i*size, (i+1)*size) |
| ChunkFrame.ReadFrame | libwarcraft/WMO/GroupFile/ModelGroup.cs:75 | a frame read consumes the 8-byte header and exactly the body it returns, inside the buffer |
| ChunkFrame.WriteFrame | libwarcraft/WMO/GroupFile/ModelGroup.cs:169-170 | a frame write succeeds exactly when the body fits a 32-bit length, and emits signature, the body length and the body |
| ChunkFrame.ReadChunk | libwarcraft/WMO/GroupFile/ModelGroup.cs:75-76 | a typed chunk read succeeds exactly when a whole frame with the expected signature sits at the position; it then gives that frame's body and the position after it, and a whole frame with another signature is rejected as an unexpected signature |
| ChunkFrame.ReadWrittenChunk | libwarcraft/WMO/GroupFile/ModelGroup.cs:75-76 | a written chunk, anywhere in a buffer, reads back as its body under its own signature and is rejected under any other |
| ChunkFrame.ReadWrittenFrame | libwarcraft/WMO/GroupFile/ModelGroup.cs:169-170 | reading a written frame anywhere in a buffer gives its signature and body and stops just after it |
| ChunkFrame.WriteReadFrame | libwarcraft/WMO/GroupFile/ModelGroup.cs:75-76 | re-writing a frame that was read reproduces its bytes, length field included |
| ChunkFrame.ReadFrameIgnoresTail | libwarcraft/WMO/GroupFile/ModelGroup.cs:73-77 | bytes after a frame do not change how it reads |
| ChunkFrame.TruncatedFrameFails | libwarcraft/WMO/GroupFile/ModelGroup.cs:75-76 | a written frame cut anywhere short of its end reads as truncated |
| TerrainVersion.Load | libwarcraft/ADT/Chunks/TerrainVersion.cs:59-64 | the version loads exactly from bodies of at least 4 bytes, and is the uint32 whose encoding is the first 4 bytes |
| TerrainVersion.Serialize | libwarcraft/ADT/Chunks/TerrainVersion.cs:76-91 | the output is GetSize() = 4 bytes that read back as the version |
| TerrainVersion.LoadSerialize | libwarcraft/ADT/Chunks/TerrainVersion.cs:59-91 | loading the serialized version gives it back |
| TerrainVersion.SerializeLoad | libwarcraft/ADT/Chunks/TerrainVersion.cs:59-91 | serializing a loaded body reproduces its first 4 bytes |
| TerrainVersion.LoadIgnoresTail | libwarcraft/ADT/Chunks/TerrainVersion.cs:59-64 | bytes after the first 4 do not change the load |
| ModelGroup.Load | libwarcraft/WMO/GroupFile/ModelGroup.cs:71-77 | a group loads exactly when the bytes open with a whole MVER frame whose body holds a version, followed at once by a whole MOGP frame whose body the codec decodes; the version is the one read from the first frame's body and the group data is the codec's decoding of the second frame's body |
| ModelGroup.Serialize | libwarcraft/WMO/GroupFile/ModelGroup.cs:164-174 | the output is the MVER chunk (signature, length 4, the version), then the MOGP chunk (signature, the encoded length, the encoded group data), nothing else |
| ModelGroup.LoadSerialize | libwarcraft/WMO/GroupFile/ModelGroup.cs:71-113 | with an inverse group-data codec, loading a serialized group, whatever follows it, gives back the version and group data, and both name-offset accessors return the stored offsets |
| ModelGroup.GetInternalNameOffset | libwarcraft/WMO/GroupFile/ModelGroup.cs:101-104 | the group's name offset; `ModelGroup.LoadSerialize` states it survives a write and reload, and `ModelGroup.LoadedNameOffsets` that it is the offset decoded from the MOGP body |
| ModelGroup.GetInternalDescriptiveNameOffset | libwarcraft/WMO/GroupFile/ModelGroup.cs:110-113 | the group's descriptive name offset, with the same two partner lemmas |
| ModelGroup.LoadedNameOffsets | libwarcraft/WMO/GroupFile/ModelGroup.cs:71-113 | on a loaded group both name offsets are the ones the codec decoded from the MOGP chunk's body |
| ModelGroup.LoadIgnoresTail | libwarcraft/WMO/GroupFile/ModelGroup.cs:71-77 | bytes after the two chunks are never read |
| ModelGroupNames.AddAllDistinct | libwarcraft/WMO/RootFile/Chunks/ModelGroupNames.cs:71 | inserting entries with pairwise distinct keys never meets a duplicate key and keeps insertion order |
| ModelGroupNames.Load | libwarcraft/WMO/RootFile/Chunks/ModelGroupNames.cs:65-73 | the block loads exactly when empty or zero-terminated; keys start at 0 and strictly increase by the previous name's length plus one, so no insertion throws; empty strings are kept, one entry per zero byte |
| ModelGroupNames.ToInt32 | libwarcraft/WMO/RootFile/Chunks/ModelGroupNames.cs:89 | the unchecked cast gives the int32 congruent to the uint modulo 2^32 |
| ModelGroupNames.NameAtOffset | libwarcraft/WMO/RootFile/Chunks/ModelGroupNames.cs:89-95 | a lookup succeeds exactly when some key equals the cast offset, returns that key's name, and otherwise fails as not found |
| ModelGroupNames.GetInternalGroupName | libwarcraft/WMO/RootFile/Chunks/ModelGroupNames.cs:87-96 | the group's name offset is found exactly when some key equals it after the cast, and the name returned is stored under it |
| ModelGroupNames.GetInternalDescriptiveGroupName | libwarcraft/WMO/RootFile/Chunks/ModelGroupNames.cs:104-113 | the same rule, for the descriptive-name offset |
| ModelGroupNames.HighOffsetNeverFound | libwarcraft/WMO/RootFile/Chunks/ModelGroupNames.cs:65-73 | on a loaded block, whose keys are all positions in the body, an offset of 2^31 or more is never found |
| ModelGroupNames.LookupAfterLoad | libwarcraft/WMO/RootFile/Chunks/ModelGroupNames.cs:87-96 | on a loaded block, a lookup succeeds exactly when the offset is below 2^31 and a string starts there, and returns that string; mid-string offsets fail |
| ModelGroupNames.PaddingAfter | libwarcraft/WMO/RootFile/Chunks/ModelGroupNames.cs:132-141 | the writer pads with fewer than 4 zero bytes, up to a multiple of 4 |
| ModelGroupNames.Serialize | libwarcraft/WMO/RootFile/Chunks/ModelGroupNames.cs:116-145 | the output is two zero bytes, then each name and a zero in entry order, then 0 to 3 zero bytes, its length a multiple of 4 |
| ModelGroupNames.SerializedNames | libwarcraft/WMO/RootFile/Chunks/ModelGroupNames.cs:121-141 | the output is the terminated concatenation of two empty names, the entries' names and one empty name per padding byte |
| ModelGroupNames.ReloadSerialized | libwarcraft/WMO/RootFile/Chunks/ModelGroupNames.cs:116-145 | reloading the output gives empty entries at offsets 0 and 1, the names from offset 2 at running-sum offsets, then one empty entry per padding byte |
| ModelGroupNames.SerializeLoadCounterexample | libwarcraft/WMO/RootFile/Chunks/ModelGroupNames.cs:122-123 | a block holding "a" at offset 0 does not survive a write and reload |
| ModelDoodadPaths.GetSignature | libwarcraft/WMO/RootFile/Chunks/ModelDoodadPaths.cs:94-97 | the signature is the bytes of "MODN" |
| ModelDoodadPaths.RemoveNullEntries | libwarcraft/WMO/RootFile/Chunks/ModelDoodadPaths.cs:86 | after the filter no value is "\0"; an entry survives exactly when it was there and its value is not "\0"; survivors keep offsets and relative order |
| ModelDoodadPaths.RemoveNullEntriesCounts | libwarcraft/WMO/RootFile/Chunks/ModelDoodadPaths.cs:86 | every entry whose value is not "\0" survives as many times as it occurred, repeats included, and every "\0" entry is gone |
| ModelDoodadPaths.RemoveNullEntriesKeepsZeroFree | libwarcraft/WMO/RootFile/Chunks/ModelDoodadPaths.cs:86 | the filter removes nothing from zero-free values, so zero-length strings stay |
| ModelDoodadPaths.Load | libwarcraft/WMO/RootFile/Chunks/ModelDoodadPaths.cs:74-87 | the block loads exactly when empty or zero-terminated; keys start at 0 and strictly increase by length + 1; no value is "\0"; one entry per zero byte |
| ModelDoodadPaths.LoadIsScan | libwarcraft/WMO/RootFile/Chunks/ModelDoodadPaths.cs:79-86 | the loaded list is exactly the scanned list: the filter removes nothing from loaded data |
| ModelDoodadPaths.GetNameByOffset | libwarcraft/WMO/RootFile/Chunks/ModelDoodadPaths.cs:104-115 | the lookup returns the value of the first entry with exactly that offset, or the empty string when no entry has it |
| ModelDoodadPaths.FindFirst | libwarcraft/WMO/RootFile/Chunks/ModelDoodadPaths.cs:106-112 | the entry found is the earliest with the offset |
| ModelDoodadPaths.LookupAfterLoad | libwarcraft/WMO/RootFile/Chunks/ModelDoodadPaths.cs:104-115 | on a loaded block, a lookup at a string start returns that string, and any other offset returns the empty string |
| ModelDoodadPaths.Serialize | libwarcraft/WMO/RootFile/Chunks/ModelDoodadPaths.cs:121-133 | the output length is the sum of (length + 1) over the values |
| ModelDoodadPaths.SerializeLocates | libwarcraft/WMO/RootFile/Chunks/ModelDoodadPaths.cs:126-129 | each value is written at the running sum of the earlier values' (length + 1), followed by a zero byte |
| ModelDoodadPaths.LoadSerialize | libwarcraft/WMO/RootFile/Chunks/ModelDoodadPaths.cs:79-82 | for zero-free values, loading the output gives the same values in order, keyed by running sums of (length + 1) |
| ModelDoodadPaths.SerializeLoad | libwarcraft/WMO/RootFile/Chunks/ModelDoodadPaths.cs:121-133 | serializing a loaded block reproduces it byte for byte |
| ModelDoodadPaths.LoadSerializeLaidOut | libwarcraft/WMO/RootFile/Chunks/ModelDoodadPaths.cs:79-82 | a list whose offsets are already its values' running sums survives a write and reload unchanged |
| TerrainModels.GetSignature | libwarcraft/ADT/Chunks/TerrainModels.cs:70-73 | the signature is always the bytes of "MMDX" |
| TerrainModels.Load | libwarcraft/ADT/Chunks/TerrainModels.cs:62-67 | a load into a freshly built instance succeeds exactly when the body has a zero byte, and yields exactly one filename, the zero-free bytes before the first zero |
| TerrainModels.LoadInto | libwarcraft/ADT/Chunks/TerrainModels.cs:43-67 | a load into an instance that already holds filenames keeps them and appends exactly the one name the fresh load reads, succeeding on the same bodies |
| TerrainModels.LoadIntoFresh | libwarcraft/ADT/Chunks/TerrainModels.cs:43-67 | loading into an empty instance is the fresh load, and loading the same body twice holds its first name twice |
| TerrainModels.LoadIgnoresAfterFirstName | libwarcraft/ADT/Chunks/TerrainModels.cs:62-67 | whatever follows the first terminated name, the load gives that one name |
| TerrainModels.LoadAll | libwarcraft/ADT/Chunks/TerrainModels.cs:41-43 | the full list loads exactly when the body is empty or zero-terminated, and its names, zero-free, one per zero byte, rejoin to the body |
| TerrainModels.LoadAllJoin | libwarcraft/ADT/Chunks/TerrainModels.cs:41-43 | zero-free filenames written with terminators load back as the same list |
| TerrainModels.LoadDropsLaterNames | libwarcraft/ADT/Chunks/TerrainModels.cs:66 | for any two zero-free names a and b, the body a\0b\0 loads as [a] alone, where the full list is [a, b]; the two loads differ |
| TerrainModels.LoadDropsB | libwarcraft/ADT/Chunks/TerrainModels.cs:66 | the body "a\0b\0" loads as ["a"], where the full list is ["a", "b"] |
| TerrainModels.LoadAgreesOnSingleName | libwarcraft/ADT/Chunks/TerrainModels.cs:62-67 | the single-string load equals the full list exactly when the body holds one string |
| ModelBspFaceIndices.GetSignature | libwarcraft/WMO/GroupFile/Chunks/ModelBSPFaceIndices.cs:84-87 | the signature is the bytes of "MOBR" |
| ModelBspFaceIndices.DecodeIndices | libwarcraft/WMO/GroupFile/Chunks/ModelBSPFaceIndices.cs:75 | each two-byte record decodes to the index whose encoding it is |
| ModelBspFaceIndices.EncodeIndices | libwarcraft/WMO/GroupFile/Chunks/ModelBSPFaceIndices.cs:100 | each index encodes to two bytes that decode back to it |
| ModelBspFaceIndices.Load | libwarcraft/WMO/GroupFile/Chunks/ModelBSPFaceIndices.cs:69-77 | the load succeeds exactly on even-length bodies, giving length / 2 indices, index i encoded by bytes [2i, 2i + 2) |
| ModelBspFaceIndices.Serialize | libwarcraft/WMO/GroupFile/Chunks/ModelBSPFaceIndices.cs:93-105 | the output is 2 × count bytes, bytes [2i, 2i + 2) decoding to index i |
| ModelBspFaceIndices.LoadSerialize | libwarcraft/WMO/GroupFile/Chunks/ModelBSPFaceIndices.cs:69-105 | loading the output of Serialize gives back the list |
| ModelBspFaceIndices.SerializeLoad | libwarcraft/WMO/GroupFile/Chunks/ModelBSPFaceIndices.cs:69-105 | serializing a loaded body reproduces it byte for byte |
| ModelVisibleBlocks.GetSignature | libwarcraft/WMO/RootFile/Chunks/ModelVisibleBlocks.cs:73-76 | the signature is the bytes of "MOVB" |
| ModelVisibleBlocks.Load | libwarcraft/WMO/RootFile/Chunks/ModelVisibleBlocks.cs:61-70 | the count is length / size, and block i is built from bytes [i*size, (i+1)*size) |
| ModelVisibleBlocks.SerializeSlices | libwarcraft/WMO/RootFile/Chunks/ModelVisibleBlocks.cs:79-91 | with every block size bytes wide, the output is count × size bytes and block i is at [i*size, (i+1)*size); an empty list writes nothing |
| ModelVisibleBlocks.LoadSerialize | libwarcraft/WMO/RootFile/Chunks/ModelVisibleBlocks.cs:61-91 | if each block serializes to exactly size bytes, loading the output gives the blocks back |
| ModelVisibleBlocks.SerializeLoad | libwarcraft/WMO/RootFile/Chunks/ModelVisibleBlocks.cs:61-91 | serializing a loaded body gives it back minus its last length % size bytes |
| ModelVisibleBlocks.LoadIgnoresPartialTail | libwarcraft/WMO/RootFile/Chunks/ModelVisibleBlocks.cs:65-69 | the trailing length % size bytes are silently dropped: the load is the same without them |
| ModelVisibleVertices.GetSignature | libwarcraft/WMO/RootFile/Chunks/ModelVisibleVertices.cs:75-78 | the signature is the bytes of "MOVV" |
| ModelVisibleVertices.Load | libwarcraft/WMO/RootFile/Chunks/ModelVisibleVertices.cs:63-72 | the count is length / 12, and vertex i is the 12 bytes [12i, 12i + 12), in file order |
| ModelVisibleVertices.SerializeSlices | libwarcraft/WMO/RootFile/Chunks/ModelVisibleVertices.cs:81-93 | the output is the vertices in list order, vertex i at [12i, 12i + 12); an empty list writes nothing |
| ModelVisibleVertices.LoadSerialize | libwarcraft/WMO/RootFile/Chunks/ModelVisibleVertices.cs:63-93 | loading the output of Serialize gives back the vertices |
| ModelVisibleVertices.SerializeLoad | libwarcraft/WMO/RootFile/Chunks/ModelVisibleVertices.cs:63-93 | serializing a loaded body gives it back minus its last length % 12 bytes |
| ModelVisibleVertices.LoadIgnoresPartialTail | libwarcraft/WMO/RootFile/Chunks/ModelVisibleVertices.cs:67-71 | the trailing length % 12 bytes are ignored |
| ModelTextureCoordinates.GetSignature | libwarcraft/WMO/GroupFile/Chunks/ModelTextureCoordinates.cs:74-77 | the signature is the bytes of "MOTV" |
| ModelTextureCoordinates.Load | libwarcraft/WMO/GroupFile/Chunks/ModelTextureCoordinates.cs:63-71 | the load succeeds exactly when 8 divides the length, giving length / 8 pairs, pair i being bytes [8i, 8i + 8) in order |
| ModelTextureCoordinates.SerializeSlices | libwarcraft/WMO/GroupFile/Chunks/ModelTextureCoordinates.cs:80-92 | the output is the pairs in list order, pair i at [8i, 8i + 8) |
| ModelTextureCoordinates.LoadSerialize | libwarcraft/WMO/GroupFile/Chunks/ModelTextureCoordinates.cs:63-92 | loading the output of Serialize gives back the pairs |
| ModelTextureCoordinates.SerializeLoad | libwarcraft/WMO/GroupFile/Chunks/ModelTextureCoordinates.cs:63-92 | serializing a loaded body reproduces it |
| ModelPolygonMaterials.GetSignature | libwarcraft/WMO/GroupFile/Chunks/ModelPolygonMaterials.cs:72-75 | the signature is the bytes of "MOPY" |
| ModelPolygonMaterials.Load | libwarcraft/WMO/GroupFile/Chunks/ModelPolygonMaterials.cs:61-69 | ceil(length / size) materials whose bytes in order are the whole body; all are size bytes but the last, which is length % size bytes when size does not divide the length |
| ModelPolygonMaterials.SerializeSlices | libwarcraft/WMO/GroupFile/Chunks/ModelPolygonMaterials.cs:78-90 | with every material size bytes wide, material i is at [i*size, (i+1)*size); an empty list writes nothing |
| ModelPolygonMaterials.LoadSerialize | libwarcraft/WMO/GroupFile/Chunks/ModelPolygonMaterials.cs:61-90 | if each material serializes to exactly size bytes, loading the output gives the materials back |
| MapChunkVertexNormals.GetSignature | libwarcraft/ADT/Chunks/Subchunks/MapChunkVertexNormals.cs:102-105 | the signature is the bytes of "MCNR" |
| MapChunkVertexNormals.ReadNormal | libwarcraft/ADT/Chunks/Subchunks/MapChunkVertexNormals.cs:79-83 | the bytes are read as X, Z, Y and stored as (X, Y, Z), each a signed byte |
| MapChunkVertexNormals.HighSlot | libwarcraft/ADT/Chunks/Subchunks/MapChunkVertexNormals.cs:72-84 | high-res normals occupy the first nine of each 17 three-byte slots of the 408 bytes |
| MapChunkVertexNormals.LowSlot | libwarcraft/ADT/Chunks/Subchunks/MapChunkVertexNormals.cs:86-97 | low-res normals occupy the last eight of each 17 slots |
| MapChunkVertexNormals.SlotsTile | libwarcraft/ADT/Chunks/Subchunks/MapChunkVertexNormals.cs:72-98 | each of the 136 slots is read by exactly one normal: the slot maps and index maps are inverse |
| MapChunkVertexNormals.HighSlotOf | libwarcraft/ADT/Chunks/Subchunks/MapChunkVertexNormals.cs:74-84 | the x-th normal of even row 2p is high-res normal 9p + x, read at slot 17p + x |
| MapChunkVertexNormals.LowSlotOf | libwarcraft/ADT/Chunks/Subchunks/MapChunkVertexNormals.cs:86-96 | the x-th normal of odd row 2p + 1 is low-res normal 8p + x, read at slot 17p + 9 + x |
| MapChunkVertexNormals.ReadHighRow | libwarcraft/ADT/Chunks/Subchunks/MapChunkVertexNormals.cs:77-84 | an even row appends nine normals read from their slots, and fails as truncated exactly when the body ends before the row does |
| MapChunkVertexNormals.ReadLowRow | libwarcraft/ADT/Chunks/Subchunks/MapChunkVertexNormals.cs:89-96 | an odd row appends eight normals read from their slots, and fails as truncated exactly when the body ends before the row does |
| MapChunkVertexNormals.Load | libwarcraft/ADT/Chunks/Subchunks/MapChunkVertexNormals.cs:68-99 | the load succeeds exactly on bodies of at least 408 bytes, with 72 high-res and 64 low-res normals, high k from byte 3(17(k/9) + k%9) and low k from byte 3(17(k/8) + 9 + k%8) |
| MapChunkVertexNormals.NormalsReadOnlyPrefix | libwarcraft/ADT/Chunks/Subchunks/MapChunkVertexNormals.cs:72-98 | bytes from 408 on are never read |
| RecordSchema.EffectiveSchemaSelects | libwarcraft/DBC/Definitions/AnimationDataRecord.cs:40-78 | the schema for a version holds exactly the declared fields introduced at or before it, in declaration order |
| RecordSchema.EffectiveSchemaAppend | libwarcraft/DBC/Definitions/AnimationDataRecord.cs:40-78 | selecting from two declarations in turn is selecting from each |
| RecordSchema.SchemaMonotone | libwarcraft/DBC/Definitions/AnimationDataRecord.cs:40-78 | a later version's schema contains an earlier one's as an order-preserving subsequence |
| RecordSchema.AllIntroduced | libwarcraft/DBC/Definitions/AnimationDataRecord.cs:40-78 | a version that has every declared field reads the whole declaration |
| RecordSchema.NoneIntroduced | libwarcraft/DBC/Definitions/LiquidObjectRecord.cs:38-64 | a version that has none of the declared fields reads nothing |
| RecordSchema.NoneIntroducedAfter | libwarcraft/DBC/Definitions/LiquidObjectRecord.cs:38-64 | in a version-ordered declaration, a version that lacks the first field reads nothing |
| RecordSchema.OrderedSchemaIsPrefix | libwarcraft/DBC/Definitions/AnimationDataRecord.cs:40-78 | with fields declared in version order, every schema is a prefix of the declaration |
| RecordSchema.StringReferenceFieldsSelect | libwarcraft/DBC/Definitions/AnimationDataRecord.cs:81-84 | a name is listed exactly when a string-reference field carries it |
| RecordSchema.NoStringReferenceFields | libwarcraft/DBC/Definitions/LiquidObjectRecord.cs:38-64 | a declaration without string-reference fields lists none |
| RecordSchema.ForeignKeysSelect | libwarcraft/DBC/Definitions/AnimationDataRecord.cs:64-71 | a key is listed exactly when a field of that name refers to that table and column |
| AnimationDataRecord.Schema | libwarcraft/DBC/Definitions/AnimationDataRecord.cs:40-78 | every version reads a prefix of the declared fields |
| AnimationDataRecord.Introductions | libwarcraft/DBC/Definitions/AnimationDataRecord.cs:40-78 | the first six fields came with Classic and BehaviourTier with Wrath |
| AnimationDataRecord.SchemaBeforeWrath | libwarcraft/DBC/Definitions/AnimationDataRecord.cs:40-71 | up to but excluding Wrath the schema is the six Classic fields, from Name to BehaviourAnimation |
| AnimationDataRecord.SchemaFromWrath | libwarcraft/DBC/Definitions/AnimationDataRecord.cs:40-78 | from Wrath on, BehaviourTier is appended as the last field |
| AnimationDataRecord.ForeignKeysIntoOwnTable | libwarcraft/DBC/Definitions/AnimationDataRecord.cs:64-71 | FallbackAnimation and BehaviourAnimation are the foreign keys, both into AnimationData's ID column |
| AnimationDataRecord.GetStringReferences | libwarcraft/DBC/Definitions/AnimationDataRecord.cs:81-84 | exactly one string reference is yielded |
| AnimationDataRecord.NameIsOnlyStringField | libwarcraft/DBC/Definitions/AnimationDataRecord.cs:40-78 | Name is the only string-reference field of the declaration |
| AnimationDataRecord.StringReferencesMatchSchema | libwarcraft/DBC/Definitions/AnimationDataRecord.cs:81-84 | at every version, the reference yielded is exactly the record's string-reference field, Name |
| LiquidObjectRecord.Schema | libwarcraft/DBC/Definitions/LiquidObjectRecord.cs:38-64 | every version reads a prefix of the declared fields |
| LiquidObjectRecord.SchemaBeforeCataclysm | libwarcraft/DBC/Definitions/LiquidObjectRecord.cs:38-64 | before Cataclysm no declared field is read |
| LiquidObjectRecord.SchemaFromCataclysm | libwarcraft/DBC/Definitions/LiquidObjectRecord.cs:38-64 | from Cataclysm on, the five fields are read in order, FlowDirection first and Reflection last |
| LiquidObjectRecord.ForeignKeyIntoLiquidType | libwarcraft/DBC/Definitions/LiquidObjectRecord.cs:50-51 | LiquidType is the only foreign key, into the ID column of the LiquidType table |
| LiquidObjectRecord.NoStringReferenceFieldAtAnyVersion | libwarcraft/DBC/Definitions/LiquidObjectRecord.cs:38-64 | at no version does the record's schema hold a string-reference field |

## Left out

- libwarcraft/MPQ/IPackage.cs: the archive interface does file and archive I/O and has no logic of its own.
- Float semantics. Vector components are kept as their raw bytes. The float fields of `LiquidObjectRecord` are kept only as their storage type.
- `ModelGroup.GetPosition` and `GetBoundingBox` are float geometry. `GetVertices`, `GetNormals`, `GetTextureCoordinates`, `GetVertexIndices` and `GetRenderBatches` return parts of the group data, which is opaque here. The `Name` and `DescriptiveName` properties are plain storage.
- .NET stream plumbing (`MemoryStream`, `BinaryReader`, `BinaryWriter`) is replaced by pure functions over byte sequences. A read past the end is a `TruncatedInput` value.
- Exception types are collapsed into the error values of `Binary.Error`. The `ArgumentException` of a MOGN lookup miss is `NotFound`. `Dictionary.Add` on a present key is `DuplicateKey`.
- ReadIFFChunk and WriteIFFChunk are replaced by the framing contract in `ChunkFrame`. Any byte reversal of signatures on disk is not modelled.
- ReadNullTerminatedString and WriteNullTerminatedString are not part of this model. They are replaced by the stated assumptions, with each byte taken as one character and no text decoding.
- `VisibleBlock`, `PolygonMaterial` and `ModelGroupData` are not part of this model. The first two are kept as their bytes, with the width as a parameter. The last is an abstract codec.
- The `DBCRecord` base class (its ID field) and the reflection-based field reader are left out. The row-table decoding that uses the schemas is also left out.
- Repeated loads. Each library loader appends to a collection that the instance creates once and never clears, so a second `LoadBinaryData` call adds to what the first left, and a load that throws part-way keeps what it read so far. Only the MMDX append is modelled (`TerrainModels.LoadInto`). The other loaders are modelled as run once on a freshly built instance, all or nothing:
- `ModelGroupNames.Load`: a second load of a non-empty body would throw on the first repeated key, and a failed load would keep the entries added before the failure. Neither is modelled.
- `ModelDoodadPaths.Load`: a second load would append entries, and its filter would run over the whole list. Neither is modelled.
- `ModelBspFaceIndices.Load`: appending to earlier indices, and the indices kept from a load that fails on an odd length, are not modelled.
- `ModelVisibleBlocks.Load`: appending to earlier blocks is not modelled.
- `ModelVisibleVertices.Load`: appending to earlier vertices is not modelled.
- `ModelTextureCoordinates.Load`: appending to earlier pairs, and the pairs kept from a load that fails part-way, are not modelled.
- `ModelPolygonMaterials.Load`: appending to earlier materials is not modelled.
- `MapChunkVertexNormals.Load`: appending to earlier normals, and the normals kept from a truncated load, are not modelled.
- `ModelGroupNames.Load`: `Dictionary` enumeration order is taken to be insertion order, so the dictionary is a sequence of (offset, name) entries.
- `ModelGroupNames`: keys are non-negative (`Entry.offset` is a `nat`). The library's `GroupNames` is a public `Dictionary<long, string>` (ModelGroupNames.cs:46), so a caller could add a negative key, which a lookup at an offset of 2^31 or more would then find after the int cast. Only keys added by the loader, which are stream positions, are modelled.
- `ModelGroup.Load`: checks the two chunks' signatures. What the library's typed chunk read does on a signature mismatch is not part of this model.
- `MapChunkVertexNormals.Load`: reads a normal's three bytes with one bounds check. The library reads them one at a time, which fails on exactly the same bodies.
- `ModelPolygonMaterials.Load`: a short final slice is kept as a material of fewer bytes. Whether the material's constructor accepts such a slice is not part of this model.

## Findings

| source | as written | input that shows it | evidently intended | confidence | as-written member | corrected member |
|---|---|---|---|---|---|---|
| libwarcraft/ADT/Chunks/TerrainModels.cs:62-67 | the loader reads one null-terminated string and ignores the rest of the body | the body "a\0b\0" loads as the single filename "a" | every string of the body is read, as the class and property comments ("a list of all referenced M2 models") say | medium; not executed | TerrainModels.LoadDropsB | TerrainModels.LoadAllJoin |
