/** MMDX: the list of M2 model paths an ADT terrain tile references, stored
    as back-to-back null-terminated strings. */
module TerrainModels {
  import opened Binary
  import opened StringBlock

  const Signature: seq<byte> := Ascii("MMDX")

  datatype TerrainModels = TerrainModels(filenames: seq<seq<byte>>)

  /** Always the four bytes of "MMDX". */
  function GetSignature(): (r: seq<byte>)
    ensures r == [0x4D, 0x4D, 0x44, 0x58]
  {
    Signature
  }

  /** The loader as written: a single string read from the start of the body,
      so a loaded instance holds exactly one filename, the bytes before the
      first zero byte. A body without any zero byte makes the read fail. */
  function Load(body: seq<byte>): (r: Result<TerrainModels>)
    ensures r.Ok? <==> exists i :: 0 <= i < |body| && body[i] == 0
    ensures r.Ok? ==> && |r.value.filenames| == 1
                      && ZeroFree(r.value.filenames[0])
                      && |r.value.filenames[0]| < |body|
                      && body[..|r.value.filenames[0]| + 1] == r.value.filenames[0] + [0]
  {
    var (name, _) :- ReadCString(body, 0);
    assert body[0..|name| + 1] == body[..|name| + 1];
    Ok(TerrainModels([name]))
  }

  /** The loader run on an instance that already holds filenames: the list
      is never cleared, so each successful load appends exactly the one name
      read from the start of the body after the names already held. */
  function LoadInto(prior: TerrainModels, body: seq<byte>): (r: Result<TerrainModels>)
    ensures r.Ok? <==> exists i :: 0 <= i < |body| && body[i] == 0
    ensures r.Ok? ==> && |r.value.filenames| == |prior.filenames| + 1
                      && r.value.filenames[..|prior.filenames|] == prior.filenames
                      && Ok(TerrainModels([r.value.filenames[|prior.filenames|]])) == Load(body)
  {
    var (name, _) :- ReadCString(body, 0);
    assert (prior.filenames + [name])[..|prior.filenames|] == prior.filenames;
    Ok(TerrainModels(prior.filenames + [name]))
  }

  /** Loading into a freshly built instance is the plain load; loading the
      same body twice holds its first name twice. */
  lemma LoadIntoFresh(body: seq<byte>)
    ensures LoadInto(TerrainModels([]), body) == Load(body)
    ensures Load(body).Ok? ==>
              var once := Load(body).value;
              LoadInto(once, body) == Ok(TerrainModels([once.filenames[0], once.filenames[0]]))
  {
    if Load(body).Ok? {
      var once := Load(body).value;
      var twice := LoadInto(once, body).value.filenames;
      assert twice[..1] == once.filenames;
      assert twice == [twice[0], twice[1]];
    }
  }

  /** Everything after the first terminator is ignored: whatever follows a
      zero-free name and its zero byte, the load gives that one name. */
  lemma LoadIgnoresAfterFirstName(name: seq<byte>, rest: seq<byte>)
    requires ZeroFree(name)
    ensures Load(name + [0] + rest) == Ok(TerrainModels([name]))
  {
    ReadCStringOf(name + [0] + rest, 0, name);
  }

  /** The list the chunk is documented to hold: every string of the body, in
      order. A body whose last string has no terminator fails as truncated. */
  function LoadAll(body: seq<byte>): (r: Result<TerrainModels>)
    ensures r.Ok? <==> |body| == 0 || body[|body| - 1] == 0
    ensures r.Ok? ==> && AllZeroFree(r.value.filenames)
                      && |r.value.filenames| == CountZeros(body)
                      && JoinNames(r.value.filenames) == body
  {
    var entries :- Scan(body, 0);
    ScanLayout(body, 0);
    ScanOffsets(body);
    assert body[0..] == body;
    Ok(TerrainModels(Names(entries)))
  }

  /** Writing zero-free filenames one after another, each with its
      terminator, and loading the result gives the same list back. */
  lemma LoadAllJoin(filenames: seq<seq<byte>>)
    requires AllZeroFree(filenames)
    ensures LoadAll(JoinNames(filenames)) == Ok(TerrainModels(filenames))
  {
    ScanJoinNames(filenames);
    LayoutNames(filenames, 0);
  }

  /** A body holding two names loads as the first alone, where the full
      list holds both: with a = "a" and b = "b", the body "a\0b\0" loads as
      ["a"]. */
  lemma LoadDropsLaterNames(a: seq<byte>, b: seq<byte>)
    requires ZeroFree(a) && ZeroFree(b)
    ensures Load(a + [0] + b + [0]) == Ok(TerrainModels([a]))
    ensures LoadAll(a + [0] + b + [0]) == Ok(TerrainModels([a, b]))
    ensures Load(a + [0] + b + [0]) != LoadAll(a + [0] + b + [0])
  {
    assert [a, b][1..] == [b] && [b][1..] == [];
    assert JoinNames([b]) == b + [0];
    assert JoinNames([a, b]) == a + [0] + b + [0];
    assert a + [0] + b + [0] == a + [0] + (b + [0]);
    LoadIgnoresAfterFirstName(a, b + [0]);
    LoadAllJoin([a, b]);
  }

  /** The concrete case: "a\0b\0" loads as ["a"] and not as ["a", "b"]. */
  lemma LoadDropsB()
    ensures Load([0x61, 0, 0x62, 0]) == Ok(TerrainModels([[0x61]]))
    ensures LoadAll([0x61, 0, 0x62, 0]) == Ok(TerrainModels([[0x61], [0x62]]))
  {
    LoadDropsLaterNames([0x61], [0x62]);
    assert [0x61] + [0] + [0x62] + [0] == [0x61, 0, 0x62, 0];
  }

  /** On a body of one terminated name the two loaders agree, and only
      there: the as-written load is the full list exactly when the body holds
      one string. */
  lemma LoadAgreesOnSingleName(body: seq<byte>)
    requires LoadAll(body).Ok? && Load(body).Ok?
    ensures Load(body) == LoadAll(body) <==> CountZeros(body) == 1
  {
    var all := LoadAll(body).value.filenames;
    if CountZeros(body) == 1 {
      assert all[1..] == [];
      assert JoinNames(all) == all[0] + [0] + JoinNames(all[1..]);
      assert body == all[0] + [0];
      ReadCStringOf(body, 0, all[0]);
      assert all == [all[0]];
      assert Load(body) == Ok(TerrainModels([all[0]]));
    }
  }
}
