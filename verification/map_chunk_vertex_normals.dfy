/** MCNR: the vertex normals of an ADT map chunk. The body interleaves 16
    rows: even rows hold 9 high-resolution normals, odd rows 8 low-resolution
    ones, each normal three signed bytes stored in X, Z, Y order. */
module MapChunkVertexNormals {
  import opened Binary
  import Stride

  const Signature: seq<byte> := Ascii("MCNR")

  const RowCount: nat := 16
  const HighPerRow: nat := 9
  const LowPerRow: nat := 8
  const HighCount: nat := 72
  const LowCount: nat := 64

  /** The bytes one load consumes: 136 normals of three bytes. */
  const NormalsSize: nat := 408

  /** A normal's components as the signed bytes read from disk. */
  datatype Normal = Normal(x: int8, y: int8, z: int8)

  datatype MapChunkVertexNormals = MapChunkVertexNormals(
    highResVertexNormals: seq<Normal>,
    lowResVertexNormals: seq<Normal>)

  function GetSignature(): (r: seq<byte>)
    ensures r == [0x4D, 0x43, 0x4E, 0x52]
  {
    Signature
  }

  /** The normal whose three bytes start at `at`: the bytes are X, Z, Y, so
      the second byte is the Z component and the third the Y component. */
  function ReadNormal(body: seq<byte>, at: nat): (n: Normal)
    requires at + 3 <= |body|
    ensures n.x % 0x100 == body[at] && n.z % 0x100 == body[at + 1] && n.y % 0x100 == body[at + 2]
  {
    Normal(SByte(body[at]), SByte(body[at + 2]), SByte(body[at + 1]))
  }

  /** The three-byte slot, counted from the start of the body, of high-res
      normal k: row pair k / 9, the first nine slots of its 17. */
  function HighSlot(k: nat): (t: nat)
    requires k < HighCount
    ensures t < 136 && t % 17 < HighPerRow
  {
    Stride.DivModUnique(17 * (k / 9) + k % 9, 17, k / 9, k % 9);
    17 * (k / 9) + k % 9
  }

  /** The slot of low-res normal k: row pair k / 8, the last eight slots of
      its 17. */
  function LowSlot(k: nat): (t: nat)
    requires k < LowCount
    ensures t < 136 && t % 17 >= HighPerRow
  {
    Stride.DivModUnique(17 * (k / 8) + 9 + k % 8, 17, k / 8, 9 + k % 8);
    17 * (k / 8) + 9 + k % 8
  }

  /** The high-res normal read at slot t, when t is in the first nine of its
      row pair. */
  function HighIndex(t: nat): (k: nat)
    requires t < 136 && t % 17 < HighPerRow
    ensures k < HighCount
  {
    9 * (t / 17) + t % 17
  }

  /** The low-res normal read at slot t, when t is in the last eight of its
      row pair. */
  function LowIndex(t: nat): (k: nat)
    requires t < 136 && t % 17 >= HighPerRow
    ensures k < LowCount
  {
    8 * (t / 17) + t % 17 - 9
  }

  /** Every slot of the 136 is read by exactly one normal: the slot maps are
      inverse to the index maps, so no slot is skipped or read twice. */
  lemma SlotsTile(k: nat, t: nat)
    ensures k < HighCount ==> HighIndex(HighSlot(k)) == k
    ensures k < LowCount ==> LowIndex(LowSlot(k)) == k
    ensures t < 136 && t % 17 < HighPerRow ==> HighSlot(HighIndex(t)) == t
    ensures t < 136 && t % 17 >= HighPerRow ==> LowSlot(LowIndex(t)) == t
  {
    if k < HighCount {
      Stride.DivModUnique(HighSlot(k), 17, k / 9, k % 9);
    }
    if k < LowCount {
      Stride.DivModUnique(LowSlot(k), 17, k / 8, 9 + k % 8);
    }
    if t < 136 && t % 17 < HighPerRow {
      Stride.DivModUnique(HighIndex(t), 9, t / 17, t % 17);
    }
    if t < 136 && t % 17 >= HighPerRow {
      Stride.DivModUnique(LowIndex(t), 8, t / 17, t % 17 - 9);
    }
  }

  /** High-res normal number `9 * pair + x` is read at slot `17 * pair + x`. */
  lemma HighSlotOf(pair: nat, x: nat)
    requires pair < 8 && x < HighPerRow
    ensures 9 * pair + x < HighCount && HighSlot(9 * pair + x) == 17 * pair + x
  {
    Stride.DivModUnique(9 * pair + x, 9, pair, x);
  }

  /** Low-res normal number `8 * pair + x` is read at slot `17 * pair + 9 + x`. */
  lemma LowSlotOf(pair: nat, x: nat)
    requires pair < 8 && x < LowPerRow
    ensures 8 * pair + x < LowCount && LowSlot(8 * pair + x) == 17 * pair + 9 + x
  {
    Stride.DivModUnique(8 * pair + x, 8, pair, x);
  }

  /** `high` holds the first |high| high-res normals, each read from its
      slot. */
  predicate HighRead(body: seq<byte>, high: seq<Normal>) {
    && |high| <= HighCount
    && forall k :: 0 <= k < |high| ==> 3 * HighSlot(k) + 3 <= |body| && high[k] == ReadNormal(body, 3 * HighSlot(k))
  }

  /** `low` holds the first |low| low-res normals, each read from its slot. */
  predicate LowRead(body: seq<byte>, low: seq<Normal>) {
    && |low| <= LowCount
    && forall k :: 0 <= k < |low| ==> 3 * LowSlot(k) + 3 <= |body| && low[k] == ReadNormal(body, 3 * LowSlot(k))
  }

  /** An even row: nine normals from byte 3 * 17 * pair on, each read as
      three signed bytes; running out of bytes fails the read. */
  method ReadHighRow(body: seq<byte>, pair: nat, high: seq<Normal>) returns (r: Result<seq<Normal>>)
    requires pair < 8 && |high| == 9 * pair && HighRead(body, high)
    ensures r.Ok? <==> 3 * (17 * pair + 9) <= |body|
    ensures r.Ok? ==> |r.value| == 9 * (pair + 1) && HighRead(body, r.value)
    ensures r.Err? ==> r.error == TruncatedInput
  {
    var row := high;
    var pos: nat := 3 * (17 * pair);
    var x: nat := 0;
    while x < HighPerRow
      invariant x <= HighPerRow
      invariant |row| == 9 * pair + x && HighRead(body, row)
      invariant pos == 3 * (17 * pair + x)
      invariant x > 0 ==> pos <= |body|
    {
      if |body| < pos + 3 {
        return Err(TruncatedInput);
      }
      HighSlotOf(pair, x);
      row := row + [ReadNormal(body, pos)];
      pos := pos + 3;
      x := x + 1;
    }
    return Ok(row);
  }

  /** An odd row: eight normals from byte 3 * (17 * pair + 9) on. */
  method ReadLowRow(body: seq<byte>, pair: nat, low: seq<Normal>) returns (r: Result<seq<Normal>>)
    requires pair < 8 && |low| == 8 * pair && LowRead(body, low)
    ensures r.Ok? <==> 3 * (17 * pair + 17) <= |body|
    ensures r.Ok? ==> |r.value| == 8 * (pair + 1) && LowRead(body, r.value)
    ensures r.Err? ==> r.error == TruncatedInput
  {
    var row := low;
    var pos: nat := 3 * (17 * pair + 9);
    var x: nat := 0;
    while x < LowPerRow
      invariant x <= LowPerRow
      invariant |row| == 8 * pair + x && LowRead(body, row)
      invariant pos == 3 * (17 * pair + 9 + x)
      invariant x > 0 ==> pos <= |body|
    {
      if |body| < pos + 3 {
        return Err(TruncatedInput);
      }
      LowSlotOf(pair, x);
      row := row + [ReadNormal(body, pos)];
      pos := pos + 3;
      x := x + 1;
    }
    return Ok(row);
  }

  /** The loader: 16 rows, 9 high-res normals on even rows and 8 low-res
      ones on odd rows, three signed bytes each. It consumes exactly the
      first 408 bytes; a shorter body makes a read fail. High-res normal k
      comes from byte 3 * (17 * (k / 9) + k % 9), low-res normal k from byte
      3 * (17 * (k / 8) + 9 + k % 8). */
  method Load(body: seq<byte>) returns (r: Result<MapChunkVertexNormals>)
    ensures r.Ok? <==> |body| >= NormalsSize
    ensures r.Ok? ==> && |r.value.highResVertexNormals| == HighCount
                      && |r.value.lowResVertexNormals| == LowCount
    ensures r.Ok? ==> forall k :: 0 <= k < HighCount ==>
                        r.value.highResVertexNormals[k] == ReadNormal(body, 3 * HighSlot(k))
    ensures r.Ok? ==> forall k :: 0 <= k < LowCount ==>
                        r.value.lowResVertexNormals[k] == ReadNormal(body, 3 * LowSlot(k))
    ensures r.Err? ==> r.error == TruncatedInput
  {
    var high: seq<Normal> := [];
    var low: seq<Normal> := [];
    var y: nat := 0;
    while y < RowCount
      invariant y <= RowCount
      invariant y % 2 == 0 ==> |high| == 9 * (y / 2) && |low| == 8 * (y / 2) && 3 * (17 * (y / 2)) <= |body|
      invariant y % 2 == 1 ==> |high| == 9 * (y / 2 + 1) && |low| == 8 * (y / 2) && 3 * (17 * (y / 2) + 9) <= |body|
      invariant HighRead(body, high) && LowRead(body, low)
    {
      if y % 2 == 0 {
        var row := ReadHighRow(body, y / 2, high);
        if row.Err? {
          return Err(row.error);
        }
        high := row.value;
      } else {
        var row := ReadLowRow(body, y / 2, low);
        if row.Err? {
          return Err(row.error);
        }
        low := row.value;
      }
      y := y + 1;
    }
    return Ok(MapChunkVertexNormals(high, low));
  }

  /** Bytes from 408 on are never read: two bodies that agree on their first
      408 bytes give the same normal at every slot. */
  lemma NormalsReadOnlyPrefix(a: seq<byte>, b: seq<byte>, k: nat)
    requires |a| >= NormalsSize && |b| >= NormalsSize && a[..NormalsSize] == b[..NormalsSize]
    ensures k < HighCount ==> ReadNormal(a, 3 * HighSlot(k)) == ReadNormal(b, 3 * HighSlot(k))
    ensures k < LowCount ==> ReadNormal(a, 3 * LowSlot(k)) == ReadNormal(b, 3 * LowSlot(k))
  {
    if k < HighCount {
      var at := 3 * HighSlot(k);
      assert a[at] == a[..NormalsSize][at] == b[at];
      assert a[at + 1] == a[..NormalsSize][at + 1] == b[at + 1];
      assert a[at + 2] == a[..NormalsSize][at + 2] == b[at + 2];
    }
    if k < LowCount {
      var at := 3 * LowSlot(k);
      assert a[at] == a[..NormalsSize][at] == b[at];
      assert a[at + 1] == a[..NormalsSize][at + 1] == b[at + 1];
      assert a[at + 2] == a[..NormalsSize][at + 2] == b[at + 2];
    }
  }
}
