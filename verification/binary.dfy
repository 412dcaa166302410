/** Primitive codec shared by every chunk: byte and integer types, the failure
    type that stands for the exceptions a .NET BinaryReader throws, and the
    little-endian integer encodings BinaryReader/BinaryWriter use. */
module Binary {

  type byte = b: int | 0 <= b < 0x100
  type uint16 = n: int | 0 <= n < 0x1_0000
  type uint32 = n: int | 0 <= n < 0x1_0000_0000
  type int8 = n: int | -0x80 <= n < 0x80

  /** Why a decode or encode gave up. */
  datatype Error =
    | TruncatedInput        // a read ran past the end of the available bytes
    | UnexpectedSignature   // a typed chunk read met a different signature
    | ValueTooLarge         // a chunk body too long for its 32-bit length field
    | NotFound              // an offset lookup missed
    | DuplicateKey          // a dictionary insertion met a key already present

  /** A value or the error that stopped its computation; usable with `:-`. */
  datatype Result<+T> = Ok(value: T) | Err(error: Error) {
    predicate IsFailure() {
      Err?
    }

    function PropagateFailure<U>(): Result<U>
      requires Err?
    {
      Err(error)
    }

    function Extract(): T
      requires Ok?
    {
      value
    }
  }

  datatype Option<+T> = None | Some(value: T)

  /** The bytes of an ASCII text, one byte per character. */
  function Ascii(s: string): (r: seq<byte>)
    requires forall i :: 0 <= i < |s| ==> s[i] as int < 0x100
    ensures |r| == |s|
    ensures forall i :: 0 <= i < |s| ==> r[i] == s[i] as int
  {
    seq(|s|, i requires 0 <= i < |s| => s[i] as int)
  }

  /** BinaryReader.ReadUInt16: two bytes, least significant first. */
  function DecodeUInt16(b: seq<byte>): uint16
    requires |b| == 2
  {
    b[0] as int + 0x100 * b[1] as int
  }

  /** BinaryWriter.Write(ushort). */
  function EncodeUInt16(v: uint16): (r: seq<byte>)
    ensures |r| == 2
    ensures DecodeUInt16(r) == v
  {
    [v % 0x100, v / 0x100]
  }

  lemma EncodeDecodeUInt16(b: seq<byte>)
    requires |b| == 2
    ensures EncodeUInt16(DecodeUInt16(b)) == b
  {
  }

  /** BinaryReader.ReadUInt32: four bytes, least significant first. */
  function DecodeUInt32(b: seq<byte>): uint32
    requires |b| == 4
  {
    var lo: int := b[0] as int + 0x100 * b[1] as int;
    var hi: int := b[2] as int + 0x100 * b[3] as int;
    lo + 0x1_0000 * hi
  }

  /** BinaryWriter.Write(uint). */
  function EncodeUInt32(v: uint32): (r: seq<byte>)
    ensures |r| == 4
    ensures DecodeUInt32(r) == v
  {
    var lo := v % 0x1_0000;
    var hi := v / 0x1_0000;
    EncodeUInt16(lo) + EncodeUInt16(hi)
  }

  lemma EncodeDecodeUInt32(b: seq<byte>)
    requires |b| == 4
    ensures EncodeUInt32(DecodeUInt32(b)) == b
  {
    var lo: int := b[0] as int + 0x100 * b[1] as int;
    var hi: int := b[2] as int + 0x100 * b[3] as int;
    assert DecodeUInt32(b) == lo + 0x1_0000 * hi;
    assert DecodeUInt32(b) % 0x1_0000 == lo;
    assert DecodeUInt32(b) / 0x1_0000 == hi;
    EncodeDecodeUInt16(b[..2]);
    EncodeDecodeUInt16(b[2..]);
    assert b == b[..2] + b[2..];
  }

  /** BinaryReader.ReadSByte: the byte read as a two's-complement value. */
  function SByte(b: byte): (r: int8)
    ensures r % 0x100 == b
  {
    if b < 0x80 then b else b - 0x100
  }
}
