/** The IFF-style frame around every chunk: four signature bytes, the body
    length as a little-endian uint32, then the body. The library's own frame
    reader and writer are not part of this model; this is the framing
    contract they are assumed to implement. */
module ChunkFrame {
  import opened Binary

  type Signature = s: seq<byte> | |s| == 4 witness [0, 0, 0, 0]

  datatype Frame = Frame(signature: Signature, body: seq<byte>)

  const MaxBodyLength: nat := 0x1_0000_0000

  /** The frame starting at `pos` and the position just after its body. A
      header or body that runs past the end of `data` is a truncated read. */
  function ReadFrame(data: seq<byte>, pos: nat): (r: Result<(Frame, nat)>)
    requires pos <= |data|
    ensures r.Ok? ==> pos + 8 + |r.value.0.body| == r.value.1 <= |data|
  {
    if |data| - pos < 8 then Err(TruncatedInput)
    else
      var length := DecodeUInt32(data[pos + 4..pos + 8]);
      if |data| - pos - 8 < length then Err(TruncatedInput)
      else Ok((Frame(data[pos..pos + 4], data[pos + 8..pos + 8 + length]), pos + 8 + length))
  }

  /** Signature, body length, body. A body whose length does not fit the
      32-bit length field cannot be framed. */
  function WriteFrame(signature: Signature, body: seq<byte>): (r: Result<seq<byte>>)
    ensures r.Ok? <==> |body| < MaxBodyLength
    ensures r.Ok? ==>
              && |r.value| == 8 + |body|
              && r.value[..4] == signature
              && DecodeUInt32(r.value[4..8]) == |body|
              && r.value[8..] == body
  {
    if |body| >= MaxBodyLength then Err(ValueTooLarge)
    else Ok(signature + EncodeUInt32(|body|) + body)
  }

  /** A typed chunk read: the frame at `pos` must carry `expected`. It
      succeeds exactly when a whole frame with that signature sits at `pos`,
      and then gives the frame's body and the position after it; a whole
      frame with another signature is rejected as such. */
  function ReadChunk(data: seq<byte>, pos: nat, expected: Signature): (r: Result<(seq<byte>, nat)>)
    requires pos <= |data|
    ensures r.Ok? <==> ReadFrame(data, pos).Ok? && ReadFrame(data, pos).value.0.signature == expected
    ensures r.Ok? ==> r.value == (ReadFrame(data, pos).value.0.body, ReadFrame(data, pos).value.1)
    ensures r.Ok? ==> pos + 8 + |r.value.0| == r.value.1 <= |data| && data[pos..pos + 4] == expected
    ensures ReadFrame(data, pos).Ok? && !r.Ok? ==> r == Err(UnexpectedSignature)
  {
    var (frame, next) :- ReadFrame(data, pos);
    if frame.signature != expected then Err(UnexpectedSignature)
    else Ok((frame.body, next))
  }

  /** Decoding a written frame, wherever it sits and whatever follows it,
      gives back its signature and body and stops right after the body. */
  lemma ReadWrittenFrame(prefix: seq<byte>, signature: Signature, body: seq<byte>, rest: seq<byte>)
    requires WriteFrame(signature, body).Ok?
    ensures var bytes := WriteFrame(signature, body).value;
            ReadFrame(prefix + bytes + rest, |prefix|)
              == Ok((Frame(signature, body), |prefix| + |bytes|))
  {
    var bytes := WriteFrame(signature, body).value;
    var data := prefix + bytes + rest;
    var pos := |prefix|;
    assert data[pos..pos + 4] == bytes[..4];
    assert data[pos + 4..pos + 8] == bytes[4..8];
    assert data[pos + 8..pos + 8 + |body|] == bytes[8..];
  }

  /** Re-encoding a decoded frame reproduces the bytes it was read from, the
      length field included. */
  lemma WriteReadFrame(data: seq<byte>, pos: nat)
    requires pos <= |data| && ReadFrame(data, pos).Ok?
    ensures var (frame, next) := ReadFrame(data, pos).value;
            WriteFrame(frame.signature, frame.body) == Ok(data[pos..next])
  {
    var (frame, next) := ReadFrame(data, pos).value;
    EncodeDecodeUInt32(data[pos + 4..pos + 8]);
    assert data[pos..next] == data[pos..pos + 4] + data[pos + 4..pos + 8] + data[pos + 8..next];
  }

  /** Bytes after a frame do not change how it reads. */
  lemma ReadFrameIgnoresTail(data: seq<byte>, pos: nat, extra: seq<byte>)
    requires pos <= |data| && ReadFrame(data, pos).Ok?
    ensures ReadFrame(data + extra, pos) == ReadFrame(data, pos)
  {
    var next := ReadFrame(data, pos).value.1;
    assert (data + extra)[pos..next] == data[pos..next];
    assert (data + extra)[pos + 4..pos + 8] == data[pos + 4..pos + 8];
    assert (data + extra)[pos..pos + 4] == data[pos..pos + 4];
    assert (data + extra)[pos + 8..next] == data[pos + 8..next];
  }

  /** Cutting a written frame anywhere short of its end makes the read fail
      as truncated, never yield a partial body. */
  lemma TruncatedFrameFails(signature: Signature, body: seq<byte>, cut: nat)
    requires WriteFrame(signature, body).Ok?
    requires cut < |WriteFrame(signature, body).value|
    ensures ReadFrame(WriteFrame(signature, body).value[..cut], 0) == Err(TruncatedInput)
  {
    var bytes := WriteFrame(signature, body).value;
    if cut >= 8 {
      assert bytes[..cut][4..8] == bytes[4..8];
    }
  }

  /** A written chunk reads back under its own signature, wherever it sits
      and whatever follows it, and is rejected under any other. */
  lemma ReadWrittenChunk(prefix: seq<byte>, signature: Signature, body: seq<byte>, rest: seq<byte>, expected: Signature)
    requires WriteFrame(signature, body).Ok?
    ensures var bytes := WriteFrame(signature, body).value;
            ReadChunk(prefix + bytes + rest, |prefix|, expected)
              == if expected == signature then Ok((body, |prefix| + |bytes|)) else Err(UnexpectedSignature)
  {
    ReadWrittenFrame(prefix, signature, body, rest);
  }
}
