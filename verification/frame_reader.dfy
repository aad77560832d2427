/** The frame reader, `FileControl.Read`: given an offset, extract the candidate
    frame that starts there. A frame is a 4-byte little-endian signed length followed
    by that many payload bytes, and only lengths in [0, MaxPayload] are frames. */
module FrameReader {
  import opened Bytes
  import opened SourceFile

  /** The largest payload length the reader accepts. */
  const MaxPayload: nat := 200

  /** Size of the length prefix. */
  const PrefixSize: nat := 4

  /** What `Read` hands back to the scanner: `io.EOF`, or a payload buffer with a
      nil error. Every other error `Read` can return comes from the operating
      system and is not part of this model. */
  datatype ReadResult = Eof | Payload(data: seq<byte>)

  /** The length prefix at `off`: the 4-byte buffer filled by one read, zero-padded
      past the end of the file, decoded as a little-endian `int32`. */
  function LengthAt(src: seq<byte>, off: nat): (v: int32)
    ensures v as int
            == ByteAt(src, off) as int + 0x100 * ByteAt(src, off + 1) as int
               + 0x1_0000 * ByteAt(src, off + 2) as int + 0x100_0000 * ByteAt(src, off + 3) as int
               - (if ByteAt(src, off + 3) >= 0x80 then TwoTo32 else 0)
  {
    var b := CopyAt(src, off, PrefixSize);
    BinaryToInt32Value(b);
    BinaryToInt32(b)
  }

  predicate InRange(v: int32)
  {
    0 <= v as int <= MaxPayload
  }

  /** `FileControl.Read(offset)`.
      - `offset >= size`: `io.EOF`.
      - otherwise the prefix read returns at least one byte and a nil error;
      - a prefix outside [0, 200] returns `nil, err` where `err` is that nil error,
        so the scanner gets an EMPTY payload, not a failure;
      - a zero length reads nothing and returns an empty payload;
      - a positive length with no byte left after the prefix reads zero bytes and
        returns `io.EOF`;
      - otherwise the payload buffer has exactly that length, zero-padded past
        the end of the file. */
  function ReadAt(src: seq<byte>, off: nat): (r: ReadResult)
    ensures off >= |src| ==> r == Eof
    ensures off < |src| && !InRange(LengthAt(src, off)) ==> r == Payload([])
    ensures off < |src| && InRange(LengthAt(src, off))
              && (LengthAt(src, off) == 0 || off + PrefixSize < |src|) ==>
              && r.Payload?
              && |r.data| == LengthAt(src, off) as int
              && forall i :: 0 <= i < |r.data| ==> r.data[i] == ByteAt(src, off + PrefixSize + i)
    ensures (off < |src| && InRange(LengthAt(src, off)) && LengthAt(src, off) > 0
             && off + PrefixSize >= |src|) ==> r == Eof
    ensures r.Payload? ==> off < |src| && |r.data| <= MaxPayload
  {
    if off >= |src| then Eof
    else
      var v := LengthAt(src, off);
      if !InRange(v) then Payload([])
      else if v == 0 then Payload([])
      else if off + PrefixSize >= |src| then Eof
      else Payload(CopyAt(src, off + PrefixSize, v as nat))
  }

  /** A well-formed frame: the encoded length of the payload followed by the payload. */
  function EncodeFrame(p: seq<byte>): (f: seq<byte>)
    requires |p| <= MaxPayload
    ensures |f| == PrefixSize + |p|
  {
    Int32ToBinary(|p| as int32) + p
  }

  /** The encoded length of a small payload is its length byte followed by zeros. */
  lemma Int32ToBinaryOfLength(n: nat)
    requires n <= MaxPayload
    ensures Int32ToBinary(n as int32) == [n as byte, 0, 0, 0]
  {
    BinaryRoundTrip([n as byte, 0, 0, 0]);
    BinaryToInt32Value([n as byte, 0, 0, 0]);
  }

  /** Reading at the start of a well-formed frame that lies inside the file yields
      exactly its payload. */
  lemma ReadFrame(src: seq<byte>, off: nat, p: seq<byte>)
    requires |p| <= MaxPayload
    requires off + PrefixSize + |p| <= |src|
    requires src[off .. off + PrefixSize + |p|] == EncodeFrame(p)
    ensures ReadAt(src, off) == Payload(p)
  {
    var f := EncodeFrame(p);
    CopyInside(src, off, PrefixSize);
    assert CopyAt(src, off, PrefixSize) == f[..PrefixSize];
    Int32RoundTrip(|p| as int32);
    assert f[..PrefixSize] == Int32ToBinary(|p| as int32);
    assert LengthAt(src, off) as int == |p|;
    if |p| > 0 {
      CopyInside(src, off + PrefixSize, |p|);
      assert src[off + PrefixSize .. off + PrefixSize + |p|] == f[PrefixSize..];
    }
  }

  /** Conversely, a payload read from a prefix in range, whose bytes all lie inside
      the file, is preceded by its own encoded length: the bytes read are a
      well-formed frame. */
  lemma PayloadIsFrame(src: seq<byte>, off: nat, p: seq<byte>)
    requires ReadAt(src, off) == Payload(p)
    requires InRange(LengthAt(src, off))
    requires off + PrefixSize + |p| <= |src|
    ensures src[off .. off + PrefixSize + |p|] == EncodeFrame(p)
  {
    var pre := CopyAt(src, off, PrefixSize);
    CopyInside(src, off, PrefixSize);
    BinaryRoundTrip(pre);
    assert pre == Int32ToBinary(|p| as int32);
    CopyInside(src, off + PrefixSize, |p|);
    assert p == src[off + PrefixSize .. off + PrefixSize + |p|];
    assert src[off .. off + PrefixSize + |p|] == pre + p;
  }
}
