/** Worked inputs for the scanner: a frame whose payload does not decode followed by
    a good one, a single good frame, a log cut short inside a payload, and length
    prefixes outside [0, 200]. */
module Scenarios {
  import opened Bytes
  import opened SourceFile
  import opened FrameReader
  import opened Scanner

  /** A four-byte frame `DE AD BE EF` that does not decode, then a five-byte frame
      that does: only the second frame reaches the output. Every offset inside the
      first frame reads a prefix outside [0, 200], so the output also relies on the
      decoder rejecting an empty payload. */
  lemma BadFrameThenGoodFrame(p: seq<byte>, decodes: seq<byte> -> bool, prior: seq<byte>)
    requires |p| == 5 && decodes(p)
    requires !decodes([0xDE, 0xAD, 0xBE, 0xEF]) && !decodes([])
    ensures var src := [4, 0, 0, 0, 0xDE, 0xAD, 0xBE, 0xEF, 5, 0, 0, 0] + p;
            Repair(src, decodes, prior) == prior + [5, 0, 0, 0] + p
  {
    var src: seq<byte> := [4, 0, 0, 0, 0xDE, 0xAD, 0xBE, 0xEF, 5, 0, 0, 0] + p;
    forall o | 0 <= o < 8 ensures StepAt(src, decodes, o) == Skip {
      RejectedInside(src, decodes, p, o);
    }
    var f := EncodeFrame(p);
    Int32ToBinaryOfLength(|p|);
    assert src[8..] == f == Frames([p]);
    CleanInputOne(p, decodes);
    RecoversAfterCorruption(src, decodes, 8, [p], prior);
    AppendAssoc(prior, [5, 0, 0, 0], p);
  }

  lemma RejectedInside(src: seq<byte>, decodes: seq<byte> -> bool, p: seq<byte>, o: nat)
    requires |p| == 5 && src == [4, 0, 0, 0, 0xDE, 0xAD, 0xBE, 0xEF, 5, 0, 0, 0] + p
    requires !decodes([0xDE, 0xAD, 0xBE, 0xEF]) && !decodes([])
    requires o < 8
    ensures StepAt(src, decodes, o) == Skip
  {
    var b := CopyAt(src, o, PrefixSize);
    BinaryToInt32Value(b);
    assert b == src[o .. o + 4];
    if o == 0 {
      assert LengthAt(src, 0) == 4;
      assert ReadAt(src, 0).data == src[4..8];
      assert src[4..8] == [0xDE, 0xAD, 0xBE, 0xEF];
    } else {
      SmallValue(b, MaxPayload);
      assert !InRange(LengthAt(src, o));
    }
  }

  lemma CleanInputOne(p: seq<byte>, decodes: seq<byte> -> bool)
    requires |p| <= MaxPayload && decodes(p)
    ensures Bounded([p]) && AllDecode([p], decodes)
    ensures Frames([p]) == EncodeFrame(p)
  {
    assert [p][1..] == [];
  }

  /** A single well-formed three-byte frame that ends the file is copied as is. */
  lemma SingleFrameAtEnd(p: seq<byte>, decodes: seq<byte> -> bool, prior: seq<byte>)
    requires |p| == 3 && decodes(p)
    ensures Repair([3, 0, 0, 0] + p, decodes, prior) == prior + ([3, 0, 0, 0] + p)
  {
    Int32ToBinaryOfLength(3);
    CleanInputOne(p, decodes);
    CleanInputReproduced([p], decodes, prior);
  }

  /** `02 00 00 00 9A`: the prefix asks for two bytes, one is left. The reader does
      not report a truncated frame: it hands the decoder `9A 00`, zero-padded. When
      that and the empty payload are rejected, the scan reaches the last byte, whose
      zero-padded prefix is 154 with nothing after it, and ends there having written
      nothing. */
  lemma TruncatedPayload(decodes: seq<byte> -> bool, prior: seq<byte>)
    requires !decodes([0x9A, 0]) && !decodes([])
    ensures ReadAt([2, 0, 0, 0, 0x9A], 0) == Payload([0x9A, 0])
    ensures Repair([2, 0, 0, 0, 0x9A], decodes, prior) == prior
  {
    var src: seq<byte> := [2, 0, 0, 0, 0x9A];
    TruncatedStep(src, decodes, 0);
    forall o | 0 <= o < 4 ensures StepAt(src, decodes, o) == Skip {
      TruncatedStep(src, decodes, o);
    }
    TruncatedStep(src, decodes, 4);
    SkipsReach(src, decodes, 0, 4, prior);
    ScanEnds(src, decodes, 4, prior);
  }

  /** The same log when the decoder accepts `9A 00`: the frame is copied with the
      zero byte the reader padded it with, so the output holds a byte that is not in
      the log and is longer than the log. */
  lemma TruncatedPayloadAccepted(decodes: seq<byte> -> bool, prior: seq<byte>)
    requires decodes([0x9A, 0])
    ensures Repair([2, 0, 0, 0, 0x9A], decodes, prior) == prior + [2, 0, 0, 0, 0x9A, 0]
  {
    var src: seq<byte> := [2, 0, 0, 0, 0x9A];
    var b := CopyAt(src, 0, PrefixSize);
    assert b == [2, 0, 0, 0];
    assert LengthAt(src, 0) == 2;
    assert ReadAt(src, 0).data == [0x9A, 0];
    ScanAccepts(src, decodes, 0, 6, prior);
    assert CopyAt(src, 0, 6) == [2, 0, 0, 0, 0x9A, 0];
    ScanEnds(src, decodes, 6, prior + [2, 0, 0, 0, 0x9A, 0]);
  }

  lemma TruncatedStep(src: seq<byte>, decodes: seq<byte> -> bool, o: nat)
    requires src == [2, 0, 0, 0, 0x9A] && o < 5
    requires !decodes([0x9A, 0]) && !decodes([])
    ensures o == 0 ==> ReadAt(src, 0) == Payload([0x9A, 0])
    ensures o < 4 ==> StepAt(src, decodes, o) == Skip
    ensures o == 4 ==> StepAt(src, decodes, o) == End
  {
    var b := CopyAt(src, o, PrefixSize);
    assert b == [ByteAt(src, o), ByteAt(src, o + 1), ByteAt(src, o + 2), ByteAt(src, o + 3)];
    BinaryToInt32Value(b);
    if o == 0 {
      assert LengthAt(src, 0) == 2;
      assert ReadAt(src, 0).data == [0x9A, 0];
    } else if o == 4 {
      assert LengthAt(src, 4) == 0x9A;
    } else {
      assert !InRange(LengthAt(src, o));
    }
  }

  /** Prefixes 201 (`C9 00 00 00`) and -1 (`FF FF FF FF`) are not lengths, yet the
      reader reports neither: it returns an empty payload, which the scanner passes
      to the decoder. Should the decoder accept it, the four prefix bytes are copied
      as a frame. */
  lemma LengthsOutOfRange(tail: seq<byte>, decodes: seq<byte> -> bool)
    ensures ReadAt([0xC9, 0, 0, 0] + tail, 0) == Payload([])
    ensures ReadAt([0xFF, 0xFF, 0xFF, 0xFF] + tail, 0) == Payload([])
    ensures decodes([]) ==> StepAt([0xFF, 0xFF, 0xFF, 0xFF] + tail, decodes, 0) == Accept(PrefixSize)
  {
    var a: seq<byte> := [0xC9, 0, 0, 0] + tail;
    var b: seq<byte> := [0xFF, 0xFF, 0xFF, 0xFF] + tail;
    assert CopyAt(a, 0, PrefixSize) == a[..4];
    assert CopyAt(b, 0, PrefixSize) == b[..4];
    BinaryToInt32Value(CopyAt(a, 0, PrefixSize));
    BinaryToInt32Value(CopyAt(b, 0, PrefixSize));
  }
}
