# Log repair scan, modelled in Dafny

The tool repairs a binary log made of length-prefixed MessagePack records. Each
frame is a 4-byte little-endian signed length followed by that many payload bytes.
The tool starts at offset 0 and reads the candidate frame at the cursor, then tries
to decode its payload as a record. If decoding succeeds, it appends the raw bytes of
the frame to `temp_file.bin` and moves the cursor past the frame. If decoding fails,
it moves the cursor one byte forward. When the reader reports end of file, it
renames the temporary file over the log.

The model treats the log as an immutable byte sequence `src`. The MessagePack
decoder becomes a parameter `decodes: seq<byte> -> bool`, which is true when
decoding a payload into a record succeeds. Every part of the scan is then a pure
function of `src`, `decodes` and the earlier content `prior` of the temporary file.

- `bytes.dfy` (module `Bytes`): bytes, `int32`, `BinaryToInt32` and its inverse.
- `source_file.dfy` (module `SourceFile`): one seek-and-read into a zero-filled
  buffer (`CopyAt`). Both `Read` and `binaryCopy` read this way.
- `frame_reader.dfy` (module `FrameReader`): `FileControl.Read` as `ReadAt`, and
  the well-formed frame `EncodeFrame`.
- `scanner.dfy` (module `Scanner`): one loop iteration (`StepAt`), the recursive
  scan (`Scan`, `Repair`), the loop as written (`Reader`), and the properties of
  the scan: the order of accepted spans, the cursor's moves, and how runs of
  clean frames and corrupted spans are copied or skipped.
- `scenarios.dfy` (module `Scenarios`): concrete inputs worked through the model.

What the code does, as opposed to what one might expect of it (the model follows
the code):

- A length prefix outside [0, 200] does not cause an error. `Read` returns
  `nil, err` after a successful read, so `err` is nil. The scanner therefore decodes
  an EMPTY payload. If the decoder accepted that, the four prefix bytes would be
  copied as a frame.
- A payload that runs past the end of the file is not reported as truncated. The
  buffer is zero-padded and decoded as it is. If the padded payload decodes, the
  frame is accepted and `binaryCopy` writes it with the same zero padding
  (main.go:246-247). The output can then hold bytes that are not in the log and
  be longer than the log.
- A prefix that runs past the end of the file is also zero-padded.
- When the length is positive and no byte follows the prefix, the payload read
  returns `io.EOF`. That ends the whole scan.
- Recovery from a single stray byte in front of a frame relies on the decoder
  rejecting an empty payload. The prefix read at the stray byte is at least 256, so
  `Read` hands back an empty payload. If the decoder accepts it, the four bytes at
  the stray byte are copied as a frame. The cursor then lands three bytes into the
  next frame, so that frame is not accepted at its own start.
- The temporary file is opened for appending and is not truncated. Content left
  from an earlier run stays in front of the output.

## Model

| member | source | states |
|---|---|---|
| Bytes.BinaryToInt32 | main.go:222-230 | fewer than four bytes make `binary.Read` fail, and the result is 0 |
| Bytes.BinaryToInt32Value | main.go:222-230 | on four or more bytes the value is `b0 + 2^8 b1 + 2^16 b2 + 2^24 b3`, less `2^32` when `b3 >= 0x80`; it is negative exactly when `b3 >= 0x80` |
| Bytes.Int32ToBinary | main.go:222-230 | the little-endian encoding of an int32 is four bytes whose unsigned value is the two's-complement pattern of the input |
| Bytes.Int32RoundTrip | main.go:222-230 | decoding the encoding of any int32 gives it back |
| Bytes.BinaryRoundTrip | main.go:222-230 | every four bytes are the encoding of the value they decode to, so a prefix is determined by its value |
| Bytes.LittleEndianInjective | main.go:222-230 | two four-byte sequences with the same little-endian value are equal |
| Bytes.SmallValue | main.go:206-210 | a prefix decodes into [0, limit] (limit < 256) exactly when its three high bytes are zero and its low byte is at most the limit |
| SourceFile.CopyAt | main.go:194-197 | a read into a fresh `n`-byte buffer gives `n` bytes; byte `i` is the file's byte at `off + i`, or zero past the end of the file |
| SourceFile.CopyInside | main.go:245-247 | a read that lies inside the file returns exactly the file's bytes |
| SourceFile.CopyReadsThenZeros | main.go:194-197 | a read into a fresh buffer holds the file's bytes from the offset up to the end of the buffer or of the file, whichever comes first, then zeros; at or past the end of the file it is all zeros |
| FrameReader.LengthAt | main.go:192-206 | the length prefix at an offset is the little-endian `int32` of the four bytes there, each byte past the end of the file read as zero: `b0 + 2^8 b1 + 2^16 b2 + 2^24 b3`, less `2^32` when `b3 >= 0x80` |
| FrameReader.ReadAt | main.go:167-219 | EOF when the offset is at or past the file size; an empty payload with no error when the prefix is outside [0, 200]; otherwise a payload of exactly the prefix's length, holding the file bytes after the prefix and zero past the end; EOF when the length is positive and no byte follows the prefix; a payload is never longer than 200 |
| FrameReader.EncodeFrame | main.go:204-216 | a well-formed frame is four prefix bytes followed by the payload |
| FrameReader.ReadFrame | main.go:167-219 | reading at the start of a well-formed frame that lies inside the file gives exactly its payload |
| FrameReader.PayloadIsFrame | main.go:204-218 | conversely, a payload read from an in-range prefix whose bytes lie inside the file is preceded by its own encoded length |
| Scanner.StepAt | main.go:94-139 | an iteration ends the scan exactly when `Read` returns EOF; it skips exactly when the payload does not decode; it accepts exactly when it decodes, with size `len(data) + 4` in [4, 204]; it never accepts or skips at or past the end of the file |
| Scanner.Repair | main.go:68-146 | a whole run, from offset 0 with the temporary file's earlier content in front, until `RenameFile` (main.go:258-273) puts the result in place of the log: the output is the earlier content followed by the raw bytes of the accepted spans, in order; the temporary file is opened with `O_APPEND` and without `O_TRUNC` (main.go:70), so its earlier content stays in front of the output |
| Scanner.Reader | main.go:85-146 | the `for` loop of `Reader` computes the same output as the recursive scan `Repair` |
| Scanner.ScanEnds | main.go:106-111 | once `Read` reports end of file the scan writes nothing more |
| Scanner.ScanSkips | main.go:98-101 | a payload that does not decode writes nothing and moves the cursor one byte |
| Scanner.ScanAccepts | main.go:98-102 | a payload that decodes appends the `len(data) + 4` bytes read at the cursor, and the cursor moves past them |
| Scanner.ScanIsGather | main.go:130-139 | the output is the prior content followed by the raw bytes of the accepted spans, in order; nothing is written for rejected offsets |
| Scanner.AcceptedInOrder | main.go:98-104 | accepted spans start inside the file at or after the start cursor; each is a frame whose payload decodes, spanning its prefix and payload; they come in increasing order and never overlap |
| Scanner.CursorAdvances | main.go:98-115 | the visited offsets start at the start cursor; a rejection moves the cursor by one and an acceptance by `len(data) + 4`; every offset but the last is inside the file; the scan stops only where `Read` reports EOF |
| Scanner.AcceptedAreVisitedAccepts | main.go:98-139 | the scan goes on from every visited offset but the last; every accepted span starts at a visited offset where the step accepts with the span's size; every visited offset where the step accepts contributes its span, so no acceptance is missed |
| Scanner.SkipsReach | main.go:98-101 | when every offset from `off` up to `k` is rejected, the scan reaches `k` with nothing written, so resynchronisation never overshoots |
| Scanner.AcceptsFrame | main.go:130-139 | a well-formed frame whose payload decodes, at the cursor, is accepted and copied verbatim |
| Scanner.CleanTailCopied | main.go:98-139 | from the start of a run of well-formed frames whose payloads decode, the scan copies the rest of the file verbatim |
| Scanner.CleanInputReproduced | main.go:135-138 | repairing a log made only of well-formed frames whose payloads decode appends exactly the log |
| Scanner.RecoversAfterCorruption | main.go:98-139 | when every offset before `k` is rejected and clean frames start at `k`, the output is the earlier content followed by the bytes from `k` on |
| Scanner.SingleByteSkipped | main.go:192-210 | at a stray byte followed by a well-formed frame with a non-empty payload, the prefix read is the stray byte plus 256 times the payload length, outside [0, 200], so `Read` returns an empty payload and the step skips when the decoder rejects it |
| Scanner.OneCorruptByte | main.go:68-146 | clean frames, one corrupted byte, then clean frames (at least one): when the decoder rejects an empty payload, the repair gives the earlier content followed by the two runs of frames, so the byte is skipped and the frame after it is recovered |
| Scanner.RunCopied | main.go:98-139 | when the scan accepts a run of spans one after another, it copies each span verbatim and goes on from just past the run |
| Scanner.CleanRunAccepted | main.go:130-139 | a run of well-formed frames whose payloads decode, at the cursor, is accepted frame by frame, and the spans together are exactly the run's bytes |
| Scanner.CleanPrefixCopied | main.go:98-139 | a run of well-formed frames whose payloads decode, at the cursor and followed by anything, is copied verbatim and the scan goes on from just past it |
| Scanner.CleanFrontCopied | main.go:98-139 | a run of well-formed frames at the start of the log is copied verbatim and the scan goes on from just past it |
| Scanner.ScanBetweenCleanRuns | main.go:98-139 | clean frames, then a span where every offset is rejected, then clean frames to the end: the scan writes the two runs of frames and nothing of the span between them |
| Scanner.CorruptionBetweenCleanRuns | main.go:68-146 | repairing a log made of clean frames, a corrupted span whose every offset is rejected, and clean frames again gives the earlier content followed by the two runs of frames, with the corrupted span removed |
| Scenarios.BadFrameThenGoodFrame | main.go:94-139 | with `04 00 00 00 DE AD BE EF` not decoding, followed by a good five-byte frame, only the second frame is written |
| Scenarios.SingleFrameAtEnd | main.go:94-139 | a single good three-byte frame ending the file is copied unchanged |
| Scenarios.TruncatedPayload | main.go:213-218 | for `02 00 00 00 9A` the decoder is handed `9A 00`; if it rejects that and the empty payload, the scan ends having written nothing |
| Scenarios.TruncatedPayloadAccepted | main.go:213-218 | for `02 00 00 00 9A`, if the decoder accepts `9A 00`, the output is the five log bytes followed by a padding zero that is not in the log, one byte longer than the log (the copy zero-fills as at main.go:246-249) |
| Scenarios.LengthsOutOfRange | main.go:208-210 | prefixes 201 and -1 give an empty payload, not an error; if the decoder accepts an empty payload, the four prefix bytes are accepted as a frame |

## Left out

- Flag parsing, `main`, and the `recover` and stack dump in `main` (main.go:38-63) are not modelled. They are process plumbing.
- MessagePack decoding (main.go:118-128) is an external library. It appears only as the `decodes` parameter.
- Operating-system failures are not modelled, and each has its own effect in the code:
  - A failed open, seek, prefix read (main.go:168-174, 185-190, 199-202) or payload read (main.go:216-218) in `Read` returns the error, and the scanner ends the run with `log.Fatalf` (main.go:106-115).
  - A failed open or write in `binaryCopy` (main.go:236-241, 249-253) returns an error that `Reader` discards (main.go:138), so the accepted frame is silently dropped, or cut short by a partial write, while the cursor still moves past it (main.go:102). `Write` can return a positive count together with an error (main.go:249), and the later frames are appended after the fragment. Its seek and read errors (main.go:245, 247) are overwritten without being checked, so whatever the buffer then holds is written in place of the frame.
  - A failed open in `NewFileReader` (main.go:152-156) returns nil, and `Reader` dereferences it at main.go:69 before the nil check at main.go:72.
  - A failed stat in `Read` (main.go:180) dereferences a nil `FileInfo`.
  - A failed open of the temporary file makes `Reader` return the error (main.go:70, 80-82).
- On end of file the code calls `RenameFile` and then `log.Fatalf`, so even a clean run exits with a failure status (main.go:108-115). The model stops with the output. It does not model the exit status or the printed messages.
- `RenameFile` (main.go:258-273) is modelled only as its effect: the repaired log is the temporary file's final content. The stat checks, the rename, and the path `temp_file.bin` next to the log are not modelled.
- The embedded `sync.Mutex` and the `created` flag (main.go:24-25, 162-165) are not modelled. Nothing uses them.
- Offsets are `int64` in the code and unbounded naturals in the model. No realistic file reaches the 64-bit limit.
- A single `Read` on a regular file is assumed to fill as much of the buffer as the file still holds. A short read in the middle of a file is not modelled.
