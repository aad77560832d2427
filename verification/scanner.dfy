/** The resynchronising scan of `Reader`: read the candidate frame at the cursor,
    try to decode its payload, copy the raw frame to the temporary output on
    success and jump past it, otherwise move one byte on; stop at end of file.
    The MessagePack decoder is the parameter `decodes`, true when decoding the
    payload into a record succeeds. */
module Scanner {
  import opened Bytes
  import opened SourceFile
  import opened FrameReader

  /** What one iteration of the scan loop decides. */
  datatype Step =
    | End               // `Read` returned `io.EOF`: finalise and stop
    | Skip              // the payload did not decode: advance by one byte
    | Accept(size: nat) // the payload decoded: copy `size` raw bytes and advance past them

  /** One iteration of the loop in `Reader` at cursor `off`. */
  function StepAt(src: seq<byte>, decodes: seq<byte> -> bool, off: nat): (s: Step)
    ensures s == End <==> ReadAt(src, off) == Eof
    ensures s == Skip <==> ReadAt(src, off).Payload? && !decodes(ReadAt(src, off).data)
    ensures s.Accept? <==> ReadAt(src, off).Payload? && decodes(ReadAt(src, off).data)
    ensures s.Accept? ==> s.size == |ReadAt(src, off).data| + PrefixSize
    ensures s.Accept? ==> PrefixSize <= s.size <= PrefixSize + MaxPayload
    ensures s != End ==> off < |src|
  {
    match ReadAt(src, off)
    case Eof => End
    case Payload(data) => if decodes(data) then Accept(|data| + PrefixSize) else Skip
  }

  /** The cursor after a step that did not end the scan (the deferred update in the
      loop body): one byte on after a rejection, past the whole frame after an
      acceptance. */
  function Advance(off: nat, s: Step): nat
    requires s != End
  {
    match s
    case Skip => off + 1
    case Accept(size) => off + size
  }

  /** The scan from cursor `off` with `out` already in the temporary file: the
      content of the temporary file when `Read` reports end of file. */
  function Scan(src: seq<byte>, decodes: seq<byte> -> bool, off: nat, out: seq<byte>): seq<byte>
    decreases |src| - off, 1
  {
    ScanStep(src, decodes, off, StepAt(src, decodes, off), out)
  }

  /** The rest of the scan once the iteration at `off` has decided `s`. */
  function ScanStep(src: seq<byte>, decodes: seq<byte> -> bool, off: nat, s: Step, out: seq<byte>): seq<byte>
    requires s != End ==> off < |src|
    requires s.Accept? ==> s.size > 0
    decreases |src| - off, 0
  {
    match s
    case End => out
    case Skip => Scan(src, decodes, Advance(off, s), out)
    case Accept(size) => Scan(src, decodes, Advance(off, s), out + CopyAt(src, off, size))
  }

  /** A whole run: the temporary file is opened for appending without truncation,
      so whatever it held before (`prior`) stays in front; the scan starts at
      offset 0; at end of file the temporary file is renamed over the log, so the
      repaired log is the temporary file's final content. */
  function Repair(src: seq<byte>, decodes: seq<byte> -> bool, prior: seq<byte>): (r: seq<byte>)
    ensures r == prior + Gather(src, Accepted(src, decodes, 0))
    ensures prior <= r
  {
    ScanIsGather(src, decodes, 0, prior);
    Scan(src, decodes, 0, prior)
  }

  /** `Reader` as the loop it is written as: the loop computes the same output as the
      recursive scan. */
  method Reader(src: seq<byte>, decodes: seq<byte> -> bool, prior: seq<byte>) returns (result: seq<byte>)
    ensures result == Repair(src, decodes, prior)
  {
    ghost var goal := Repair(src, decodes, prior);
    var offset: nat := 0;
    var out := prior;
    while true
      invariant Scan(src, decodes, offset, out) == goal
      decreases |src| - offset
    {
      var r := ReadAt(src, offset);
      StepOfRead(src, decodes, offset, r);
      match r {
        case Eof =>
          ScanEnds(src, decodes, offset, out);
          return out;
        case Payload(data) =>
          if decodes(data) {
            ScanAccepts(src, decodes, offset, |data| + PrefixSize, out);
            out := out + CopyAt(src, offset, |data| + PrefixSize);
            offset := offset + |data| + PrefixSize;
          } else {
            ScanSkips(src, decodes, offset, out);
            offset := offset + 1;
          }
      }
    }
  }

  /** The step taken at `off`, read off the result `r` of `Read` there. */
  lemma StepOfRead(src: seq<byte>, decodes: seq<byte> -> bool, off: nat, r: ReadResult)
    requires r == ReadAt(src, off)
    ensures r.Eof? ==> StepAt(src, decodes, off) == End
    ensures r.Payload? && decodes(r.data) ==> StepAt(src, decodes, off) == Accept(|r.data| + PrefixSize)
    ensures r.Payload? && !decodes(r.data) ==> StepAt(src, decodes, off) == Skip
  {
  }

  /** The three ways one iteration of the loop continues the scan. */
  lemma ScanEnds(src: seq<byte>, decodes: seq<byte> -> bool, off: nat, out: seq<byte>)
    requires StepAt(src, decodes, off) == End
    ensures Scan(src, decodes, off, out) == out
  {
  }

  lemma ScanSkips(src: seq<byte>, decodes: seq<byte> -> bool, off: nat, out: seq<byte>)
    requires StepAt(src, decodes, off) == Skip
    ensures Scan(src, decodes, off, out) == Scan(src, decodes, off + 1, out)
  {
  }

  lemma ScanAccepts(src: seq<byte>, decodes: seq<byte> -> bool, off: nat, n: nat, out: seq<byte>)
    requires StepAt(src, decodes, off) == Accept(n)
    ensures Scan(src, decodes, off, out) == Scan(src, decodes, off + n, out + CopyAt(src, off, n))
  {
  }

  lemma AppendAssoc<T>(a: seq<T>, b: seq<T>, c: seq<T>)
    ensures (a + b) + c == a + (b + c)
  {
  }

  // ---------------------------------------------------------------------------
  // The accepted frames

  /** A span of the source file copied to the output. */
  datatype Span = Span(start: nat, size: nat)

  /** The spans the scan from `off` accepts, in the order it accepts them. */
  function Accepted(src: seq<byte>, decodes: seq<byte> -> bool, off: nat): seq<Span>
    decreases |src| - off, 1
  {
    AcceptedStep(src, decodes, off, StepAt(src, decodes, off))
  }

  function AcceptedStep(src: seq<byte>, decodes: seq<byte> -> bool, off: nat, s: Step): seq<Span>
    requires s != End ==> off < |src|
    requires s.Accept? ==> s.size > 0
    decreases |src| - off, 0
  {
    match s
    case End => []
    case Skip => Accepted(src, decodes, Advance(off, s))
    case Accept(size) => [Span(off, size)] + Accepted(src, decodes, Advance(off, s))
  }

  /** The raw bytes of a list of spans, one after the other. */
  function Gather(src: seq<byte>, spans: seq<Span>): seq<byte>
  {
    if spans == [] then [] else CopyAt(src, spans[0].start, spans[0].size) + Gather(src, spans[1..])
  }

  /** The span at `sp` is a frame the scanner accepts: a payload read there decodes
      and the span covers its prefix and payload. */
  predicate IsAcceptedFrame(src: seq<byte>, decodes: seq<byte> -> bool, sp: Span)
  {
    && ReadAt(src, sp.start).Payload?
    && decodes(ReadAt(src, sp.start).data)
    && sp.size == PrefixSize + |ReadAt(src, sp.start).data|
  }

  /** The output is what was there before followed by the raw bytes of the accepted
      spans; nothing is written for rejected offsets. */
  lemma {:induction false} ScanIsGather(src: seq<byte>, decodes: seq<byte> -> bool, off: nat, out: seq<byte>)
    ensures Scan(src, decodes, off, out) == out + Gather(src, Accepted(src, decodes, off))
    decreases |src| - off
  {
    var s := StepAt(src, decodes, off);
    match s
    case End =>
      ScanEnds(src, decodes, off, out);
    case Skip =>
      ScanSkips(src, decodes, off, out);
      ScanIsGather(src, decodes, off + 1, out);
    case Accept(size) =>
      var n := off + size;
      var rest := Accepted(src, decodes, n);
      var c := CopyAt(src, off, size);
      ScanAccepts(src, decodes, off, size, out);
      ScanIsGather(src, decodes, n, out + c);
      assert Accepted(src, decodes, off) == [Span(off, size)] + rest;
      assert ([Span(off, size)] + rest)[1..] == rest;
      assert Gather(src, Accepted(src, decodes, off)) == c + Gather(src, rest);
      AppendAssoc(out, c, Gather(src, rest));
  }

  /** Accepted spans are decodable frames that start inside the file at or after the
      starting cursor, in increasing source order and without overlapping. */
  lemma {:induction false} AcceptedInOrder(src: seq<byte>, decodes: seq<byte> -> bool, off: nat)
    ensures forall i :: 0 <= i < |Accepted(src, decodes, off)| ==>
              var sp := Accepted(src, decodes, off)[i];
              off <= sp.start < |src| && IsAcceptedFrame(src, decodes, sp)
    ensures forall i, j :: 0 <= i < j < |Accepted(src, decodes, off)| ==>
              Accepted(src, decodes, off)[i].start + Accepted(src, decodes, off)[i].size
                <= Accepted(src, decodes, off)[j].start
    decreases |src| - off
  {
    var s := StepAt(src, decodes, off);
    match s
    case End =>
    case Skip =>
      assert Accepted(src, decodes, off) == Accepted(src, decodes, off + 1);
      AcceptedInOrder(src, decodes, off + 1);
    case Accept(size) =>
      var n := off + size;
      AcceptedInOrder(src, decodes, n);
      var rest := Accepted(src, decodes, n);
      var all := Accepted(src, decodes, off);
      assert all == AcceptedStep(src, decodes, off, s) == [Span(off, size)] + rest;
      forall i, j | 0 <= i < j < |all|
        ensures all[i].start + all[i].size <= all[j].start
      {
        assert all[j] == rest[j - 1];
        if i > 0 {
          assert all[i] == rest[i - 1];
        }
      }
  }

  // ---------------------------------------------------------------------------
  // The cursor

  /** The offsets the scan visits from `off`, the last being the one where `Read`
      reports end of file. */
  function Visited(src: seq<byte>, decodes: seq<byte> -> bool, off: nat): seq<nat>
    decreases |src| - off, 1
  {
    [off] + VisitedStep(src, decodes, off, StepAt(src, decodes, off))
  }

  function VisitedStep(src: seq<byte>, decodes: seq<byte> -> bool, off: nat, s: Step): seq<nat>
    requires s != End ==> off < |src|
    requires s.Accept? ==> s.size > 0
    decreases |src| - off, 0
  {
    if s == End then [] else Visited(src, decodes, Advance(off, s))
  }

  /** One step of the cursor from `o` to `o'` while the scan goes on: `o` is inside
      the file, and `o'` is one byte on after a payload that does not decode, and
      prefix plus payload on after one that does. */
  predicate Moves(src: seq<byte>, decodes: seq<byte> -> bool, o: nat, o': nat)
  {
    && o < |src|
    && (StepAt(src, decodes, o) == Skip ==> o' == o + 1)
    && (StepAt(src, decodes, o).Accept? ==> o' == o + PrefixSize + |ReadAt(src, o).data|)
  }

  /** The cursor starts at `off` and strictly increases: one byte after a payload
      that does not decode, prefix plus payload after one that does. Every visited
      offset but the last is inside the file, and the scan stops only where `Read`
      reports end of file. */
  lemma {:induction false} CursorAdvances(src: seq<byte>, decodes: seq<byte> -> bool, off: nat)
    ensures Visited(src, decodes, off)[0] == off
    ensures StepAt(src, decodes, Visited(src, decodes, off)[|Visited(src, decodes, off)| - 1]) == End
    ensures forall i :: 0 <= i < |Visited(src, decodes, off)| - 1 ==>
              Moves(src, decodes, Visited(src, decodes, off)[i], Visited(src, decodes, off)[i + 1])
    decreases |src| - off
  {
    var s := StepAt(src, decodes, off);
    var t := Visited(src, decodes, off);
    if s == End {
      assert VisitedStep(src, decodes, off, s) == [];
      assert t == [off];
    } else {
      var n := Advance(off, s);
      var t' := Visited(src, decodes, n);
      CursorAdvances(src, decodes, n);
      assert t == [off] + VisitedStep(src, decodes, off, s) == [off] + t';
      assert Moves(src, decodes, off, n);
      forall i | 0 <= i < |t| - 1
        ensures Moves(src, decodes, t[i], t[i + 1])
      {
        if i > 0 {
          assert t[i] == t'[i - 1] && t[i + 1] == t'[i];
        } else {
          assert t[1] == t'[0] == n;
        }
      }
    }
  }


  /** The accepted spans are exactly the acceptances among the visited offsets: the
      scan continues from every visited offset but the last, every accepted span
      starts at a visited offset where the step accepts with the span's size, and
      every visited offset where the step accepts contributes its span. */
  lemma {:induction false} AcceptedAreVisitedAccepts(src: seq<byte>, decodes: seq<byte> -> bool, off: nat)
    ensures forall i :: 0 <= i < |Visited(src, decodes, off)| - 1 ==>
              StepAt(src, decodes, Visited(src, decodes, off)[i]) != End
    ensures forall sp :: sp in Accepted(src, decodes, off) ==>
              sp.start in Visited(src, decodes, off) && StepAt(src, decodes, sp.start) == Accept(sp.size)
    ensures forall o :: o in Visited(src, decodes, off) && StepAt(src, decodes, o).Accept? ==>
              Span(o, StepAt(src, decodes, o).size) in Accepted(src, decodes, off)
    decreases |src| - off
  {
    var s := StepAt(src, decodes, off);
    var t := Visited(src, decodes, off);
    var a := Accepted(src, decodes, off);
    if s == End {
      assert VisitedStep(src, decodes, off, s) == [];
      assert t == [off];
      assert a == [];
    } else {
      var n := Advance(off, s);
      var t' := Visited(src, decodes, n);
      var a' := Accepted(src, decodes, n);
      AcceptedAreVisitedAccepts(src, decodes, n);
      assert t == [off] + VisitedStep(src, decodes, off, s) == [off] + t';
      assert a == AcceptedStep(src, decodes, off, s);
      assert a == (if s.Accept? then [Span(off, s.size)] else []) + a';
      forall i | 0 <= i < |t| - 1
        ensures StepAt(src, decodes, t[i]) != End
      {
        if i > 0 {
          assert t[i] == t'[i - 1] && i - 1 < |t'| - 1;
        } else {
          assert t[i] == off;
        }
      }
      forall sp | sp in a
        ensures sp.start in t && StepAt(src, decodes, sp.start) == Accept(sp.size)
      {
        if sp !in a' {
          assert sp == Span(off, s.size);
        }
      }
      forall o | o in t && StepAt(src, decodes, o).Accept?
        ensures Span(o, StepAt(src, decodes, o).size) in a
      {
        if o != off {
          assert o in t';
        }
      }
    }
  }

  // ---------------------------------------------------------------------------
  // Resynchronisation and clean input

  /** Resynchronisation never overshoots: when every offset from `off` up to `k` is
      rejected, the scan tries `k` itself, with nothing written on the way. */
  lemma {:induction false} SkipsReach(src: seq<byte>, decodes: seq<byte> -> bool, off: nat, k: nat, out: seq<byte>)
    requires off <= k
    requires forall o :: off <= o < k ==> StepAt(src, decodes, o) == Skip
    ensures Scan(src, decodes, off, out) == Scan(src, decodes, k, out)
    decreases k - off
  {
    if off < k {
      SkipsReach(src, decodes, off + 1, k, out);
    }
  }

  /** Every payload is at most 200 bytes. */
  predicate Bounded(ps: seq<seq<byte>>)
  {
    forall i :: 0 <= i < |ps| ==> |ps[i]| <= MaxPayload
  }

  /** Every payload decodes. */
  predicate AllDecode(ps: seq<seq<byte>>, decodes: seq<byte> -> bool)
  {
    forall i :: 0 <= i < |ps| ==> decodes(ps[i])
  }

  /** A clean log: the well-formed frames of the payloads, back to back. */
  function Frames(ps: seq<seq<byte>>): (f: seq<byte>)
    requires Bounded(ps)
  {
    if ps == [] then [] else EncodeFrame(ps[0]) + Frames(ps[1..])
  }

  /** A well-formed frame whose payload decodes, at the cursor, is accepted and
      copied verbatim. */
  lemma AcceptsFrame(src: seq<byte>, decodes: seq<byte> -> bool, off: nat, p: seq<byte>, tail: seq<byte>)
    requires |p| <= MaxPayload && decodes(p)
    requires off <= |src| && src[off..] == EncodeFrame(p) + tail
    ensures StepAt(src, decodes, off) == Accept(PrefixSize + |p|)
    ensures CopyAt(src, off, PrefixSize + |p|) == EncodeFrame(p)
    ensures src[off + PrefixSize + |p|..] == tail
  {
    var f := EncodeFrame(p);
    assert src[off .. off + |f|] == f by {
      assert src[off .. off + |f|] == src[off..][..|f|];
    }
    ReadFrame(src, off, p);
    CopyInside(src, off, |f|);
    assert src[off + |f|..] == src[off..][|f|..];
  }

  /** At the end of the file the scan writes nothing more. */
  lemma ScanAtEnd(src: seq<byte>, decodes: seq<byte> -> bool, off: nat, out: seq<byte>)
    requires off == |src|
    ensures Scan(src, decodes, off, out) == out + src[off..]
  {
    assert StepAt(src, decodes, off) == End;
    assert out + src[off..] == out;
  }

  /** Accepting a frame and then copying the tail verbatim copies everything from
      the frame on. */
  lemma AcceptThenTail(src: seq<byte>, decodes: seq<byte> -> bool, off: nat, p: seq<byte>,
                       tail: seq<byte>, out: seq<byte>)
    requires |p| <= MaxPayload && decodes(p)
    requires off <= |src| && src[off..] == EncodeFrame(p) + tail
    requires Scan(src, decodes, off + PrefixSize + |p|, out + EncodeFrame(p)) == out + EncodeFrame(p) + tail
    ensures Scan(src, decodes, off, out) == out + src[off..]
  {
    var f := EncodeFrame(p);
    AcceptsFrame(src, decodes, off, p, tail);
    ScanAccepts(src, decodes, off, |f|, out);
    AppendAssoc(out, f, tail);
  }

  /** The payloads after the first of a clean log are still bounded and decodable,
      and the log is the first frame followed by the rest. */
  lemma CleanRest(ps: seq<seq<byte>>, decodes: seq<byte> -> bool)
    requires ps != [] && Bounded(ps) && AllDecode(ps, decodes)
    ensures Bounded(ps[1..]) && AllDecode(ps[1..], decodes)
    ensures |ps[0]| <= MaxPayload && decodes(ps[0])
    ensures Frames(ps) == EncodeFrame(ps[0]) + Frames(ps[1..])
  {
    var rest := ps[1..];
    forall i | 0 <= i < |rest| ensures |rest[i]| <= MaxPayload && decodes(rest[i]) {
      assert rest[i] == ps[i + 1];
    }
  }

  /** From the start of a clean tail, the scan copies that tail verbatim. */
  lemma {:induction false} CleanTailCopied(src: seq<byte>, decodes: seq<byte> -> bool, off: nat,
                                           ps: seq<seq<byte>>, out: seq<byte>)
    requires Bounded(ps) && AllDecode(ps, decodes)
    requires off <= |src| && src[off..] == Frames(ps)
    ensures Scan(src, decodes, off, out) == out + src[off..]
    decreases |ps|
  {
    if ps == [] {
      ScanAtEnd(src, decodes, off, out);
    } else {
      var p, rest := ps[0], ps[1..];
      CleanRest(ps, decodes);
      AcceptsFrame(src, decodes, off, p, Frames(rest));
      CleanTailCopied(src, decodes, off + PrefixSize + |p|, rest, out + EncodeFrame(p));
      AcceptThenTail(src, decodes, off, p, Frames(rest), out);
    }
  }

  /** Idempotence on clean input: repairing a log made only of well-formed frames
      whose payloads decode appends exactly the log to the temporary file. */
  lemma CleanInputReproduced(ps: seq<seq<byte>>, decodes: seq<byte> -> bool, prior: seq<byte>)
    requires Bounded(ps) && AllDecode(ps, decodes)
    ensures Repair(Frames(ps), decodes, prior) == prior + Frames(ps)
  {
    CleanTailCopied(Frames(ps), decodes, 0, ps, prior);
  }

  /** Recovery after corruption: when every offset before `k` is rejected and a clean
      run of frames starts at `k`, the output is exactly the bytes from `k` on, so
      nothing after the recovery point is lost. */
  lemma RecoversAfterCorruption(src: seq<byte>, decodes: seq<byte> -> bool, k: nat,
                                ps: seq<seq<byte>>, prior: seq<byte>)
    requires Bounded(ps) && AllDecode(ps, decodes)
    requires k <= |src| && src[k..] == Frames(ps)
    requires forall o :: 0 <= o < k ==> StepAt(src, decodes, o) == Skip
    ensures Repair(src, decodes, prior) == prior + src[k..]
  {
    SkipsReach(src, decodes, 0, k, prior);
    CleanTailCopied(src, decodes, k, ps, prior);
  }

  /** The spans `fs` are accepted one after the other from `off`, each copied as
      the bytes it covers. */
  predicate AcceptsRun(src: seq<byte>, decodes: seq<byte> -> bool, off: nat, fs: seq<seq<byte>>)
    decreases |fs|
  {
    fs != [] ==>
      && StepAt(src, decodes, off) == Accept(|fs[0]|)
      && CopyAt(src, off, |fs[0]|) == fs[0]
      && AcceptsRun(src, decodes, off + |fs[0]|, fs[1..])
  }

  /** The byte sequences of `fs`, one after the other. */
  function Concat(fs: seq<seq<byte>>): (r: seq<byte>)
  {
    if fs == [] then [] else fs[0] + Concat(fs[1..])
  }

  /** The encoded frames of the payloads. */
  function Encoded(ps: seq<seq<byte>>): (fs: seq<seq<byte>>)
    requires Bounded(ps)
    ensures |fs| == |ps|
    ensures forall i :: 0 <= i < |ps| ==> fs[i] == EncodeFrame(ps[i])
  {
    if ps == [] then [] else [EncodeFrame(ps[0])] + Encoded(ps[1..])
  }

  /** A run of accepted spans is copied verbatim, and the scan continues just past
      it. */
  lemma {:induction false} RunCopied(src: seq<byte>, decodes: seq<byte> -> bool, off: nat,
                                     fs: seq<seq<byte>>, out: seq<byte>)
    requires AcceptsRun(src, decodes, off, fs)
    ensures Scan(src, decodes, off, out) == Scan(src, decodes, off + |Concat(fs)|, out + Concat(fs))
    decreases |fs|
  {
    if fs == [] {
      assert out + Concat(fs) == out;
    } else {
      var f, more := fs[0], fs[1..];
      RunCopied(src, decodes, off + |f|, more, out + f);
      assert Concat(fs) == f + Concat(more);
      AcceptThenRun(src, decodes, off, f, Concat(more), off + |f| + |Concat(more)|, out);
    }
  }

  /** The frames of a clean run, followed by anything, are accepted one after the
      other, and together they are the run. */
  lemma {:induction false} CleanRunAccepted(src: seq<byte>, decodes: seq<byte> -> bool, off: nat,
                                            ps: seq<seq<byte>>, rest: seq<byte>)
    requires Bounded(ps) && AllDecode(ps, decodes)
    requires off <= |src| && src[off..] == Frames(ps) + rest
    ensures AcceptsRun(src, decodes, off, Encoded(ps))
    ensures Concat(Encoded(ps)) == Frames(ps)
    decreases |ps|
  {
    if ps != [] {
      var p, more := ps[0], ps[1..];
      var f := EncodeFrame(p);
      CleanRest(ps, decodes);
      AppendAssoc(f, Frames(more), rest);
      AcceptsFrame(src, decodes, off, p, Frames(more) + rest);
      CleanRunAccepted(src, decodes, off + |f|, more, rest);
      assert Encoded(ps) == [f] + Encoded(more);
      assert Encoded(ps)[1..] == Encoded(more);
    }
  }

  /** A clean run of frames at the cursor is copied verbatim, whatever follows it:
      the scan leaves the run with the run appended and the cursor just past it. */
  lemma CleanPrefixCopied(src: seq<byte>, decodes: seq<byte> -> bool, off: nat,
                          ps: seq<seq<byte>>, rest: seq<byte>, out: seq<byte>)
    requires Bounded(ps) && AllDecode(ps, decodes)
    requires off <= |src| && src[off..] == Frames(ps) + rest
    ensures Scan(src, decodes, off, out) == Scan(src, decodes, off + |Frames(ps)|, out + Frames(ps))
  {
    CleanRunAccepted(src, decodes, off, ps, rest);
    RunCopied(src, decodes, off, Encoded(ps), out);
  }

  /** Accepting the span `f` at the cursor and then going from just past it to `e`
      while writing `g` goes from the cursor to `e` writing `f + g`. */
  lemma AcceptThenRun(src: seq<byte>, decodes: seq<byte> -> bool, off: nat, f: seq<byte>,
                      g: seq<byte>, e: nat, out: seq<byte>)
    requires StepAt(src, decodes, off) == Accept(|f|) && CopyAt(src, off, |f|) == f
    requires Scan(src, decodes, off + |f|, out + f) == Scan(src, decodes, e, out + f + g)
    ensures Scan(src, decodes, off, out) == Scan(src, decodes, e, out + (f + g))
  {
    ScanAccepts(src, decodes, off, |f|, out);
    AppendAssoc(out, f, g);
  }

  /** Bounded resynchronisation between clean runs: a log that starts with clean
      frames, then has a corrupted span where every offset is rejected, then clean
      frames to the end, is repaired into exactly the two clean runs; the frames
      before the corruption are kept and none after it is lost. */
  lemma CorruptionBetweenCleanRuns(src: seq<byte>, decodes: seq<byte> -> bool, ps: seq<seq<byte>>,
                                   k: nat, qs: seq<seq<byte>>, prior: seq<byte>)
    requires Bounded(ps) && AllDecode(ps, decodes) && Bounded(qs) && AllDecode(qs, decodes)
    requires |Frames(ps)| <= k <= |src|
    requires src[..|Frames(ps)|] == Frames(ps) && src[k..] == Frames(qs)
    requires forall o :: |Frames(ps)| <= o < k ==> StepAt(src, decodes, o) == Skip
    ensures Repair(src, decodes, prior) == prior + Frames(ps) + Frames(qs)
  {
    ScanBetweenCleanRuns(src, decodes, ps, k, qs, prior);
  }

  lemma ScanBetweenCleanRuns(src: seq<byte>, decodes: seq<byte> -> bool, ps: seq<seq<byte>>,
                             k: nat, qs: seq<seq<byte>>, out: seq<byte>)
    requires Bounded(ps) && AllDecode(ps, decodes) && Bounded(qs) && AllDecode(qs, decodes)
    requires |Frames(ps)| <= k <= |src|
    requires src[..|Frames(ps)|] == Frames(ps) && src[k..] == Frames(qs)
    requires forall o :: |Frames(ps)| <= o < k ==> StepAt(src, decodes, o) == Skip
    ensures Scan(src, decodes, 0, out) == out + Frames(ps) + Frames(qs)
  {
    var m, mid := |Frames(ps)|, out + Frames(ps);
    CleanFrontCopied(src, decodes, ps, out);
    SkipsReach(src, decodes, m, k, mid);
    CleanTailCopied(src, decodes, k, qs, mid);
  }

  /** `CleanPrefixCopied` for a clean run at the very start of the log. */
  lemma CleanFrontCopied(src: seq<byte>, decodes: seq<byte> -> bool, ps: seq<seq<byte>>, out: seq<byte>)
    requires Bounded(ps) && AllDecode(ps, decodes)
    requires |Frames(ps)| <= |src| && src[..|Frames(ps)|] == Frames(ps)
    ensures Scan(src, decodes, 0, out) == Scan(src, decodes, |Frames(ps)|, out + Frames(ps))
  {
    var m := |Frames(ps)|;
    assert src[0..] == src[..m] + src[m..];
    CleanPrefixCopied(src, decodes, 0, ps, src[m..], out);
  }

  /** A single stray byte `c` in front of a well-formed frame with a non-empty
      payload reads the length `c + 256 * |q|`, at least 256, so `Read` hands back
      an empty payload; when the decoder rejects that, the byte is skipped. */
  lemma SingleByteSkipped(src: seq<byte>, decodes: seq<byte> -> bool, m: nat, q: seq<byte>, tail: seq<byte>)
    requires 0 < |q| <= MaxPayload && !decodes([])
    requires m + 1 <= |src| && src[m + 1..] == EncodeFrame(q) + tail
    ensures StepAt(src, decodes, m) == Skip
  {
    Int32ToBinaryOfLength(|q|);
    assert ByteAt(src, m + 1) == EncodeFrame(q)[0] == |q| as byte;
    assert ByteAt(src, m + 2) == EncodeFrame(q)[1] == 0;
    assert ByteAt(src, m + 3) == EncodeFrame(q)[2] == 0;
    assert !InRange(LengthAt(src, m));
  }

  /** The two sides of a byte in the middle of a sequence. */
  lemma AroundByte(a: seq<byte>, c: byte, b: seq<byte>, src: seq<byte>)
    requires src == a + [c] + b
    ensures |src| == |a| + 1 + |b| && src[|a|] == c
    ensures src[..|a|] == a && src[|a| + 1..] == b
  {
  }

  /** One corrupted byte between two clean runs: the byte is skipped and the frame
      after it is recovered, provided the decoder rejects an empty payload. */
  lemma OneCorruptByte(src: seq<byte>, ps: seq<seq<byte>>, c: byte, qs: seq<seq<byte>>,
                       decodes: seq<byte> -> bool, prior: seq<byte>)
    requires Bounded(ps) && AllDecode(ps, decodes) && Bounded(qs) && AllDecode(qs, decodes)
    requires qs != [] && !decodes([])
    requires src == Frames(ps) + [c] + Frames(qs)
    ensures Repair(src, decodes, prior) == prior + Frames(ps) + Frames(qs)
  {
    var m := |Frames(ps)|;
    AroundByte(Frames(ps), c, Frames(qs), src);
    assert decodes(qs[0]);
    assert Frames(qs) == EncodeFrame(qs[0]) + Frames(qs[1..]);
    SingleByteSkipped(src, decodes, m, qs[0], Frames(qs[1..]));
    assert forall o :: m <= o < m + 1 ==> StepAt(src, decodes, o) == Skip;
    CorruptionBetweenCleanRuns(src, decodes, ps, m + 1, qs, prior);
  }
}
