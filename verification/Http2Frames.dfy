/**
 * HTTP/2 framing on the request path: frame lengths, reassembly of a header block from HEADERS and
 * CONTINUATION frames, and fragmentation of a re-encoded block (processor/watcher/http2_wrapper.go;
 * sections 4.1, 4.3, 6.2 and 6.10 of RFC 9113).
 */
module Http2Frames {
  import opened Wrappers
  import opened Bytes

  const FRAME_HEADER_LEN := 9
  const HEADERS: byte := 0x1
  const SETTINGS: byte := 0x4
  const CONTINUATION: byte := 0x9
  const FLAG_END_STREAM: byte := 0x1
  const FLAG_END_HEADERS: byte := 0x4
  const FLAG_PRIORITY: byte := 0x20
  const DEFAULT_MAX_FRAME_SIZE := 16384

  type StreamId = n: nat | n < 0x8000_0000

  /** The five bytes of stream dependency and weight, or nothing when the frame carries no priority. */
  type Priority = p: bytes | |p| == 0 || |p| == 5

  datatype Frame = Frame(ftype: byte, flags: byte, stream: StreamId, payload: bytes)

  /** The answer of a parser that may want more input: what it found is always a prefix of its input. */
  datatype Extraction = Need | Ready(len: nat) | WrongType(ftype: byte) | WrongStream(got: StreamId)

  predicate HasEndHeaders(flags: byte) {
    flags / FLAG_END_HEADERS % 2 == 1
  }

  predicate HasEndStream(flags: byte) {
    flags % 2 == FLAG_END_STREAM
  }

  predicate HasPriority(flags: byte) {
    flags / FLAG_PRIORITY % 2 == 1
  }

  // ---------------------------------------------------------------- reading frames

  function TotalLen(data: bytes): (r: Option<nat>)
    ensures r.Some? ==> FRAME_HEADER_LEN <= r.value <= |data|
  {
    if |data| < FRAME_HEADER_LEN then None
    else
      var n := FRAME_HEADER_LEN + U24(data);
      if |data| < n then None else Some(n)
  }

  function StreamOf(data: bytes): StreamId
    requires |data| >= FRAME_HEADER_LEN
  {
    U32(data[5..9]) % 0x8000_0000
  }

  function Shift(n: nat, e: Extraction): Extraction {
    if e.Ready? then Ready(n + e.len) else e
  }

  /** The CONTINUATION frames of one header block: which prefix of `data` completes it. */
  function ScanContinuations(data: bytes, stream: StreamId): (e: Extraction)
    ensures e.Ready? ==> FRAME_HEADER_LEN <= e.len <= |data|
  {
    var n := TotalLen(data);
    if n.None? then Need
    else if data[3] != CONTINUATION then WrongType(data[3])
    else if StreamOf(data) != stream then WrongStream(StreamOf(data))
    else if HasEndHeaders(data[4]) then Ready(n.value)
    else Shift(n.value, ScanContinuations(data[n.value..], stream))
  }

  function ExtractHeaders(data: bytes): (e: Extraction)
    ensures e.Ready? ==> FRAME_HEADER_LEN <= e.len <= |data|
  {
    var n := TotalLen(data);
    if n.None? then Need
    else if HasEndHeaders(data[4]) then Ready(n.value)
    else Shift(n.value, ScanContinuations(data[n.value..], StreamOf(data)))
  }

  /** One frame of the scan. */
  lemma ScanStep(data: bytes, stream: StreamId)
    ensures ScanContinuations(data, stream) ==
      var n := TotalLen(data);
      if n.None? then Need
      else if data[3] != CONTINUATION then WrongType(data[3])
      else if StreamOf(data) != stream then WrongStream(StreamOf(data))
      else if HasEndHeaders(data[4]) then Ready(n.value)
      else Shift(n.value, ScanContinuations(data[n.value..], stream))
  {
    hide TotalLen, StreamOf;
  }

  /** What the request loop takes off the front of its buffer in one turn: a frame or a whole header sequence. */
  function NextUnit(data: bytes): (e: Extraction)
    ensures e.Ready? ==> FRAME_HEADER_LEN <= e.len <= |data|
  {
    var n := TotalLen(data);
    if n.None? then Need
    else if data[3] == HEADERS then ExtractHeaders(data)
    else Ready(n.value)
  }

  lemma TotalLenExtended(data: bytes, more: bytes)
    requires TotalLen(data).Some?
    ensures TotalLen(data + more) == TotalLen(data)
    ensures StreamOf(data + more) == StreamOf(data)
    ensures (data + more)[3] == data[3] && (data + more)[4] == data[4]
    ensures (data + more)[TotalLen(data).value..] == data[TotalLen(data).value..] + more
  {
    assert (data + more)[5..9] == data[5..9];
  }

  lemma {:induction false} ScanExtended(data: bytes, stream: StreamId, more: bytes)
    requires ScanContinuations(data, stream) != Need
    ensures ScanContinuations(data + more, stream) == ScanContinuations(data, stream)
  {
    hide TotalLen, StreamOf;
    TotalLenExtended(data, more);
    if data[3] == CONTINUATION && StreamOf(data) == stream && !HasEndHeaders(data[4]) {
      ScanExtended(data[TotalLen(data).value..], stream, more);
    }
  }

  /** Once a header sequence has been found complete or broken, more input never changes the answer. */
  lemma ExtractionIsFinal(data: bytes, more: bytes)
    requires ExtractHeaders(data) != Need
    ensures ExtractHeaders(data + more) == ExtractHeaders(data)
  {
    hide TotalLen, StreamOf;
    TotalLenExtended(data, more);
    if !HasEndHeaders(data[4]) {
      ScanExtended(data[TotalLen(data).value..], StreamOf(data), more);
    }
  }

  lemma NextUnitIsFinal(data: bytes, more: bytes)
    requires NextUnit(data) != Need
    ensures NextUnit(data + more) == NextUnit(data)
  {
    hide TotalLen, StreamOf;
    TotalLenExtended(data, more);
    if data[3] == HEADERS {
      ExtractionIsFinal(data, more);
    }
  }

  lemma TotalLenTruncated(data: bytes, len: nat)
    requires TotalLen(data).Some? && TotalLen(data).value <= len <= |data|
    ensures TotalLen(data[..len]) == TotalLen(data)
    ensures StreamOf(data[..len]) == StreamOf(data)
    ensures data[..len][3] == data[3] && data[..len][4] == data[4]
    ensures data[..len][TotalLen(data).value..] == data[TotalLen(data).value..][..len - TotalLen(data).value]
  {
    assert data[..len][5..9] == data[5..9];
  }

  lemma {:induction false} ScanTruncated(data: bytes, stream: StreamId)
    requires ScanContinuations(data, stream).Ready?
    ensures ScanContinuations(data[..ScanContinuations(data, stream).len], stream)
         == ScanContinuations(data, stream)
  {
    hide TotalLen, StreamOf;
    var n := TotalLen(data).value;
    TotalLenTruncated(data, ScanContinuations(data, stream).len);
    if !HasEndHeaders(data[4]) {
      ScanTruncated(data[n..], stream);
    }
  }

  /** A unit is self-delimiting: the bytes taken are read the same on their own. */
  lemma NextUnitTruncated(data: bytes)
    requires NextUnit(data).Ready?
    ensures NextUnit(data[..NextUnit(data).len]) == NextUnit(data)
  {
    hide TotalLen, StreamOf;
    var n := TotalLen(data).value;
    TotalLenTruncated(data, NextUnit(data).len);
    if data[3] == HEADERS && !HasEndHeaders(data[4]) {
      ScanTruncated(data[n..], StreamOf(data));
    }
  }

  // ---------------------------------------------------------------- writing frames

  predicate Encodable(f: Frame) {
    |f.payload| < 0x100_0000
  }

  function Encode(f: Frame): (b: bytes)
    requires Encodable(f)
    ensures |b| == FRAME_HEADER_LEN + |f.payload|
  {
    Put24(|f.payload|) + [f.ftype, f.flags] + Put32(f.stream) + f.payload
  }

  function EncodeAll(frames: seq<Frame>): bytes
    requires AllEncodable(frames)
  {
    if frames == [] then [] else Encode(frames[0]) + EncodeAll(frames[1..])
  }

  lemma EncodedFrameReadsBack(f: Frame, tail: bytes)
    requires Encodable(f)
    ensures TotalLen(Encode(f) + tail) == Some(|Encode(f)|)
    ensures (Encode(f) + tail)[3] == f.ftype && (Encode(f) + tail)[4] == f.flags
    ensures StreamOf(Encode(f) + tail) == f.stream
    ensures (Encode(f) + tail)[|Encode(f)|..] == tail
    ensures (Encode(f) + tail)[FRAME_HEADER_LEN..|Encode(f)|] == f.payload
  {
    var d := Encode(f) + tail;
    assert d[..3] == Put24(|f.payload|);
    assert d[5..9] == Put32(f.stream);
  }

  /** The frames that a reader finds on the wire, up to an incomplete one. */
  function FramesIn(data: bytes): seq<Frame> {
    var n := TotalLen(data);
    if n.None? then []
    else [Frame(data[3], data[4], StreamOf(data), data[FRAME_HEADER_LEN..n.value])] + FramesIn(data[n.value..])
  }

  lemma FramesStep(data: bytes)
    ensures TotalLen(data).None? ==> FramesIn(data) == []
    ensures TotalLen(data).Some? ==>
      var n := TotalLen(data).value;
      FramesIn(data) == [Frame(data[3], data[4], StreamOf(data), data[FRAME_HEADER_LEN..n])] + FramesIn(data[n..])
  {
    hide TotalLen, StreamOf;
  }

  /** Frames written are the frames read, whatever follows them. */
  lemma {:induction false} FramesReadBack(frames: seq<Frame>, tail: bytes)
    requires AllEncodable(frames)
    ensures FramesIn(EncodeAll(frames) + tail) == frames + FramesIn(tail)
    decreases |frames|
  {
    hide Encode, TotalLen, StreamOf, FramesIn;
    if frames == [] {
      assert EncodeAll(frames) + tail == tail;
    } else {
      var rest := EncodeAll(frames[1..]) + tail;
      assert EncodeAll(frames) + tail == Encode(frames[0]) + rest;
      EncodedFrameReadsBack(frames[0], rest);
      FramesStep(Encode(frames[0]) + rest);
      FramesReadBack(frames[1..], tail);
    }
  }

  /** The bytes of a frame: END_STREAM, END_HEADERS and a priority on stream 258, with two bytes of a block. */
  lemma FrameOnTheWire()
    ensures Encode(Frame(HEADERS, HeadersFlags(true, true, [0, 0, 0, 3, 15]), 258, [0, 0, 0, 3, 15, 130, 134]))
         == [0, 0, 7, 1, 37, 0, 0, 1, 2, 0, 0, 0, 3, 15, 130, 134]
    ensures Encode(Frame(CONTINUATION, FLAG_END_HEADERS, 1, [130])) == [0, 0, 1, 9, 4, 0, 0, 0, 1, 130]
  {
  }

  function Min(a: nat, b: nat): nat {
    if a <= b then a else b
  }

  /** A limit of zero, which a server may announce, carries no more than an empty block. */
  predicate CanCarry(max: nat, block: bytes) {
    max > 0 || block == []
  }

  /** The CONTINUATION frames that carry `block`, the last one marked. */
  function Continuations(block: bytes, max: nat, stream: StreamId): seq<Frame>
    requires CanCarry(max, block)
  {
    if block == [] then []
    else
      var k := Min(|block|, max);
      [Frame(CONTINUATION, if k == |block| then FLAG_END_HEADERS else 0, stream, block[..k])]
      + Continuations(block[k..], max, stream)
  }

  function HeadersFlags(endStream: bool, endHeaders: bool, priority: Priority): byte {
    (if endStream then FLAG_END_STREAM else 0)
    + (if endHeaders then FLAG_END_HEADERS else 0)
    + (if priority == [] then 0 else FLAG_PRIORITY)
  }

  /** A whole header block as frames: HEADERS with the first fragment, then CONTINUATIONs. */
  function HeaderFrames(block: bytes, max: nat, stream: StreamId, endStream: bool, priority: Priority): seq<Frame>
    requires CanCarry(max, block)
  {
    var k := Min(|block|, max);
    [Frame(HEADERS, HeadersFlags(endStream, k == |block|, priority), stream, priority + block[..k])]
    + Continuations(block[k..], max, stream)
  }

  /**
   * What becomes of the fragmentation loop: it writes its frames, fails, since the library's frame writer
   * refuses stream 0 and payloads of 2^24 bytes or more, or goes on for ever.
   */
  datatype Written = Bytes(out: bytes) | Refused | Spinning

  function Fragments(block: bytes, max: nat, stream: StreamId, endStream: bool, priority: Priority): Written {
    if stream == 0 then Refused
    else if !CanCarry(max, block) then Spinning
    else
      var frames := HeaderFrames(block, max, stream, endStream, priority);
      if AllEncodable(frames) then Bytes(EncodeAll(frames)) else Refused
  }

  /**
   * The fragmentation loop. Its frames are those of HeaderFrames, or the writer refused one of them and the
   * rebuild fails. A turn that is neither the first nor takes anything off the block is repeated for ever.
   */
  method FragmentBlock(block: bytes, max: nat, stream: StreamId, endStream: bool, priority: Priority) returns (r: Written)
    ensures r == Fragments(block, max, stream, endStream, priority)
  {
    hide Encode, HeadersFlags, EncodeAll, Continuations;
    var written: bytes := [];
    var rest := block;
    var first := true;
    ghost var done: seq<Frame> := [];
    NothingEncoded();
    while |rest| > 0 || first
      invariant first ==> rest == block && done == []
      invariant !first ==> stream != 0
      invariant !CanCarry(max, block) ==> rest == block
      invariant CanCarry(max, block) ==> CanCarry(max, rest)
      invariant CanCarry(max, block) ==>
        HeaderFrames(block, max, stream, endStream, priority)
        == done + Unwritten(first, rest, max, stream, endStream, priority)
      invariant AllEncodable(done) && written == EncodeAll(done)
      decreases |rest|, first
    {
      var chunkSize := Min(|rest|, max);
      if chunkSize == 0 && !first {
        return Spinning;
      }
      var chunk := rest[..chunkSize];
      var left := rest[chunkSize..];
      var endHeaders := |left| == 0;
      var frame := if first
        then Frame(HEADERS, HeadersFlags(endStream, endHeaders, priority), stream, priority + chunk)
        else Frame(CONTINUATION, if endHeaders then FLAG_END_HEADERS else 0, stream, chunk);
      if CanCarry(max, block) {
        OneTurn(first, rest, max, stream, endStream, priority);
        NextFrame(HeaderFrames(block, max, stream, endStream, priority), done, frame,
                  Unwritten(false, left, max, stream, endStream, priority));
      }
      if stream == 0 || !Encodable(frame) {
        return Refused;
      }
      EncodeAllSnoc(done, frame);
      done := done + [frame];
      written := written + Encode(frame);
      rest := left;
      first := false;
    }
    NothingUnwritten(max, stream);
    assert done == done + [];
    return Bytes(written);
  }

  lemma NothingEncoded()
    ensures EncodeAll([]) == []
  {
  }

  lemma NothingUnwritten(max: nat, stream: StreamId)
    ensures Continuations([], max, stream) == []
  {
  }

  predicate AllEncodable(frames: seq<Frame>) {
    forall f :: f in frames ==> Encodable(f)
  }

  /** The frames the loop has still to write. */
  function Unwritten(first: bool, rest: bytes, max: nat, stream: StreamId, endStream: bool, priority: Priority): seq<Frame>
    requires CanCarry(max, rest)
  {
    if first then HeaderFrames(rest, max, stream, endStream, priority) else Continuations(rest, max, stream)
  }

  lemma OneTurn(first: bool, rest: bytes, max: nat, stream: StreamId, endStream: bool, priority: Priority)
    requires CanCarry(max, rest) && (first || rest != [])
    ensures var k := Min(|rest|, max);
      var left := rest[k..];
      CanCarry(max, left) &&
      Unwritten(first, rest, max, stream, endStream, priority) ==
        [if first
         then Frame(HEADERS, HeadersFlags(endStream, left == [], priority), stream, priority + rest[..k])
         else Frame(CONTINUATION, if left == [] then FLAG_END_HEADERS else 0, stream, rest[..k])]
        + Unwritten(false, left, max, stream, endStream, priority)
  {
    hide HeadersFlags;
  }

  lemma NextFrame(frames: seq<Frame>, done: seq<Frame>, f: Frame, left: seq<Frame>)
    requires frames == done + ([f] + left)
    ensures frames == (done + [f]) + left
    ensures f in frames
  {
    assert frames[|done|] == f;
  }

  lemma {:induction false} EncodeAllSnoc(frames: seq<Frame>, f: Frame)
    requires AllEncodable(frames) && Encodable(f)
    ensures AllEncodable(frames + [f])
    ensures EncodeAll(frames + [f]) == EncodeAll(frames) + Encode(f)
  {
    if frames == [] {
      assert EncodeAll([f]) == Encode(f) + EncodeAll([]);
    } else {
      assert (frames + [f])[1..] == frames[1..] + [f];
      EncodeAllSnoc(frames[1..], f);
    }
  }

  // ---------------------------------------------------------------- the fragments are a faithful block

  /** Everything the frames carry, in order. */
  function Payloads(frames: seq<Frame>): bytes {
    if frames == [] then [] else frames[0].payload + Payloads(frames[1..])
  }

  /**
   * The frames are one header block as it has to be sent (section 6.10 of RFC 9113): HEADERS and then only
   * CONTINUATIONs, all on one stream; END_STREAM and PRIORITY say on the first what is to be said, END_HEADERS is
   * on exactly the last; together they carry the priority and the block, as much in each as the limit allows.
   */
  ghost predicate IsHeaderSequence(frames: seq<Frame>, block: bytes, max: nat, stream: StreamId, endStream: bool,
                                   priority: Priority)
  {
    && frames != [] && Payloads(frames) == priority + block
    && frames[0].ftype == HEADERS && frames[0].stream == stream
    && HasEndStream(frames[0].flags) == endStream
    && HasPriority(frames[0].flags) == (priority != [])
    && HasEndHeaders(frames[0].flags) == (|frames| == 1)
    && |frames[0].payload| <= |priority| + max
    && (|frames| > 1 ==> |frames[0].payload| == |priority| + max)
    && AreContinuations(frames[1..], max, stream)
  }

  ghost predicate AreContinuations(frames: seq<Frame>, max: nat, stream: StreamId) {
    forall i :: 0 <= i < |frames| ==>
      && frames[i].ftype == CONTINUATION
      && frames[i].stream == stream
      && frames[i].flags == (if i == |frames| - 1 then FLAG_END_HEADERS else 0)
      && 0 < |frames[i].payload| <= max
      && (i < |frames| - 1 ==> |frames[i].payload| == max)
  }

  lemma {:induction false} ContinuationsCarryBlock(block: bytes, max: nat, stream: StreamId)
    requires CanCarry(max, block)
    ensures Payloads(Continuations(block, max, stream)) == block
    ensures AreContinuations(Continuations(block, max, stream), max, stream)
    ensures block == [] <==> Continuations(block, max, stream) == []
  {
    if block != [] {
      var k := Min(|block|, max);
      ContinuationsCarryBlock(block[k..], max, stream);
      var rest := Continuations(block[k..], max, stream);
      assert Continuations(block, max, stream)[1..] == rest;
      assert block == block[..k] + block[k..];
    }
  }

  lemma PayloadsOf(frames: seq<Frame>)
    requires frames != []
    ensures Payloads(frames) == frames[0].payload + Payloads(frames[1..])
  {
  }

  lemma HeadersFlagsReadBack(endStream: bool, endHeaders: bool, priority: Priority)
    ensures HasEndStream(HeadersFlags(endStream, endHeaders, priority)) == endStream
    ensures HasEndHeaders(HeadersFlags(endStream, endHeaders, priority)) == endHeaders
    ensures HasPriority(HeadersFlags(endStream, endHeaders, priority)) == (priority != [])
  {
  }

  /** Fragmentation keeps the block, and uses no more frames than it has to. */
  lemma FragmentsCarryBlock(block: bytes, max: nat, stream: StreamId, endStream: bool, priority: Priority)
    requires CanCarry(max, block)
    ensures IsHeaderSequence(HeaderFrames(block, max, stream, endStream, priority), block, max, stream, endStream, priority)
  {
    hide HeadersFlags, HasEndStream, HasEndHeaders, HasPriority, Payloads, Continuations;
    var k := Min(|block|, max);
    HeadersFlagsReadBack(endStream, k == |block|, priority);
    ContinuationsCarryBlock(block[k..], max, stream);
    var frames := HeaderFrames(block, max, stream, endStream, priority);
    PayloadsOf(frames);
    assert block == block[..k] + block[k..];
    assert frames[1..] == Continuations(block[k..], max, stream);
  }

  /** So a reader finds the block on the wire, whatever comes after it. */
  lemma WrittenCarriesBlock(block: bytes, max: nat, stream: StreamId, endStream: bool, priority: Priority, tail: bytes)
    requires Fragments(block, max, stream, endStream, priority).Bytes?
    ensures var out := Fragments(block, max, stream, endStream, priority).out;
      var frames := FramesIn(out);
      && IsHeaderSequence(frames, block, max, stream, endStream, priority)
      && FramesIn(out + tail) == frames + FramesIn(tail)
  {
    hide Encode, Continuations, HeadersFlags, Payloads, FramesIn, TotalLen;
    var frames := HeaderFrames(block, max, stream, endStream, priority);
    var out := EncodeAll(frames);
    FragmentsCarryBlock(block, max, stream, endStream, priority);
    FramesReadBack(frames, []);
    FramesReadBack(frames, tail);
    FramesStep([]);
    NothingLeft([]);
    assert out + [] == out && frames + [] == frames;
  }

  lemma NothingLeft(data: bytes)
    ensures |data| < FRAME_HEADER_LEN ==> TotalLen(data).None?
  {
  }

  /** Exactly when frames are written: on a stream, with something to carry the block in, and none of 2^24 bytes. */
  lemma WrittenExactlyWhen(block: bytes, max: nat, stream: StreamId, endStream: bool, priority: Priority)
    ensures Fragments(block, max, stream, endStream, priority).Bytes? <==>
      stream != 0 && (max > 0 || block == []) && |priority| + Min(|block|, max) < 0x100_0000
  {
    hide EncodeAll, HeadersFlags, Continuations, Payloads;
    if CanCarry(max, block) {
      FragmentsCarryBlock(block, max, stream, endStream, priority);
      var frames := HeaderFrames(block, max, stream, endStream, priority);
      assert frames[0] in frames && |frames[0].payload| == |priority| + Min(|block|, max);
      if Encodable(frames[0]) {
        forall f | f in frames
          ensures Encodable(f)
        {
          var i :| 0 <= i < |frames| && frames[i] == f;
          assert i > 0 ==> frames[1..][i - 1] == f;
        }
      }
    }
  }

  /**
   * Whether every frame respects the server's limit: priority bytes are not counted when the first fragment
   * is cut, so a HEADERS frame that carries them overshoots as soon as they no longer fit beside the block.
   */
  lemma FrameSizesRespectLimitExactlyWhen(block: bytes, max: nat, stream: StreamId, endStream: bool, priority: Priority)
    requires CanCarry(max, block)
    ensures (forall f :: f in HeaderFrames(block, max, stream, endStream, priority) ==> |f.payload| <= max)
      <==> priority == [] || |priority| + |block| <= max
  {
    FragmentsCarryBlock(block, max, stream, endStream, priority);
    var frames := HeaderFrames(block, max, stream, endStream, priority);
    assert frames[0] in frames;
    forall f | f in frames && |f.payload| > max
      ensures f == frames[0]
    {
      var i :| 0 <= i < |frames| && frames[i] == f;
      assert i > 0 ==> frames[1..][i - 1] == f;
    }
  }

  /** A block of one full frame with a priority: 16389 bytes under a limit of 16384. */
  lemma OversizedHeadersFrame(block: bytes)
    requires |block| == DEFAULT_MAX_FRAME_SIZE
    ensures |HeaderFrames(block, DEFAULT_MAX_FRAME_SIZE, 1, false, [0, 0, 0, 3, 15])[0].payload| == 16389
  {
  }

  lemma ScanOneFrame(f: Frame, rest: bytes)
    requires Encodable(f) && f.ftype == CONTINUATION
    ensures ScanContinuations(Encode(f) + rest, f.stream) ==
      if HasEndHeaders(f.flags) then Ready(|Encode(f)|)
      else Shift(|Encode(f)|, ScanContinuations(rest, f.stream))
  {
    EncodedFrameReadsBack(f, rest);
  }

  lemma {:induction false} ScanReassembles(frames: seq<Frame>, max: nat, stream: StreamId, tail: bytes)
    requires frames != [] && AreContinuations(frames, max, stream)
    requires AllEncodable(frames)
    ensures ScanContinuations(EncodeAll(frames) + tail, stream) == Ready(|EncodeAll(frames)|)
  {
    hide Encode, ScanContinuations;
    var rest := EncodeAll(frames[1..]) + tail;
    ScanOneFrame(frames[0], rest);
    assert EncodeAll(frames) + tail == Encode(frames[0]) + rest;
    if |frames| > 1 {
      assert forall i :: 0 <= i < |frames| - 1 ==> frames[1..][i] == frames[i + 1];
      ScanReassembles(frames[1..], max, stream, tail);
    } else {
      assert EncodeAll(frames[1..]) == [];
    }
  }

  /**
   * Reassembly undoes fragmentation: whatever follows on the wire, the extractor returns exactly the bytes
   * the fragmentation loop wrote.
   */
  lemma FragmentsReassemble(block: bytes, max: nat, stream: StreamId, endStream: bool, priority: Priority, tail: bytes)
    requires Fragments(block, max, stream, endStream, priority).Bytes?
    ensures var out := Fragments(block, max, stream, endStream, priority).out;
      && ExtractHeaders(out + tail) == Ready(|out|)
      && NextUnit(out + tail) == Ready(|out|)
      && StreamOf(out + tail) == stream
      && HasEndStream((out + tail)[4]) == endStream
  {
    hide Encode, ScanContinuations, TotalLen, StreamOf, Continuations, HeadersFlags, Payloads;
    var frames := HeaderFrames(block, max, stream, endStream, priority);
    FragmentsCarryBlock(block, max, stream, endStream, priority);
    var rest := EncodeAll(frames[1..]) + tail;
    assert EncodeAll(frames) + tail == Encode(frames[0]) + rest;
    EncodedFrameReadsBack(frames[0], rest);
    if |frames| > 1 {
      ScanReassembles(frames[1..], max, stream, tail);
    } else {
      assert EncodeAll(frames[1..]) == [];
    }
  }

  // ---------------------------------------------------------------- when the loop ends

  /** The loop's variables between two turns, while the writer refuses nothing. */
  datatype LoopState = LoopState(rest: bytes, first: bool)

  /** The loop after `turns` turns. */
  function LoopAfter(s: LoopState, max: nat, turns: nat): LoopState
    decreases turns
  {
    if turns == 0 || (s.rest == [] && !s.first) then s
    else LoopAfter(LoopState(s.rest[Min(|s.rest|, max)..], false), max, turns - 1)
  }

  ghost predicate LoopEnds(block: bytes, max: nat) {
    exists turns: nat :: LoopAfter(LoopState(block, true), max, turns) == LoopState([], false)
  }

  lemma {:induction false} LoopSpins(s: LoopState, turns: nat)
    requires s.rest != []
    ensures LoopAfter(s, 0, turns).rest == s.rest
    decreases turns
  {
    if turns != 0 {
      LoopSpins(LoopState(s.rest, false), turns - 1);
    }
  }

  /** The loop takes one turn for each frame that it has still to write. */
  lemma {:induction false} OneTurnPerFrame(s: LoopState, max: nat, stream: StreamId, endStream: bool, priority: Priority)
    requires CanCarry(max, s.rest)
    ensures LoopAfter(s, max, |Unwritten(s.first, s.rest, max, stream, endStream, priority)|) == LoopState([], false)
    decreases |s.rest|, s.first
  {
    if s.first || s.rest != [] {
      OneTurn(s.first, s.rest, max, stream, endStream, priority);
      OneTurnPerFrame(LoopState(s.rest[Min(|s.rest|, max)..], false), max, stream, endStream, priority);
    }
  }

  /**
   * A server that announces a maximum frame size of zero, which the code accepts, makes the loop spin for
   * ever on any non-empty block; every other announcement lets it end. So spinning is what FragmentBlock
   * reports exactly when the loop, had the writer accepted its frames, would not end.
   */
  lemma FragmentationEndsExactlyWhen(block: bytes, max: nat, stream: StreamId, endStream: bool, priority: Priority)
    ensures LoopEnds(block, max) <==> max > 0 || block == []
    ensures Fragments(block, max, stream, endStream, priority) == Spinning <==> stream != 0 && !LoopEnds(block, max)
  {
    if max > 0 || block == [] {
      OneTurnPerFrame(LoopState(block, true), max, stream, endStream, priority);
    } else {
      forall turns: nat
        ensures LoopAfter(LoopState(block, true), max, turns) != LoopState([], false)
      {
        LoopSpins(LoopState(block, true), turns);
      }
    }
  }

  // ---------------------------------------------------------------- what the extractor finds

  /** How many bytes frames take on the wire. */
  function WireLen(frames: seq<Frame>): nat {
    if frames == [] then 0 else FRAME_HEADER_LEN + |frames[0].payload| + WireLen(frames[1..])
  }

  /** The frame continues the header block of a stream. */
  predicate IsContinuationOf(f: Frame, stream: StreamId) {
    f.ftype == CONTINUATION && f.stream == stream
  }

  /** Frames that continue a header block and leave it open. */
  ghost predicate LeaveOpen(frames: seq<Frame>, stream: StreamId) {
    forall f :: f in frames ==> IsContinuationOf(f, stream) && !HasEndHeaders(f.flags)
  }

  /** What a frame behind `before` says about the header block that they leave open. */
  function Verdict(before: seq<Frame>, f: Frame, stream: StreamId): Extraction {
    if f.ftype != CONTINUATION then WrongType(f.ftype)
    else if f.stream != stream then WrongStream(f.stream)
    else Ready(WireLen(before + [f]))
  }

  lemma WireLenOf(f: Frame, frames: seq<Frame>)
    ensures WireLen([f] + frames) == FRAME_HEADER_LEN + |f.payload| + WireLen(frames)
  {
    assert ([f] + frames)[1..] == frames;
  }

  /** The first of the frames that does not leave the header block open decides; if none does, more has to come. */
  lemma {:induction false} ScanMeaning(data: bytes, stream: StreamId, before: seq<Frame>, rest: seq<Frame>)
    requires FramesIn(data) == before + rest && LeaveOpen(before, stream)
    ensures rest == [] ==> ScanContinuations(data, stream) == Need
    ensures rest != [] && !LeaveOpen([rest[0]], stream) ==>
      ScanContinuations(data, stream) == Verdict(before, rest[0], stream)
    decreases |before|
  {
    hide TotalLen, StreamOf, FramesIn, ScanContinuations, WireLen, HasEndHeaders;
    FramesStep(data);
    ScanStep(data, stream);
    if TotalLen(data).Some? {
      var n := TotalLen(data).value;
      var f := Frame(data[3], data[4], StreamOf(data), data[FRAME_HEADER_LEN..n]);
      assert (before + rest)[0] == f && (before + rest)[1..] == FramesIn(data[n..]);
      if before == [] {
        assert rest[0] == f && before + [f] == [f] && [f] + [] == [f];
        WireLenOf(f, []);
        NoWireLen();
        OneLeavesOpen(f, stream);
      } else {
        assert before[0] == f && f in before && before + rest == [f] + (before[1..] + rest);
        ScanMeaning(data[n..], stream, before[1..], rest);
        if rest != [] {
          assert before + [rest[0]] == [f] + (before[1..] + [rest[0]]);
          WireLenOf(f, before[1..] + [rest[0]]);
        }
      }
    }
  }

  lemma OneLeavesOpen(f: Frame, stream: StreamId)
    ensures LeaveOpen([f], stream) <==> IsContinuationOf(f, stream) && !HasEndHeaders(f.flags)
  {
    assert f in [f];
  }

  /** Any frames have such a front, which the frame behind it, if there is one, does not belong to. */
  lemma {:induction false} OpenFront(frames: seq<Frame>, stream: StreamId) returns (before: seq<Frame>, rest: seq<Frame>)
    ensures frames == before + rest && LeaveOpen(before, stream)
    ensures rest != [] ==> !LeaveOpen([rest[0]], stream)
    decreases |frames|
  {
    before, rest := [], frames;
    if frames != [] && LeaveOpen([frames[0]], stream) {
      assert frames[0] in [frames[0]];
      before, rest := OpenFront(frames[1..], stream);
      before := [frames[0]] + before;
    }
  }

  lemma NoWireLen()
    ensures WireLen([]) == 0
  {
  }

  /**
   * What is found at the front of the buffer, said by the frames that a reader finds there: nothing while none is
   * complete; a frame other than HEADERS alone; a HEADERS frame with END_HEADERS alone; and any other HEADERS frame
   * with its CONTINUATIONs up to the first frame that does not leave the block open, which decides.
   */
  lemma NextUnitMeaning(data: bytes, before: seq<Frame>, rest: seq<Frame>)
    ensures FramesIn(data) == [] ==> NextUnit(data) == ExtractHeaders(data) == Need
    ensures FramesIn(data) != [] ==>
      var first := FramesIn(data)[0];
      && (first.ftype != HEADERS || HasEndHeaders(first.flags) ==> NextUnit(data) == Ready(WireLen([first])))
      && (HasEndHeaders(first.flags) ==> ExtractHeaders(data) == Ready(WireLen([first])))
      && (!HasEndHeaders(first.flags) && FramesIn(data) == [first] + before + rest && LeaveOpen(before, first.stream) ==>
            && (rest == [] ==> ExtractHeaders(data) == Need)
            && (rest != [] && !LeaveOpen([rest[0]], first.stream) ==>
                  ExtractHeaders(data) == Verdict([first] + before, rest[0], first.stream))
            && (first.ftype == HEADERS ==> NextUnit(data) == ExtractHeaders(data)))
  {
    hide TotalLen, StreamOf, FramesIn, ScanContinuations, WireLen, HasEndHeaders;
    FramesStep(data);
    if TotalLen(data).Some? {
      var n := TotalLen(data).value;
      var first := FramesIn(data)[0];
      WireLenOf(first, []);
      NoWireLen();
      assert [first] + [] == [first];
      if FramesIn(data) == [first] + before + rest && LeaveOpen(before, first.stream) {
        assert ([first] + before + rest)[1..] == before + rest && FramesIn(data)[1..] == FramesIn(data[n..]);
        ScanMeaning(data[n..], first.stream, before, rest);
        if rest != [] {
          assert [first] + before + [rest[0]] == [first] + (before + [rest[0]]);
          WireLenOf(first, before + [rest[0]]);
        }
      }
    }
  }
}
