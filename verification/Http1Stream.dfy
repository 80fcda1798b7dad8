/**
 * What the rewriter makes of a stream of HTTP/1 requests, as a function of the stream alone
 * (processor/watcher/http1_wrapper.go, processor/watcher/wrapped_tls_watcher.go).
 */
module Http1Stream {
  import opened Wrappers
  import opened Bytes
  import opened Http1Body
  import opened Codec

  const HEAD_END: bytes := [CR, LF, CR, LF]

  /** Between two steps: the codec's state, and the tracker while a body is being relayed. */
  datatype State<+S> = State(codec: S, tracker: Option<Tracking>)

  /** The output made from a buffer, what is left of the buffer, and whether the stream was malformed. */
  datatype Run<+S> = Run(out: bytes, state: State<S>, rest: bytes, failed: bool)

  function Prepend<S>(out: bytes, r: Run<S>): Run<S> {
    r.(out := out + r.out)
  }

  function NewTracking(chunked: bool, contentLength: int): Option<Tracking> {
    if chunked then Some(Tracking(ModeChunked, 0, NEW_CHUNKS))
    else if contentLength > 0 then Some(Tracking(ModeContentLength, contentLength, NEW_CHUNKS))
    else None
  }

  /** A new tracker takes something of any body bytes there are. */
  lemma NewTrackingTakesBytes(chunked: bool, contentLength: int, data: bytes)
    requires NewTracking(chunked, contentLength).Some? && data != []
    ensures var o := Track(NewTracking(chunked, contentLength).value, data); o.failed || o.consumed > 0
  {
    hide Step;
  }

  /** The length of the request head that `buf` starts with, once it is complete. */
  function HeadLength(buf: bytes): (r: Option<nat>)
    ensures r.Some? ==> |HEAD_END| <= r.value <= |buf|
  {
    match IndexOf(buf, HEAD_END)
    case None => None
    case Some(i) => Some(i + |HEAD_END|)
  }

  /** Heads are replaced by their rewrite, bodies are copied, until input runs out. */
  function Transform<S>(c: Codec<S>, s: State<S>, buf: bytes): Run<S>
    decreases |buf|
  {
    match s.tracker
    case Some(t) =>
      var o := Track(t, buf);
      if o.failed then Run([], s, buf, true)
      else if o.consumed == 0 then Run([], s, buf, false)
      else
        Prepend(buf[..o.consumed],
                Transform(c, s.(tracker := if o.done then None else Some(o.state)), buf[o.consumed..]))
    case None =>
      match HeadLength(buf)
      case None => Run([], s, buf, false)
      case Some(n) =>
        match c.head(s.codec, buf[..n])
        case HeadInvalid => Run([], s, buf, true)
        case Head(serialized, chunked, contentLength, next) =>
          Prepend(serialized, Transform(c, State(next, NewTracking(chunked, contentLength)), buf[n..]))
  }

  /** One turn while a body is being relayed. */
  lemma TransformBodyStep<S>(c: Codec<S>, s: State<S>, buf: bytes)
    requires s.tracker.Some?
    ensures var o := Track(s.tracker.value, buf);
      Transform(c, s, buf) ==
        if o.failed then Run([], s, buf, true)
        else if o.consumed == 0 then Run([], s, buf, false)
        else Prepend(buf[..o.consumed],
                     Transform(c, s.(tracker := if o.done then None else Some(o.state)), buf[o.consumed..]))
    ensures Track(s.tracker.value, []).consumed == 0 && !Track(s.tracker.value, []).failed
  {
  }

  /** One turn on a complete request head. */
  lemma TransformHeadStep<S>(c: Codec<S>, s: State<S>, buf: bytes)
    requires s.tracker.None?
    ensures HeadLength(buf).None? ==> Transform(c, s, buf) == Run([], s, buf, false)
    ensures HeadLength(buf).Some? ==>
      var n := HeadLength(buf).value;
      var h := c.head(s.codec, buf[..n]);
      Transform(c, s, buf) ==
        if h.HeadInvalid? then Run([], s, buf, true)
        else Prepend(h.serialized, Transform(c, State(h.next, NewTracking(h.chunked, h.contentLength)), buf[n..]))
  {
  }

  lemma HeadLengthExtended(a: bytes, b: bytes)
    requires HeadLength(a).Some?
    ensures HeadLength(a + b) == HeadLength(a)
    ensures var n := HeadLength(a).value; (a + b)[..n] == a[..n] && (a + b)[n..] == a[n..] + b
  {
    IndexOfExtended(a, HEAD_END, b);
  }

  lemma PrependTwice<S>(a: bytes, b: bytes, r: Run<S>)
    ensures Prepend(a, Prepend(b, r)) == Prepend(a + b, r)
  {
    assert a + (b + r.out) == (a + b) + r.out;
  }

  lemma PrependNothing<S>(r: Run<S>)
    ensures Prepend([], r) == r
  {
    assert [] + r.out == r.out;
  }

  /** A tracker in the middle of a body takes something of any bytes there are. */
  lemma UnfinishedTakesBytes(t: Tracking, a: bytes, u: Tracking, b: bytes)
    requires a != [] && Track(t, a) == Outcome(|a|, false, false, u)
    requires Track(u, b).consumed == 0 && !Track(u, b).failed
    ensures b == []
  {
    hide Step;
  }

  /** The case of a body that `a` does not finish. */
  lemma BodyGoesOn<S>(c: Codec<S>, s: State<S>, u: Tracking, a: bytes, b: bytes)
    requires s.tracker.Some? && a != []
    requires Track(s.tracker.value, a) == Outcome(|a|, false, false, u)
    ensures var next := s.(tracker := Some(u));
      && Transform(c, s, a) == Run(a, next, [], false)
      && Transform(c, s, a + b).failed == Transform(c, next, b).failed
      && (!Transform(c, s, a + b).failed ==> Transform(c, s, a + b) == Prepend(a, Transform(c, next, b)))
  {
    hide Track, Transform;
    var next := s.(tracker := Some(u));
    assert a[..|a|] == a && a[|a|..] == [] && a + [] == a;
    TransformBodyStep(c, s, a);
    TransformBodyStep(c, next, []);
    TrackSplit(s.tracker.value, a, b);
    TransformBodyStep(c, s, a + b);
    TransformBodyStep(c, next, b);
    var o := Track(u, b);
    if !o.failed {
      if o.consumed == 0 {
        UnfinishedTakesBytes(s.tracker.value, a, u, b);
        assert a + b == a;
      } else {
        TakenFromBoth(a, b, o.consumed);
        PrependTwice(a, b[..o.consumed], Transform(c, s.(tracker := if o.done then None else Some(o.state)), b[o.consumed..]));
      }
    }
  }

  lemma TakenFromBoth(a: bytes, b: bytes, n: nat)
    requires n <= |b|
    ensures (a + b)[..|a| + n] == a + b[..n] && (a + b)[|a| + n..] == b[n..]
  {
  }

  /** What the stream gives when it is handled in two parts. */
  ghost predicate Splits<S>(c: Codec<S>, s: State<S>, a: bytes, b: bytes) {
    var r := Transform(c, s, a);
    && Transform(c, s, a + b).failed == (r.failed || Transform(c, r.state, r.rest + b).failed)
    && (!Transform(c, s, a + b).failed ==>
          Transform(c, s, a + b) == Prepend(r.out, Transform(c, r.state, r.rest + b)))
  }

  /** What is taken off the front in one turn splits with the rest. */
  lemma SplitsInFront<S>(c: Codec<S>, s: State<S>, out: bytes, next: State<S>, a: bytes, left: bytes, b: bytes)
    requires Transform(c, s, a) == Prepend(out, Transform(c, next, left))
    requires Transform(c, s, a + b) == Prepend(out, Transform(c, next, left + b))
    requires Splits(c, next, left, b)
    ensures Splits(c, s, a, b)
  {
    hide Transform;
    var r := Transform(c, next, left);
    PrependTwice(out, r.out, Transform(c, r.state, r.rest + b));
  }

  lemma SplitsAtOnce<S>(c: Codec<S>, s: State<S>, a: bytes, b: bytes)
    requires Transform(c, s, a) == Run([], s, a, false) || (Transform(c, s, a).failed && Transform(c, s, a + b).failed)
    ensures Splits(c, s, a, b)
  {
    hide Transform;
    PrependNothing(Transform(c, s, a + b));
  }

  /**
   * Segmentation independence: a stream is found malformed however it is cut, and otherwise handling what
   * has arrived and then the rest gives what handling everything at once gives.
   */
  lemma {:induction false} TransformSplit<S>(c: Codec<S>, s: State<S>, a: bytes, b: bytes)
    ensures Splits(c, s, a, b)
    decreases |a|
  {
    hide Track, HeadLength, NewTracking, Transform, Splits;
    if s.tracker.Some? {
      var o := Track(s.tracker.value, a);
      TrackSplit(s.tracker.value, a, b);
      TransformBodyStep(c, s, a);
      TransformBodyStep(c, s, a + b);
      if o.failed || a == [] {
        SplitsAtOnce(c, s, a, b);
      } else if o.done {
        if o.consumed == 0 {
          SplitsAtOnce(c, s, a, b);
        } else {
          var next := s.(tracker := None);
          assert (a + b)[..o.consumed] == a[..o.consumed];
          assert (a + b)[o.consumed..] == a[o.consumed..] + b;
          TransformSplit(c, next, a[o.consumed..], b);
          SplitsInFront(c, s, a[..o.consumed], next, a, a[o.consumed..], b);
        }
      } else {
        BodySplits(c, s, o.state, a, b);
      }
    } else {
      TransformHeadStep(c, s, a);
      TransformHeadStep(c, s, a + b);
      if HeadLength(a).None? {
        SplitsAtOnce(c, s, a, b);
      } else {
        HeadLengthExtended(a, b);
        var n := HeadLength(a).value;
        var h := c.head(s.codec, a[..n]);
        if h.HeadInvalid? {
          SplitsAtOnce(c, s, a, b);
        } else {
          var next := State(h.next, NewTracking(h.chunked, h.contentLength));
          TransformSplit(c, next, a[n..], b);
          SplitsInFront(c, s, h.serialized, next, a, a[n..], b);
        }
      }
    }
  }

  lemma BodySplits<S>(c: Codec<S>, s: State<S>, u: Tracking, a: bytes, b: bytes)
    requires s.tracker.Some? && a != []
    requires Track(s.tracker.value, a) == Outcome(|a|, false, false, u)
    ensures Splits(c, s, a, b)
  {
    hide Track, Transform;
    BodyGoesOn(c, s, u, a, b);
    assert [] + b == b;
  }

  // ---------------------------------------------------------------- one turn at a time

  /** What a turn takes of a body is transformed alike on its own, with nothing left over. */
  lemma BodyTaken<S>(c: Codec<S>, s: State<S>, data: bytes)
    requires s.tracker.Some?
    requires var o := Track(s.tracker.value, data); !o.failed && o.consumed > 0
    ensures var o := Track(s.tracker.value, data);
      Transform(c, s, data[..o.consumed])
      == Run(data[..o.consumed], s.(tracker := if o.done then None else Some(o.state)), [], false)
  {
    hide Track, Transform, HeadLength;
    var t := s.tracker.value;
    var o := Track(t, data);
    var taken := data[..o.consumed];
    assert taken + data[o.consumed..] == data;
    TrackSplit(t, taken, data[o.consumed..]);
    var u := Track(t, taken);
    if !u.done && !u.failed {
      UnfinishedTakesBytes(t, taken, u.state, data[o.consumed..]);
      assert taken == data;
    }
    TransformBodyStep(c, s, taken);
    assert taken[..|taken|] == taken && taken[|taken|..] == [] && taken + [] == taken;
    if o.done {
      TransformNothing(c, s.codec);
    } else {
      TransformBodyStep(c, s.(tracker := Some(o.state)), []);
    }
  }

  lemma HeadLengthTruncated(data: bytes)
    requires HeadLength(data).Some?
    ensures HeadLength(data[..HeadLength(data).value]) == HeadLength(data)
  {
    IndexOfTruncated(data, HEAD_END, HeadLength(data).value);
  }

  /** So is what a turn takes of a request: the head, and the part of its body that has come along. */
  lemma HeadTaken<S>(c: Codec<S>, s: State<S>, data: bytes, k: nat, next: State<S>)
    requires s.tracker.None? && HeadLength(data).Some? && c.head(s.codec, data[..HeadLength(data).value]).Head?
    requires var n := HeadLength(data).value;
      var h := c.head(s.codec, data[..n]);
      && k <= |data| - n
      && Transform(c, State(h.next, NewTracking(h.chunked, h.contentLength)), data[n..][..k])
         == Run(data[n..][..k], next, [], false)
    ensures var n := HeadLength(data).value;
      Transform(c, s, data[..n + k])
      == Run(c.head(s.codec, data[..n]).serialized + data[n..][..k], next, [], false)
  {
    hide Transform, NewTracking, HeadLength;
    var n := HeadLength(data).value;
    HeadLengthTruncated(data);
    HeadLengthExtended(data[..n], data[n..][..k]);
    assert data[..n + k] == data[..n] + data[n..][..k];
    TransformHeadStep(c, s, data[..n + k]);
  }

  /** Turns add up. */
  lemma TakenAfter<S>(c: Codec<S>, s: State<S>, before: bytes, taken: bytes, sent: Run<S>, turn: Run<S>)
    requires Transform(c, s, before) == sent && sent.rest == [] && !sent.failed
    requires Transform(c, sent.state, taken) == turn && !turn.failed
    ensures Transform(c, s, before + taken) == Prepend(sent.out, turn)
  {
    hide Transform;
    TransformSplit(c, s, before, taken);
    assert [] + taken == taken;
  }

  lemma TransformNothing<S>(c: Codec<S>, codec: S)
    ensures Transform(c, State(codec, None), []) == Run([], State(codec, None), [], false)
  {
  }

  /** What is transformed without rest from the start of a stream ends behind a head. */
  lemma HoldsAHead<S>(c: Codec<S>, codec: S, taken: bytes)
    requires taken != [] && Transform(c, State(codec, None), taken).rest == []
    ensures CR in taken
  {
    hide Transform;
    TransformHeadStep(c, State(codec, None), taken);
    var i := IndexOf(taken, HEAD_END).value;
    assert taken[i..i + |HEAD_END|][0] == CR;
  }

  // ---------------------------------------------------------------- where a head ends

  /** A head as it is sent: every line with a line break behind it, and then an empty line. */
  function HeadBytes(lines: seq<bytes>): (b: bytes)
    ensures |b| >= 2
  {
    if lines == [] then [13, 10] else lines[0] + [13, 10] + HeadBytes(lines[1..])
  }

  /** Lines without line breaks inside, none of which is empty but perhaps the first. */
  predicate AreHeadLines(lines: seq<bytes>) {
    && lines != []
    && (forall i :: 0 <= i < |lines| ==> IsLineText(lines[i]))
    && forall i :: 0 < i < |lines| ==> lines[i] != []
  }

  /** Two line breaks meet in front of `n`. */
  predicate EndsHead(buf: bytes, n: nat) {
    4 <= n <= |buf| && buf[n - 4] == 13 && buf[n - 3] == 10 && buf[n - 2] == 13 && buf[n - 1] == 10
  }

  lemma EndsHeadExactlyWhen(buf: bytes, n: nat)
    requires n >= 4
    ensures EndsHead(buf, n) <==> OccursAt(buf, HEAD_END, n - 4)
  {
    if n <= |buf| {
      var e := buf[n - 4..n];
      assert e[0] == buf[n - 4] && e[1] == buf[n - 3] && e[2] == buf[n - 2] && e[3] == buf[n - 1];
    }
  }

  /** A head is over with the first two line breaks that meet, and not before. */
  lemma HeadLengthMeaning(buf: bytes, n: nat)
    ensures HeadLength(buf) == Some(n) <==> EndsHead(buf, n) && forall m: nat :: m < n ==> !EndsHead(buf, m)
  {
    hide IndexOf, OccursAt;
    forall m: nat | m >= 4
      ensures EndsHead(buf, m) <==> OccursAt(buf, HEAD_END, m - 4)
    {
      EndsHeadExactlyWhen(buf, m);
    }
    var r := IndexOf(buf, HEAD_END);
    if r.Some? {
      assert EndsHead(buf, r.value + 4);
    }
  }

  /** The end of a head is where two line breaks meet. */
  lemma {:induction false} HeadEndOccurs(lines: seq<bytes>)
    requires lines != []
    ensures |HeadBytes(lines)| >= 4 && HeadBytes(lines)[|HeadBytes(lines)| - 4..] == HEAD_END
    decreases |lines|
  {
    if |lines| > 1 {
      HeadEndOccurs(lines[1..]);
      var b, t := HeadBytes(lines), HeadBytes(lines[1..]);
      assert b == lines[0] + [13, 10] + t;
      assert b[|b| - 4..] == t[|t| - 4..];
    } else {
      assert HeadBytes(lines) == lines[0] + [13, 10] + [13, 10];
    }
  }

  /** No line break starts in a line, or between it and the one behind it. */
  lemma BreaksAreBehindLines(line: bytes, more: bytes, j: nat)
    requires IsLineText(line) && j < |line| + 2 && j + 2 <= |line + [13, 10] + more|
    requires (line + [13, 10] + more)[j] == CR && (line + [13, 10] + more)[j + 1] == LF
    ensures j == |line|
  {
    var s := line + [13, 10] + more;
    assert forall k :: 0 <= k < |line| ==> s[k] == line[k];
    assert s[|line|] == CR && s[|line| + 1] == LF;
  }

  lemma {:induction false} NoEarlierEnd(lines: seq<bytes>, rest: bytes, n: nat)
    requires AreHeadLines(lines) && n < |HeadBytes(lines)|
    ensures !EndsHead(HeadBytes(lines) + rest, n)
    decreases |lines|
  {
    hide IsLineText;
    var line, more := lines[0], HeadBytes(lines[1..]) + rest;
    var s := line + [13, 10] + more;
    assert HeadBytes(lines) + rest == s;
    if EndsHead(s, n) {
      var j := n - 4;
      if j < |line| + 2 {
        BreaksAreBehindLines(line, more, j);
        assert lines[1..] != [];
        var second, behind := lines[1], HeadBytes(lines[2..]) + rest;
        assert lines[1..][1..] == lines[2..];
        assert more == second + [13, 10] + behind;
        assert more[0] == s[j + 2] && more[1] == s[j + 3];
        BreaksAreBehindLines(second, behind, 0);
      } else {
        assert lines[1..] != [];
        var k := n - |line| - 2;
        assert s[|line| + 2..] == more && EndsHead(more, k);
        NoEarlierEnd(lines[1..], rest, k);
      }
    }
  }

  /** A head of lines is taken as one head, all of it, whatever follows; and no less of it is. */
  lemma HeadOfLines(lines: seq<bytes>, rest: bytes)
    requires AreHeadLines(lines)
    ensures HeadLength(HeadBytes(lines) + rest) == Some(|HeadBytes(lines)|)
    ensures forall n :: 0 <= n < |HeadBytes(lines)| ==> HeadLength(HeadBytes(lines)[..n]) == None
  {
    hide HeadLength, HeadBytes, IsLineText;
    var head := HeadBytes(lines);
    HeadEndOccurs(lines);
    assert head[|head| - 4..] == HEAD_END && EndsHead(head + rest, |head|) by {
      var e := head[|head| - 4..];
      assert e[0] == head[|head| - 4] && e[1] == head[|head| - 3] && e[2] == head[|head| - 2] && e[3] == head[|head| - 1];
    }
    forall n: nat | n < |head|
      ensures !EndsHead(head + rest, n)
    {
      NoEarlierEnd(lines, rest, n);
    }
    HeadLengthMeaning(head + rest, |head|);
    forall n | 0 <= n < |head|
      ensures HeadLength(head[..n]) == None
    {
      if HeadLength(head[..n]).Some? {
        var m := HeadLength(head[..n]).value;
        HeadLengthMeaning(head[..n], m);
        assert EndsHead(head + rest, m);
        NoEarlierEnd(lines, rest, m);
      }
    }
  }

  /** Where the first line of a head ends. */
  lemma FirstBreak(head: bytes) returns (i: nat)
    requires EndsHead(head, |head|)
    ensures i <= |head| - 4 && head[i] == CR && head[i + 1] == LF && IsLineText(head[..i])
    ensures i == 0 <==> head[0] == CR && head[1] == LF
  {
    hide IndexOf;
    var end := |head| - 4;
    assert head[end..end + 2] == [13, 10];
    OccurrenceIsFound(head, [13, 10], end);
    i := IndexOf(head, [13, 10]).value;
    forall k: nat | k + 2 <= |head|
      ensures OccursAt(head, [13, 10], k) <==> head[k] == CR && head[k + 1] == LF
    {
      assert head[k..k + 2] == [head[k], head[k + 1]];
    }
    assert OccursAt(head, [13, 10], end);
    forall k | 0 < k < i
      ensures !(head[..i][k - 1] == CR && head[..i][k] == LF)
    {
      assert !OccursAt(head, [13, 10], k - 1);
    }
    assert i == 0 || !OccursAt(head, [13, 10], 0);
  }

  /** And every head is one of lines. */
  lemma {:induction false} HeadHasLines(head: bytes) returns (lines: seq<bytes>)
    requires HeadLength(head) == Some(|head|)
    ensures AreHeadLines(lines) && HeadBytes(lines) == head
    ensures lines[0] == [] <==> head[0] == CR && head[1] == LF
    decreases |head|
  {
    hide HeadLength, IsLineText;
    HeadLengthMeaning(head, |head|);
    var i := FirstBreak(head);
    var line, more := head[..i], head[i + 2..];
    assert head == line + [13, 10] + more;
    if i == |head| - 4 {
      lines := [line];
      assert more == [13, 10] && lines[1..] == [];
    } else {
      forall k: nat | k < |more|
        ensures !EndsHead(more, k)
      {
        assert EndsHead(more, k) ==> EndsHead(head, i + 2 + k);
      }
      EndsBehind(head, i);
      HeadLengthMeaning(more, |more|);
      var later := HeadHasLines(more);
      assert !EndsHead(head, i + 4);
      lines := [line] + later;
      assert lines[1..] == later;
    }
  }

  /** Behind a first line that is not the last, the head ends where it ends. */
  lemma EndsBehind(head: bytes, i: nat)
    requires EndsHead(head, |head|) && i < |head| - 4 && head[i] == CR && head[i + 1] == LF
    requires forall m: nat :: m < |head| ==> !EndsHead(head, m)
    ensures EndsHead(head[i + 2..], |head| - (i + 2))
  {
    assert !EndsHead(head, i + 4);
  }

  // ---------------------------------------------------------------- pipelined requests

  /** A chunked body is any that the tracker accepts; ChunkGrammar says which of them are bodies of section 7.1. */
  datatype RequestBody = Empty | Sized(data: bytes) | InChunks(body: AnyBody)

  datatype Request = Request(lines: seq<bytes>, body: RequestBody) {
    function Head(): bytes {
      HeadBytes(lines)
    }
  }

  function BodyBytes(b: RequestBody): bytes {
    match b
    case Empty => []
    case Sized(data) => data
    case InChunks(body) => body.Encode()
  }

  /** The head is one of lines, is accepted, and announces the body that follows. */
  predicate WellFormed<S>(c: Codec<S>, codec: S, r: Request) {
    && AreHeadLines(r.lines)
    && c.head(codec, r.Head()).Head?
    && var h := c.head(codec, r.Head());
       match r.body
       case Empty => !h.chunked && h.contentLength <= 0
       case Sized(data) => !h.chunked && h.contentLength == |data| > 0
       case InChunks(body) => h.chunked && body.Accepted()
  }

  predicate AllWellFormed<S>(c: Codec<S>, codec: S, requests: seq<Request>) {
    requests == [] ||
    (WellFormed(c, codec, requests[0]) && AllWellFormed(c, c.head(codec, requests[0].Head()).next, requests[1..]))
  }

  /** The requests as the client sends them. */
  function Wire(requests: seq<Request>): bytes {
    if requests == [] then [] else requests[0].Head() + BodyBytes(requests[0].body) + Wire(requests[1..])
  }

  /** The requests as the server should receive them: every head rewritten, every body as it was. */
  function Rewritten<S>(c: Codec<S>, codec: S, requests: seq<Request>): bytes
    requires AllWellFormed(c, codec, requests)
  {
    if requests == [] then []
    else
      var h := c.head(codec, requests[0].Head());
      h.serialized + BodyBytes(requests[0].body) + Rewritten(c, h.next, requests[1..])
  }

  /** A body that the tracker finishes is copied. */
  lemma BodyDone<S>(c: Codec<S>, codec: S, t: Tracking, body: bytes, rest: bytes)
    requires body != []
    requires var o := Track(t, body + rest); o.consumed == |body| && o.done && !o.failed
    ensures Transform(c, State(codec, Some(t)), body + rest) == Prepend(body, Transform(c, State(codec, None), rest))
  {
    hide Transform, Track;
    TransformBodyStep(c, State(codec, Some(t)), body + rest);
    assert (body + rest)[..|body|] == body && (body + rest)[|body|..] == rest;
  }

  lemma BodyIsTracked<S>(c: Codec<S>, codec: S, r: Request, rest: bytes)
    requires WellFormed(c, codec, r) && !r.body.Empty?
    ensures var h := c.head(codec, r.Head());
      var t := NewTracking(h.chunked, h.contentLength);
      && t.Some? && BodyBytes(r.body) != []
      && var o := Track(t.value, BodyBytes(r.body) + rest);
         o.consumed == |BodyBytes(r.body)| && o.done && !o.failed
  {
    hide Feed, HeadLength, AnyBody.Encode, AnyBody.Accepted;
    if r.body.InChunks? {
      AnyBodyIsAccepted(r.body.body, rest);
      EncodingIsNotEmpty(r.body.body);
    }
  }

  lemma EncodingIsNotEmpty(body: AnyBody)
    ensures body.Encode() != []
  {
    assert |body.Encode()| >= |body.last + CRLF| >= 2;
  }

  lemma TransformBody<S>(c: Codec<S>, codec: S, r: Request, rest: bytes)
    requires WellFormed(c, codec, r)
    ensures var h := c.head(codec, r.Head());
      Transform(c, State(h.next, NewTracking(h.chunked, h.contentLength)), BodyBytes(r.body) + rest)
      == Prepend(BodyBytes(r.body), Transform(c, State(h.next, None), rest))
  {
    hide Transform, Track, HeadLength;
    var h := c.head(codec, r.Head());
    if r.body.Empty? {
      assert [] + rest == rest;
      PrependNothing(Transform(c, State(h.next, None), rest));
    } else {
      BodyIsTracked(c, codec, r, rest);
      BodyDone(c, h.next, NewTracking(h.chunked, h.contentLength).value, BodyBytes(r.body), rest);
    }
  }

  lemma TransformRequest<S>(c: Codec<S>, codec: S, r: Request, rest: bytes)
    requires WellFormed(c, codec, r)
    ensures var h := c.head(codec, r.Head());
      Transform(c, State(codec, None), r.Head() + (BodyBytes(r.body) + rest))
      == Prepend(h.serialized + BodyBytes(r.body), Transform(c, State(h.next, None), rest))
  {
    hide Transform, HeadLength, NewTracking, BodyBytes;
    var h := c.head(codec, r.Head());
    var left := BodyBytes(r.body) + rest;
    HeadOfLines(r.lines, left);
    assert (r.Head() + left)[..|r.Head()|] == r.Head() && (r.Head() + left)[|r.Head()|..] == left;
    TransformHeadStep(c, State(codec, None), r.Head() + left);
    TransformBody(c, codec, r, rest);
    PrependTwice(h.serialized, BodyBytes(r.body), Transform(c, State(h.next, None), rest));
  }

  /** Pipelined requests come out rewritten head by rewritten head, with their bodies, in order. */
  lemma {:induction false} PipelineIsRewritten<S>(c: Codec<S>, codec: S, requests: seq<Request>)
    requires AllWellFormed(c, codec, requests)
    ensures var r := Transform(c, State(codec, None), Wire(requests));
      r.out == Rewritten(c, codec, requests) && !r.failed && r.rest == [] && r.state.tracker == None
    decreases |requests|
  {
    hide Transform, HeadLength, BodyBytes, AnyBody.Accepted, AnyBody.Encode;
    if requests == [] {
      TransformNothing(c, codec);
    } else {
      var r := requests[0];
      var rest := Wire(requests[1..]);
      assert Wire(requests) == r.Head() + (BodyBytes(r.body) + rest);
      TransformRequest(c, codec, r, rest);
      PipelineIsRewritten(c, c.head(codec, r.Head()).next, requests[1..]);
    }
  }

  // ---------------------------------------------------------------- every stream

  /** The codec's state behind requests. */
  function CodecAfter<S>(c: Codec<S>, codec: S, requests: seq<Request>): S
    requires AllWellFormed(c, codec, requests)
  {
    if requests == [] then codec else CodecAfter(c, c.head(codec, requests[0].Head()).next, requests[1..])
  }

  /**
   * What is done with the bytes behind complete requests: without a complete head they wait; a head that is refused
   * makes the stream malformed, and so does a chunked body that the chunk parser refuses; a head that is accepted is
   * sent with as much of its body as has come, which is not all of it.
   */
  ghost predicate IsUnfinished<S>(c: Codec<S>, codec: S, rest: bytes, out: bytes, failed: bool) {
    match HeadLength(rest)
    case None => out == [] && !failed
    case Some(n) =>
      var h := c.head(codec, rest[..n]);
      if h.HeadInvalid? then failed && out == []
      else if h.chunked then
        var o := Feed(NEW_CHUNKS, rest[n..]);
        !o.done && failed == o.failed && (!failed ==> out == h.serialized + rest[n..])
      else |rest| - n < h.contentLength && !failed && out == h.serialized + rest[n..]
  }

  /** The head at the front and its body are a request, and what the rest gives comes behind it. */
  lemma RequestInFront<S>(c: Codec<S>, codec: S, buf: bytes) returns (r: Request, rest: bytes)
    requires HeadLength(buf).Some? && c.head(codec, buf[..HeadLength(buf).value]).Head?
    requires var n := HeadLength(buf).value;
      var h := c.head(codec, buf[..n]);
      if h.chunked then Feed(NEW_CHUNKS, buf[n..]).done else h.contentLength <= |buf| - n
    ensures WellFormed(c, codec, r) && buf == r.Head() + BodyBytes(r.body) + rest && |rest| < |buf|
    ensures c.head(codec, r.Head()).Head?
  {
    hide Feed, AnyBody.Accepted, AnyBody.Encode, HeadLength, AreHeadLines, HeadBytes;
    var n := HeadLength(buf).value;
    HeadLengthTruncated(buf);
    var lines := HeadHasLines(buf[..n]);
    var h := c.head(codec, buf[..n]);
    var behind := buf[n..];
    var k, body := 0, Empty;
    if h.chunked {
      var b := AcceptedIsAnyBody(behind);
      k, body := Feed(NEW_CHUNKS, behind).consumed, InChunks(b);
    } else if h.contentLength > 0 {
      k, body := h.contentLength, Sized(behind[..h.contentLength]);
    }
    assert behind[..k] == BodyBytes(body);
    r, rest := Request(lines, body), behind[k..];
    assert buf == buf[..n] + behind[..k] + behind[k..];
  }

  lemma UnfinishedBody<S>(c: Codec<S>, codec: S, buf: bytes)
    requires HeadLength(buf).Some? && c.head(codec, buf[..HeadLength(buf).value]).Head?
    requires var n := HeadLength(buf).value;
      var h := c.head(codec, buf[..n]);
      !(if h.chunked then Feed(NEW_CHUNKS, buf[n..]).done else h.contentLength <= |buf| - n)
    ensures var t := Transform(c, State(codec, None), buf); IsUnfinished(c, codec, buf, t.out, t.failed)
  {
    hide Transform, Feed, HeadLength;
    TransformHeadStep(c, State(codec, None), buf);
    var n := HeadLength(buf).value;
    var h := c.head(codec, buf[..n]);
    var t := NewTracking(h.chunked, h.contentLength);
    var s := State(h.next, t);
    var behind := buf[n..];
    TransformBodyStep(c, s, behind);
    var o := Track(t.value, behind);
    FeedNothing(NEW_CHUNKS);
    if behind == [] {
      assert h.serialized + [] == h.serialized + behind;
    } else if !o.failed {
      assert behind[..|behind|] == behind && behind[|behind|..] == [];
      TransformBodyStep(c, s.(tracker := Some(o.state)), []);
      assert behind + [] == behind;
    }
  }

  /**
   * Every stream is complete requests and something unfinished or malformed behind them; what is made of it is the
   * requests rewritten, and what is made of the rest.
   */
  lemma {:induction false} EveryStream<S>(c: Codec<S>, codec: S, buf: bytes)
    returns (requests: seq<Request>, rest: bytes, more: bytes)
    ensures AllWellFormed(c, codec, requests) && buf == Wire(requests) + rest
    ensures var r := Transform(c, State(codec, None), buf);
      && IsUnfinished(c, CodecAfter(c, codec, requests), rest, more, r.failed)
      && (!r.failed ==> r.out == Rewritten(c, codec, requests) + more)
    decreases |buf|
  {
    hide Transform, Feed, HeadLength, WellFormed, BodyBytes;
    requests, rest := [], buf;
    more := Transform(c, State(codec, None), buf).out;
    assert Wire([]) + buf == buf && [] + more == more;
    TransformHeadStep(c, State(codec, None), buf);
    if HeadLength(buf).Some? && c.head(codec, buf[..HeadLength(buf).value]).Head? {
      var n := HeadLength(buf).value;
      var h := c.head(codec, buf[..n]);
      if if h.chunked then Feed(NEW_CHUNKS, buf[n..]).done else h.contentLength <= |buf| - n {
        var r, behind := RequestInFront(c, codec, buf);
        assert buf == r.Head() + (BodyBytes(r.body) + behind);
        TransformRequest(c, codec, r, behind);
        var later;
        later, rest, more := EveryStream(c, c.head(codec, r.Head()).next, behind);
        requests := RequestBefore(c, codec, r, later);
        assert buf == Wire(requests) + rest;
      } else {
        UnfinishedBody(c, codec, buf);
      }
    }
  }

  lemma RequestBefore<S>(c: Codec<S>, codec: S, r: Request, later: seq<Request>) returns (requests: seq<Request>)
    requires WellFormed(c, codec, r) && AllWellFormed(c, c.head(codec, r.Head()).next, later)
    ensures var h := c.head(codec, r.Head());
      && AllWellFormed(c, codec, requests)
      && Wire(requests) == r.Head() + BodyBytes(r.body) + Wire(later)
      && CodecAfter(c, codec, requests) == CodecAfter(c, h.next, later)
      && Rewritten(c, codec, requests) == h.serialized + BodyBytes(r.body) + Rewritten(c, h.next, later)
  {
    hide WellFormed, BodyBytes;
    requests := [r] + later;
    assert requests[1..] == later;
  }
}
