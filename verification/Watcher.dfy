/**
 * The connection that rewrites a client's requests while they are read (processor/watcher). Bytes wait in two
 * places, reqBuf before and pendingBuffer after rewriting; the ghost fields record what came in and what was
 * handed to the reader.
 */
module Watcher {
  import opened Wrappers
  import opened Bytes
  import opened Net
  import opened Codec
  import opened Http2Frames
  import opened Http2Stream
  import P = ProtocolSniff
  import B = Http1Body
  import H = Http1Stream

  const MAX_PROTOCOL_SNIFF_BYTES := 8192

  /** Why a read returned without data, or that it does not return at all. */
  datatype ReadError = NoError | ConnError(fault: Fault) | RequestError | NeverReturns

  // ---------------------------------------------------------------- the rewriter as a function of the stream

  /** Everything owed to the reader once `received` has arrived. */
  function Transduce<S>(c: Codec<S>, ctx: Context<S>, received: bytes): bytes {
    match P.Classify(received)
    case Undecided => []
    case Passthrough => received
    case Http2 => assert P.PREFACE <= received by { P.ClassifyMeaning(received); }
      P.PREFACE + Relay(c, ctx, received[P.PREFACE_LEN..])
    case Http1 => H.Transform(c, H.State(ctx.codec, None), received).out
  }

  /** The stream is HTTP/1 and some head or body in it is malformed. */
  predicate Malformed<S>(c: Codec<S>, ctx: Context<S>, received: bytes) {
    P.Classify(received) == P.Http1 && H.Transform(c, H.State(ctx.codec, None), received).failed
  }

  /** No unit can be taken and forwarded from the front of `rest`, now or after more input. */
  ghost predicate CannotForward<S>(c: Codec<S>, ctx: Context<S>, rest: bytes) {
    match NextUnit(rest)
    case Need => false
    case WrongType(_) => true
    case WrongStream(_) => true
    case Ready(n) => Forward(c, ctx, rest[..n]).None? && !Hangs(c, ctx, rest[..n])
  }

  /** The unit at the front of `rest` makes the rewriter spin. */
  ghost predicate HangsAt<S>(c: Codec<S>, ctx: Context<S>, rest: bytes) {
    var e := NextUnit(rest);
    e.Ready? && Hangs(c, ctx, rest[..e.len])
  }

  lemma CannotForwardIsFinal<S>(c: Codec<S>, ctx: Context<S>, rest: bytes, more: bytes)
    requires CannotForward(c, ctx, rest)
    ensures CannotForward(c, ctx, rest + more)
  {
    hide NextUnit, Forward, Hangs;
    NextUnitIsFinal(rest, more);
    if NextUnit(rest).Ready? {
      assert (rest + more)[..NextUnit(rest).len] == rest[..NextUnit(rest).len];
    }
  }

  /**
   * What makes the rewriter give up: a header block broken into by another frame, one that does not decode, stands
   * on stream 0 or makes a frame of 2^24 bytes. Nothing else does.
   */
  lemma CannotForwardExactlyWhen<S>(c: Codec<S>, ctx: Context<S>, rest: bytes)
    ensures CannotForward(c, ctx, rest) <==>
      var e := NextUnit(rest);
      || e.WrongType? || e.WrongStream?
      || (&& e.Ready? && rest[..e.len][3] == HEADERS
          && var h := c.headers(ctx.codec, rest[..e.len]);
             || h.BlockInvalid? || StreamOf(rest[..e.len]) == 0
             || |h.priority| + Min(|h.block|, ctx.maxFrame) >= 0x100_0000)
  {
    hide NextUnit, StreamOf, Forward, Hangs;
    var e := NextUnit(rest);
    if e.Ready? {
      ForwardsExactlyWhen(c, ctx, rest[..e.len]);
      HangsExactlyWhen(c, ctx, rest[..e.len]);
    }
  }

  /** The settings a server's bytes announce, in order. */
  function Announcements(buf: bytes): seq<(nat, nat)> {
    match TotalLen(buf)
    case None => []
    case Some(n) => SettingsIn(buf[..n]) + Announcements(buf[n..])
  }

  /** The incomplete frame at the end of a server's bytes. */
  function Unparsed(buf: bytes): bytes {
    match TotalLen(buf)
    case None => buf
    case Some(n) => Unparsed(buf[n..])
  }

  /** A SETTINGS frame that is no acknowledgement and has whole entries announces them. */
  function SettingsIn(frame: bytes): seq<(nat, nat)>
    requires |frame| >= FRAME_HEADER_LEN
  {
    if frame[3] == SETTINGS && frame[4] % 2 == 0 && (|frame| - FRAME_HEADER_LEN) % 6 == 0
    then Entries(frame[FRAME_HEADER_LEN..]) else []
  }

  function Entries(payload: bytes): seq<(nat, nat)> {
    if |payload| < 6 then [] else [(U16(payload), U32(payload[2..]))] + Entries(payload[6..])
  }

  function AsEvents(s: seq<(nat, nat)>): seq<Event> {
    seq(|s|, i requires 0 <= i < |s| => Announced(s[i]))
  }

  lemma AppendEvents(a: seq<(nat, nat)>, b: seq<(nat, nat)>)
    ensures AsEvents(a + b) == AsEvents(a) + AsEvents(b)
  {
  }

  lemma FewEvents(s: (nat, nat))
    ensures AsEvents([]) == [] && AsEvents([s]) == [Announced(s)]
  {
  }

  lemma AnnouncementsStep(buf: bytes)
    ensures TotalLen(buf).None? ==> Announcements(buf) == [] && Unparsed(buf) == buf
    ensures TotalLen(buf).Some? ==>
      && Announcements(buf) == SettingsIn(buf[..TotalLen(buf).value]) + Announcements(buf[TotalLen(buf).value..])
      && Unparsed(buf) == Unparsed(buf[TotalLen(buf).value..])
      && 0 < TotalLen(buf).value <= |buf|
  {
  }

  lemma EntriesStep(payload: bytes)
    ensures |payload| < 6 ==> Entries(payload) == []
    ensures |payload| >= 6 ==>
      Entries(payload) == [(U16(payload), U32(payload[2..]))] + Entries(payload[6..])
  {
  }

  /** The announcements of a response do not depend on how it was cut. */
  lemma {:induction false} AnnouncementsSplit(a: bytes, b: bytes)
    ensures Announcements(a + b) == Announcements(a) + Announcements(Unparsed(a) + b)
    ensures Unparsed(a + b) == Unparsed(Unparsed(a) + b)
    decreases |a|
  {
    hide TotalLen, StreamOf, SettingsIn;
    match TotalLen(a) {
      case None =>
      case Some(n) =>
        TotalLenExtended(a, b);
        assert (a + b)[..n] == a[..n];
        AnnouncementsSplit(a[n..], b);
    }
  }

  /** Settings as a server writes them: six bytes each (section 6.5.1 of RFC 9113). */
  function EncodeEntries(settings: seq<(nat, nat)>): (b: bytes)
    requires AreSettings(settings)
    ensures |b| == 6 * |settings|
  {
    if settings == [] then []
    else Put16(settings[0].0) + Put32(settings[0].1) + EncodeEntries(settings[1..])
  }

  predicate AreSettings(settings: seq<(nat, nat)>) {
    forall i :: 0 <= i < |settings| ==> settings[i].0 < 0x1_0000 && settings[i].1 < 0x1_0000_0000
  }

  lemma {:induction false} EntriesReadBack(settings: seq<(nat, nat)>)
    requires AreSettings(settings)
    ensures Entries(EncodeEntries(settings)) == settings
    decreases |settings|
  {
    hide U16, U32, Put16, Put32;
    if settings != [] {
      var b := EncodeEntries(settings);
      var id, value, rest := Put16(settings[0].0), Put32(settings[0].1), EncodeEntries(settings[1..]);
      assert b == id + value + rest && b[6..] == rest;
      TwoInFront(id, value + rest);
      FourInFront(value, rest);
      assert b == id + (value + rest) && b[2..] == value + rest;
      EntriesReadBack(settings[1..]);
      EntriesStep(b);
    }
  }

  lemma TwoInFront(a: bytes, b: bytes)
    requires |a| == 2
    ensures U16(a + b) == U16(a)
  {
  }

  lemma FourInFront(a: bytes, b: bytes)
    requires |a| == 4
    ensures U32(a + b) == U32(a)
  {
    assert (a + b)[2..][..2] == a[2..];
  }

  /** Which frame announces what: SETTINGS, type 0x4, without ACK, flag 0x1, and with whole entries; no other does. */
  lemma FrameAnnounces(f: Frame, tail: bytes)
    requires Encodable(f)
    ensures Announcements(Encode(f) + tail) ==
      (if f.ftype == 4 && f.flags % 2 == 0 && |f.payload| % 6 == 0 then Entries(f.payload) else []) + Announcements(tail)
    ensures Unparsed(Encode(f) + tail) == Unparsed(tail)
  {
    hide Encode, TotalLen, Entries, StreamOf;
    var d := Encode(f) + tail;
    EncodedFrameReadsBack(f, tail);
    var n := |Encode(f)|;
    assert d[..n] == Encode(f) && d[..n][FRAME_HEADER_LEN..] == d[FRAME_HEADER_LEN..n];
    AnnouncementsStep(d);
  }

  /** A server's settings are taken note of as it wrote them, in order, however many and whatever follows. */
  lemma SettingsReadBack(settings: seq<(nat, nat)>, tail: bytes)
    requires AreSettings(settings) && 6 * |settings| < 0x100_0000
    ensures Announcements(Encode(Frame(SETTINGS, 0, 0, EncodeEntries(settings))) + tail) == settings + Announcements(tail)
  {
    hide Encode, Entries, EncodeEntries, Announcements, Unparsed, AreSettings;
    FrameAnnounces(Frame(SETTINGS, 0, 0, EncodeEntries(settings)), tail);
    EntriesReadBack(settings);
  }

  /** A table of 4096 bytes and frames of up to 32768, as bytes of one SETTINGS frame. */
  lemma SettingsOnTheWire()
    ensures Announcements([0, 0, 12, 4, 0, 0, 0, 0, 0, 0, 1, 0, 0, 16, 0, 0, 5, 0, 0, 128, 0]) == [(1, 4096), (5, 32768)]
  {
    hide Encode, Announcements, EncodeEntries;
    var settings := [(1, 4096), (5, 32768)];
    TwoEntries(settings[0], settings[1]);
    var f := Frame(SETTINGS, 0, 0, EncodeEntries(settings));
    SettingsFrameBytes(f.payload);
    assert Encode(f) + [] == Encode(f);
    SettingsReadBack(settings, []);
    AnnouncementsStep([]);
  }

  lemma TwoEntries(s: (nat, nat), t: (nat, nat))
    requires s.0 < 0x1_0000 && s.1 < 0x1_0000_0000 && t.0 < 0x1_0000 && t.1 < 0x1_0000_0000
    ensures AreSettings([s, t])
    ensures EncodeEntries([s, t]) == Put16(s.0) + Put32(s.1) + Put16(t.0) + Put32(t.1)
  {
    hide Put16, Put32;
    assert AreSettings([t]) && [s, t][1..] == [t];
    assert EncodeEntries([t]) == Put16(t.0) + Put32(t.1) + [];
  }

  lemma SettingsFrameBytes(payload: bytes)
    requires payload == Put16(1) + Put32(4096) + Put16(5) + Put32(32768)
    ensures Encode(Frame(SETTINGS, 0, 0, payload))
         == [0, 0, 12, 4, 0, 0, 0, 0, 0, 0, 1, 0, 0, 16, 0, 0, 5, 0, 0, 128, 0]
  {
  }

  /** A turn that takes `k` bytes off the buffer and makes `out` of them adds to what was made before. */
  lemma TurnTaken<S>(c: Codec<S>, s: H.State<S>, before: bytes, buf: bytes, k: nat, sent: bytes, now: H.State<S>,
                     out: bytes, next: H.State<S>)
    requires k <= |buf|
    requires H.Transform(c, s, before) == H.Run(sent, now, [], false)
    requires H.Transform(c, now, buf[..k]) == H.Run(out, next, [], false)
    ensures var received := before + buf;
      && received == received[..|received| - |buf[k..]|] + buf[k..]
      && H.Transform(c, s, received[..|received| - |buf[k..]|]) == H.Run(sent + out, next, [], false)
  {
    hide H.Transform;
    H.TakenAfter(c, s, before, buf[..k], H.Run(sent, now, [], false), H.Run(out, next, [], false));
    var received := before + buf;
    assert received[..|received| - |buf[k..]|] == before + buf[..k];
  }

  lemma MoreAdded(received: bytes, buf: bytes, added: bytes, more: bytes)
    ensures (received + added) + more == received + (added + more) && (buf + added) + more == buf + (added + more)
    ensures (received + (added + more))[|received|..] == added + more
    ensures more == [] ==> added + more == added
  {
  }

  /** The turn on a request's head and the part of its body that has come along. */
  lemma HeadTurnTaken<S>(c: Codec<S>, s: H.State<S>, before: bytes, buf: bytes, k: nat, sent: bytes, now: H.State<S>,
                         next: H.State<S>)
    requires H.Transform(c, s, before) == H.Run(sent, now, [], false)
    requires now.tracker.None? && H.HeadLength(buf).Some?
    requires var n := H.HeadLength(buf).value;
      var h := c.head(now.codec, buf[..n]);
      && h.Head? && k <= |buf| - n
      && H.Transform(c, H.State(h.next, H.NewTracking(h.chunked, h.contentLength)), buf[n..][..k])
         == H.Run(buf[n..][..k], next, [], false)
    ensures var n := H.HeadLength(buf).value;
      var out := c.head(now.codec, buf[..n]).serialized + buf[n..][..k];
      var received := before + buf;
      var rest := buf[n..][k..];
      && received == received[..|received| - |rest|] + rest
      && H.Transform(c, s, received[..|received| - |rest|]) == H.Run(sent + out, next, [], false)
  {
    hide H.Transform, H.HeadLength, H.NewTracking;
    var n := H.HeadLength(buf).value;
    H.HeadTaken(c, now, buf, k, next);
    TurnTaken(c, s, before, buf, n + k, sent, now, c.head(now.codec, buf[..n]).serialized + buf[n..][..k], next);
    assert buf[n..][k..] == buf[n + k..];
  }

  class WatcherConn<S> {
    const codec: Codec<S>
    const conn: Conn

    var reqBuf: bytes
    var respBuf: bytes
    var pendingBuffer: bytes
    var prefetched: bool
    var http2PrefaceSent: bool
    var isHttp1: bool
    var passthrough: bool
    var http1BodyTracker: B.BodyTracker?
    var state: S
    var maxFrameSize: nat

    ghost const start: Context<S>
    ghost var received: bytes
    ghost var delivered: bytes
    ghost var events: seq<Event>
    ghost var broken: bool
    ghost var observed: bytes

    constructor (codec: Codec<S>, conn: Conn, state: S)
      ensures Valid() && this.codec == codec && this.conn == conn
      ensures start == Context(state, DEFAULT_MAX_FRAME_SIZE)
      ensures received == delivered == observed == [] && events == [] && http1BodyTracker == null && !broken
      ensures Followed()
    {
      this.codec, this.conn, this.state, maxFrameSize := codec, conn, state, DEFAULT_MAX_FRAME_SIZE;
      reqBuf, respBuf, pendingBuffer := [], [], [];
      prefetched, http2PrefaceSent, isHttp1, passthrough := false, false, false, false;
      http1BodyTracker := null;
      start := Context(state, DEFAULT_MAX_FRAME_SIZE);
      received, delivered, events, broken, observed := [], [], [], false, [];
    }

    // -------------------------------------------------------------- invariant

    function Now(): H.State<S>
      reads `state, `http1BodyTracker, http1BodyTracker
    {
      H.State(state, if http1BodyTracker == null then None else Some(http1BodyTracker.Value()))
    }

    /** The client's whole stream: what has arrived and what is still to come. */
    ghost function Stream(): bytes
      reads `received, conn`script
    {
      received + conn.Remaining()
    }

    ghost predicate Sniffing()
      reads `prefetched, `isHttp1, `passthrough
    {
      !prefetched && !isHttp1 && !passthrough
    }

    /** Frames are being forwarded: `emitted` has left reqBuf rewritten. */
    ghost predicate Forwarding(emitted: bytes)
      reads `received, `reqBuf, `events, `state, `maxFrameSize
    {
      && received == P.PREFACE + Consumed(events) + reqBuf
      && AreUnits(events)
      && Replay(codec, start, events) == Some(Progress(emitted, Context(state, maxFrameSize)))
    }

    /** Of what arrived, what follows the point where forwarding stopped is in `all` verbatim. */
    ghost predicate StoppedAfter(arrived: bytes, all: bytes)
      reads `events
    {
      && P.PREFACE + Consumed(events) <= arrived
      && AreUnits(events)
      && Replay(codec, start, events).Some?
      && var p := Replay(codec, start, events).value;
         var rest := arrived[|P.PREFACE + Consumed(events)|..];
         CannotForward(codec, p.ctx, rest) && all == P.PREFACE + p.out + rest
    }

    lemma StoppedMore(arrived: bytes, all: bytes, more: bytes)
      requires StoppedAfter(arrived, all)
      ensures StoppedAfter(arrived + more, all + more)
    {
      hide NextUnit, Forward, Replay, Consumed, AreUnits, CannotForward;
      var before := P.PREFACE + Consumed(events);
      CannotForwardIsFinal(codec, Replay(codec, start, events).value.ctx, arrived[|before|..], more);
      assert (arrived + more)[|before|..] == arrived[|before|..] + more;
    }

    /** Where forwarding stopped, everything that follows goes through verbatim; `sent` is out of reqBuf. */
    ghost predicate GaveUp(sent: bytes)
      reads `received, `reqBuf, `events
    {
      StoppedAfter(received, sent + reqBuf)
    }

    function Ctx(): Context<S>
      reads `state, `maxFrameSize
    {
      Context(state, maxFrameSize)
    }

    /** What has left reqBuf. */
    ghost function Passed(): bytes
      reads `received, `reqBuf
    {
      if |reqBuf| <= |received| then received[..|received| - |reqBuf|] else []
    }

    /**
     * What has left reqBuf has been transformed to `sent`, completely. Once a request error was raised, only
     * that the stream is malformed is known.
     */
    ghost predicate Transforming(sent: bytes)
      reads `received, `reqBuf, `state, `broken, `http1BodyTracker, http1BodyTracker
    {
      if broken then H.Transform(codec, H.State(start.codec, None), received).failed
      else
        && received == Passed() + reqBuf
        && H.Transform(codec, H.State(start.codec, None), Passed()) == H.Run(sent, Now(), [], false)
    }

    lemma TransformingMeans(sent: bytes)
      ensures Transforming(sent) && !broken ==>
        && received == Passed() + reqBuf
        && H.Transform(codec, H.State(start.codec, None), Passed()) == H.Run(sent, Now(), [], false)
      ensures broken ==> (Transforming(sent) <==> H.Transform(codec, H.State(start.codec, None), received).failed)
    {
      hide H.Transform;
    }

    lemma TransformingNow(sent: bytes, front: bytes)
      requires !broken && received == front + reqBuf
      requires H.Transform(codec, H.State(start.codec, None), front) == H.Run(sent, Now(), [], false)
      ensures Transforming(sent)
    {
      hide H.Transform;
      assert received[..|received| - |reqBuf|] == front;
    }

    /** So what is owed for the stream is `sent` and what the buffer still holds. */
    lemma AllAndLeft(sent: bytes)
      requires Transforming(sent) && !broken
      ensures var all := H.Transform(codec, H.State(start.codec, None), received);
        var left := H.Transform(codec, Now(), reqBuf);
        all.failed == left.failed && (!all.failed ==> all == H.Prepend(sent, left))
    {
      hide H.Transform;
      H.TransformSplit(codec, H.State(start.codec, None), Passed(), reqBuf);
      assert [] + reqBuf == reqBuf;
    }

    /** The history's announcements are those in the server's bytes, of which respBuf holds the incomplete frame. */
    ghost predicate Followed()
      reads `events, `observed, `respBuf
    {
      AnnouncedIn(events) == Announcements(observed) && respBuf == Unparsed(observed)
    }

    /** The invariant, with `pending` as the bytes rewritten but not delivered. */
    ghost predicate ValidWith(pending: bytes)
      reads this, http1BodyTracker
    {
      var sent := delivered + pending;
      && (http1BodyTracker != null ==> http1BodyTracker.Valid())
      && start.maxFrame == DEFAULT_MAX_FRAME_SIZE
      && !(prefetched && isHttp1) && !(passthrough && isHttp1) && (broken ==> isHttp1)
      && (Sniffing() ==>
            && received == reqBuf && sent == []
            && !http2PrefaceSent && events == [] && !broken && http1BodyTracker == null
            && start == Context(state, maxFrameSize))
      && (passthrough && !prefetched ==> P.Classify(received) == P.Passthrough && received == sent + reqBuf)
      && (prefetched ==> P.PREFACE <= received && http1BodyTracker == null)
      && (prefetched && !passthrough ==>
            if http2PrefaceSent then P.PREFACE <= sent && Forwarding(sent[P.PREFACE_LEN..])
            else sent == [] && Consumed(events) == [] && Forwarding([]))
      && (prefetched && passthrough ==> GaveUp(sent))
      && (isHttp1 ==> P.Classify(received) == P.Http1 && Transforming(sent))
    }

    ghost predicate Valid()
      reads this, http1BodyTracker
    {
      ValidWith(pendingBuffer)
    }

    /** Nothing more can be made of what has arrived. */
    ghost predicate Settled()
      reads this, http1BodyTracker
    {
      && pendingBuffer == []
      && (Sniffing() ==> P.Classify(reqBuf) == P.Undecided)
      && (passthrough ==> reqBuf == [])
      && (prefetched && !passthrough ==> http2PrefaceSent && NextUnit(reqBuf) == Need)
      && (isHttp1 && !broken ==> Stuck(Now(), reqBuf))
    }

    /** The server has not changed its settings so far. */
    ghost predicate NoAnnouncements()
      reads `events
    {
      AllTaken(events)
    }

    /**
     * The request loop spins on the unit at the front of the buffer, after a history whose output begins with
     * what has been delivered.
     */
    ghost predicate Spins()
      reads this
    {
      && prefetched && !passthrough && maxFrameSize == 0
      && received == P.PREFACE + Consumed(events) + reqBuf
      && AreUnits(events) && Replay(codec, start, events).Some?
      && var p := Replay(codec, start, events).value;
         p.ctx.maxFrame == maxFrameSize && HangsAt(codec, p.ctx, reqBuf) && delivered <= P.PREFACE + p.out
    }

    lemma SpinsAtZero()
      requires Spins()
      ensures maxFrameSize == 0
    {
      hide NextUnit, Forward, Hangs, Replay, Consumed, AreUnits;
    }

    /** Units taken do not change what the server announced. */
    lemma StillFollowed(earlier: seq<Event>)
      requires AnnouncedIn(earlier) == Announcements(observed) && respBuf == Unparsed(observed)
      requires Continues(earlier, events)
      ensures Followed()
    {
      hide Announcements, Unparsed, AnnouncedIn, Continues;
      ContinuingAnnouncesNothing(earlier, events);
    }

    /** It does so only when the server has announced a maximum frame size of zero. */
    lemma SpinsOnlyWhenAnnounced()
      requires Spins() && start.maxFrame > 0
      ensures Announced((SETTINGS_MAX_FRAME_SIZE, 0)) in events
    {
      hide NextUnit, Forward, Hangs, Replay, Consumed, AreUnits;
      ContextAfter(codec, start, events);
      LimitIsLastAnnounced(start.maxFrame, events);
    }

    lemma RelayStops(ctx: Context<S>, rest: bytes)
      ensures NextUnit(rest) == Need ==> Relay(codec, ctx, rest) == []
      ensures CannotForward(codec, ctx, rest) ==> Relay(codec, ctx, rest) == rest
    {
      hide NextUnit, Forward, Hangs;
    }

    lemma ForwardedMeansRelayed()
      requires Valid() && Settled() && NoAnnouncements() && prefetched
      ensures delivered == P.PREFACE + Relay(codec, start, received[P.PREFACE_LEN..])
    {
      hide NextUnit, Forward, Replay, Consumed, AreUnits, P.Classify, H.Transform, Relay, CannotForward;
      var before := P.PREFACE + Consumed(events);
      var rest := received[|before|..];
      assert received == before + rest;
      assert received[P.PREFACE_LEN..] == Consumed(events) + rest;
      ReplayIsRelay(codec, start, events, rest);
      var p := Replay(codec, start, events).value;
      RelayStops(p.ctx, rest);
      assert delivered + [] == delivered;
      if passthrough {
        assert delivered + [] + reqBuf == delivered;
        assert P.PREFACE + p.out + rest == P.PREFACE + (p.out + rest);
      } else {
        assert delivered == P.PREFACE + delivered[P.PREFACE_LEN..];
        assert p.out + [] == p.out;
      }
    }

    /** When nothing more can be made of what has arrived, all that is owed for it has been delivered. */
    lemma SettledMeansDelivered()
      requires Valid() && Settled() && NoAnnouncements() && !broken
      ensures delivered == Transduce(codec, start, received)
      ensures !Malformed(codec, start, received)
    {
      hide NextUnit, Forward, Relay, Replay, P.Classify, H.Transform;
      P.ClassifyMeaning(received);
      assert delivered + [] == delivered;
      if prefetched {
        ForwardedMeansRelayed();
      } else if isHttp1 {
        AllAndLeft(delivered);
      } else {
        assert delivered + [] + [] == delivered;
      }
    }

    /**
     * Conservation on an HTTP/2 connection, in every reachable state: what arrived after the preface is the
     * units taken and what still waits; what went out after the preface is one piece for each unit in order,
     * and once forwarding has stopped, everything from the offending unit on, verbatim. The announcements
     * between the units, on which the pieces depend, are those in the server's bytes.
     */
    lemma Http2Conserved() returns (pieces: seq<bytes>, verbatim: bytes)
      requires Valid() && Followed() && prefetched && http2PrefaceSent
      ensures AreImagesOf(codec, start, pieces, events)
      ensures AnnouncedIn(events) == Announcements(observed)
      ensures received == P.PREFACE + Consumed(events) + (if passthrough then verbatim else reqBuf)
      ensures delivered + pendingBuffer + (if passthrough then reqBuf else [])
           == P.PREFACE + Concat(pieces) + verbatim
      ensures var now := Context(TablesAfter(codec, start.codec, events), LimitAfter(start.maxFrame, events));
        if passthrough then CannotForward(codec, now, verbatim) else verbatim == [] && Ctx() == now
    {
      ContextAfter(codec, start, events);
      hide TablesAfter, LimitAfter, NextUnit, Forward, Replay, Consumed, AreUnits, P.Classify, H.Transform, CannotForward,
           AreImagesOf, Concat, AnnouncedIn, Announcements;
      pieces := OutputIsUnitByUnit(codec, start, events);
      verbatim := if passthrough then received[|P.PREFACE + Consumed(events)|..] else [];
      var sent := delivered + pendingBuffer;
      assert !passthrough ==> sent == P.PREFACE + sent[P.PREFACE_LEN..];
      assert sent + [] == sent && P.PREFACE + Concat(pieces) + [] == P.PREFACE + Concat(pieces);
    }

    /** A history's output, then what is owed for the rest, is owed for the units taken and the rest. */
    lemma OwedIsSentAndRest(rest: bytes)
      requires AreUnits(events) && Replay(codec, start, events).Some? && NoAnnouncements()
      requires received == P.PREFACE + Consumed(events) + rest
      ensures var p := Replay(codec, start, events).value;
        P.PREFACE + Relay(codec, start, received[P.PREFACE_LEN..]) == P.PREFACE + p.out + Relay(codec, p.ctx, rest)
    {
      hide NextUnit, Forward, Relay, Replay, Consumed, AreUnits;
      assert received[P.PREFACE_LEN..] == Consumed(events) + rest;
      ReplayIsRelay(codec, start, events, rest);
      var p := Replay(codec, start, events).value;
      assert P.PREFACE + (p.out + Relay(codec, p.ctx, rest)) == P.PREFACE + p.out + Relay(codec, p.ctx, rest);
    }

    lemma SentIsPrefixOnHttp2()
      requires Valid() && NoAnnouncements() && prefetched
      ensures delivered + pendingBuffer <= P.PREFACE + Relay(codec, start, received[P.PREFACE_LEN..])
    {
      hide NextUnit, Forward, Relay, Replay, Consumed, AreUnits, P.Classify, H.Transform, CannotForward;
      var sent := delivered + pendingBuffer;
      if passthrough {
        var rest := received[|P.PREFACE + Consumed(events)|..];
        OwedIsSentAndRest(rest);
        RelayStops(Replay(codec, start, events).value.ctx, rest);
        assert sent <= sent + reqBuf;
      } else if http2PrefaceSent {
        OwedIsSentAndRest(reqBuf);
        assert sent == P.PREFACE + sent[P.PREFACE_LEN..];
      }
    }

    /**
     * At any time, what has been sent is owed for what has arrived up to some point where nothing is malformed
     * yet; on HTTP/1, for exactly what has left the buffer.
     */
    lemma DeliveredIsOwed() returns (n: nat)
      requires Valid() && NoAnnouncements() && !broken
      ensures n <= |received| && !Malformed(codec, start, received[..n])
      ensures delivered + pendingBuffer <= Transduce(codec, start, received[..n])
      ensures isHttp1 ==> received[..n] == Passed() && delivered + pendingBuffer == Transduce(codec, start, received[..n])
    {
      hide NextUnit, Relay, Forwarding, GaveUp, P.Classify, H.Transform;
      if isHttp1 {
        n := |Passed()|;
        TakenIsHttp1(delivered + pendingBuffer);
        assert received[..n] == Passed();
      } else if Sniffing() {
        n := 0;
        assert received[..0] == [];
        P.ClassifyMeaning([]);
      } else {
        n := |received|;
        assert received[..n] == received;
        P.ClassifyMeaning(received);
        if prefetched {
          SentIsPrefixOnHttp2();
        }
      }
    }

    lemma TakenIsHttp1(sent: bytes)
      requires P.Classify(received) == P.Http1 && Transforming(sent) && !broken
      ensures Passed() <= received
      ensures !Malformed(codec, start, Passed()) && sent == Transduce(codec, start, Passed())
    {
      hide H.Transform, P.Classify;
      if Passed() == [] {
        H.TransformNothing(codec, start.codec);
        P.ClassifyMeaning([]);
      } else {
        H.HoldsAHead(codec, start.codec, Passed());
        P.Http1ByEndOfLine(Passed(), reqBuf);
      }
    }

    /** So, unless the stream is malformed, it is a prefix of what is owed for all that has arrived. */
    lemma DeliveredIsPrefix()
      requires Valid() && NoAnnouncements() && !broken
      ensures Malformed(codec, start, received) || delivered + pendingBuffer <= Transduce(codec, start, received)
    {
      hide ValidWith, Malformed, Transduce;
      var n := DeliveredIsOwed();
      assert received[..n] + received[n..] == received;
      if !Malformed(codec, start, received) {
        TransduceExtended(codec, start, received[..n], received[n..]);
      }
    }

    lemma BrokenMeansMalformed()
      requires Valid() && broken
      ensures Malformed(codec, start, received)
    {
    }

    // -------------------------------------------------------------- reading

    method ReadFromPending(size: nat) returns (data: bytes)
      requires Valid()
      modifies `pendingBuffer, `delivered
      ensures Valid()
      ensures |data| <= size
      ensures data == old(pendingBuffer)[..Min(size, |old(pendingBuffer)|)]
      ensures size > 0 && old(pendingBuffer) != [] ==> data != []
      ensures pendingBuffer == old(pendingBuffer)[|data|..] && delivered == old(delivered) + data
    {
      hide H.Transform, P.Classify, Relay, Replay, NextUnit, Consumed, AreUnits, CannotForward;
      var copied := Min(size, |pendingBuffer|);
      data := pendingBuffer[..copied];
      assert delivered + pendingBuffer == (delivered + data) + pendingBuffer[copied..];
      pendingBuffer := pendingBuffer[copied..];
      delivered := delivered + data;
    }

    /** The loop that looks for the end of a header sequence at the front of the buffer. */
    method ExtractCompleteHeaderSequence() returns (e: Extraction)
      ensures e == ExtractHeaders(reqBuf)
    {
      hide TotalLen, StreamOf, ScanContinuations, HasEndHeaders;
      var data := reqBuf;
      var first := TotalLen(data);
      if first.None? {
        return Need;
      }
      if HasEndHeaders(data[4]) {
        return Ready(first.value);
      }
      var stream := StreamOf(data);
      var offset := first.value;
      while true
        invariant first.value <= offset <= |data|
        invariant ExtractHeaders(data) == Shift(offset, ScanContinuations(data[offset..], stream))
        decreases |data| - offset
      {
        ScanStep(data[offset..], stream);
        var next := TotalLen(data[offset..]);
        if next.None? {
          return Need;
        }
        if data[offset + 3] != CONTINUATION {
          return WrongType(data[offset + 3]);
        }
        if StreamOf(data[offset..]) != stream {
          return WrongStream(StreamOf(data[offset..]));
        }
        assert data[offset..][next.value..] == data[offset + next.value..];
        offset := offset + next.value;
        if HasEndHeaders(data[offset - next.value + 4]) {
          return Ready(offset);
        }
      }
    }

    /** Decoding, editing, re-encoding and fragmenting one header sequence. */
    method RewriteHeaders(raw: bytes) returns (out: Option<bytes>, spins: bool)
      requires |raw| >= FRAME_HEADER_LEN && raw[3] == HEADERS
      modifies `state
      ensures var r := Rewrite(codec, Context(old(state), maxFrameSize), raw);
        && out.Some? == r.Some?
        && (r.Some? ==> out.value == r.value.out && Context(state, maxFrameSize) == r.value.ctx)
      ensures spins == Hangs(codec, Context(old(state), maxFrameSize), raw)
    {
      match codec.headers(state, raw) {
        case BlockInvalid =>
          return None, false;
        case Block(block, priority, next) =>
          var w := FragmentBlock(block, maxFrameSize, StreamOf(raw), HasEndStream(raw[4]), priority);
          state := next;
          out, spins := if w.Bytes? then Some(w.out) else None, w == Spinning;
      }
    }

    /** The request loop: forwards unit after unit into `preBuff` until one is incomplete or fails. */
    method ProcessHttp2RequestFrames(ghost emitted: bytes) returns (preBuff: bytes, failed: bool, spins: bool)
      requires Forwarding(emitted)
      modifies `reqBuf, `state, `events
      ensures spins ==>
        && received == P.PREFACE + Consumed(events) + reqBuf
        && AreUnits(events) && Replay(codec, start, events).Some?
        && var p := Replay(codec, start, events).value;
           p.out == emitted + preBuff && p.ctx.maxFrame == maxFrameSize == 0 && HangsAt(codec, p.ctx, reqBuf)
      ensures !spins && failed ==>
        && received == P.PREFACE + Consumed(events) + reqBuf
        && AreUnits(events) && Replay(codec, start, events).Some?
        && Replay(codec, start, events).value.out == emitted + preBuff
        && CannotForward(codec, Replay(codec, start, events).value.ctx, reqBuf)
      ensures !spins && !failed ==> Forwarding(emitted + preBuff) && NextUnit(reqBuf) == Need
      ensures spins <==> Hits(codec, old(Ctx()), old(reqBuf))
      ensures !spins && !failed && preBuff == [] ==> reqBuf == old(reqBuf) && Ctx() == old(Ctx())
      ensures Continues(old(events), events)
      ensures |reqBuf| <= |old(reqBuf)|
    {
      hide TotalLen, StreamOf, Rewrite, ExtractHeaders, Replay, Consumed, AreUnits, Hangs, Hits;
      preBuff := [];
      assert emitted + [] == emitted;
      while true
        invariant Forwarding(emitted + preBuff)
        invariant Continues(old(events), events)
        invariant Hits(codec, Ctx(), reqBuf) == Hits(codec, old(Ctx()), old(reqBuf))
        invariant preBuff == [] ==> reqBuf == old(reqBuf) && Ctx() == old(Ctx())
        invariant |reqBuf| <= |old(reqBuf)|
        decreases |reqBuf|
      {
        HitsStep(codec, Ctx(), reqBuf);
        var total := TotalLen(reqBuf);
        if total.None? {
          return preBuff, false, false;
        }
        var raw := reqBuf[..total.value];
        var out := raw;
        ghost var ctx := Ctx();
        if reqBuf[3] == HEADERS {
          var e := ExtractCompleteHeaderSequence();
          if e == Need {
            return preBuff, false, false;
          }
          if !e.Ready? {
            return preBuff, true, false;
          }
          raw := reqBuf[..e.len];
          assert raw[3] == reqBuf[3];
          var rewritten;
          rewritten, spins := RewriteHeaders(raw);
          if spins {
            HangsExactlyWhen(codec, ctx, raw);
            return preBuff, false, true;
          }
          if rewritten.None? {
            return preBuff, true, false;
          }
          out := rewritten.value;
        }
        OnlyHeadersHang(codec, ctx, raw);
        ForwardedIsNotEmpty(codec, ctx, raw);
        TakeUnit(emitted + preBuff, |raw|, out);
        assert emitted + preBuff + out == emitted + (preBuff + out);
        preBuff := preBuff + out;
      }
    }

    /** Removes a forwarded unit from the buffer and enters it in the history. */
    method TakeUnit(ghost emitted: bytes, n: nat, ghost out: bytes)
      requires NextUnit(reqBuf) == Ready(n)
      requires received == P.PREFACE + Consumed(events) + reqBuf && AreUnits(events)
      requires Replay(codec, start, events).Some? && Replay(codec, start, events).value.out == emitted
      requires Forward(codec, Replay(codec, start, events).value.ctx, reqBuf[..n])
        == Some(Progress(out, Context(state, maxFrameSize)))
      modifies `reqBuf, `events
      ensures Forwarding(emitted + out)
      ensures reqBuf == old(reqBuf)[n..] && events == old(events) + [Taken(old(reqBuf)[..n])]
    {
      hide NextUnit, Forward;
      NextUnitTruncated(reqBuf);
      ReplayAppend(codec, start, events, Taken(reqBuf[..n]));
      assert P.PREFACE + Consumed(events) + reqBuf
          == P.PREFACE + (Consumed(events) + reqBuf[..n]) + reqBuf[n..];
      events := events + [Taken(reqBuf[..n])];
      reqBuf := reqBuf[n..];
    }

    /** Parsing failed: from here on the connection is passed through, starting with what was not consumed. */
    method FallbackHttp2ToPassthrough(consumed: bytes) returns (out: bytes)
      modifies `passthrough, `http2PrefaceSent, `reqBuf
      ensures passthrough && http2PrefaceSent && reqBuf == []
      ensures out == (if old(http2PrefaceSent) then [] else P.PREFACE) + consumed + old(reqBuf)
    {
      passthrough := true;
      out := [];
      if !http2PrefaceSent {
        http2PrefaceSent := true;
        out := out + P.PREFACE;
      }
      if |consumed| > 0 {
        out := out + consumed;
      }
      if |reqBuf| > 0 {
        out := out + reqBuf;
        reqBuf := [];
      }
    }

    /** The bytes of the current body at the front of the buffer. */
    method ConsumeHttp1Body(ghost sent: bytes) returns (out: bytes, progressed: bool, failed: bool)
      requires http1BodyTracker != null && http1BodyTracker.Valid()
      requires Transforming(sent)
      modifies `reqBuf, `http1BodyTracker, http1BodyTracker, `broken
      ensures http1BodyTracker != null ==> http1BodyTracker == old(http1BodyTracker) && http1BodyTracker.Valid()
      ensures Transforming(sent + out)
      ensures failed ==> broken && !progressed
      ensures broken ==> old(broken) || failed
      ensures out != [] ==> progressed
      ensures progressed ==> |reqBuf| < |old(reqBuf)|
      ensures !progressed ==> reqBuf == old(reqBuf) && out == []
      ensures !progressed && !failed ==> Stuck(Now(), reqBuf)
    {
      hide B.Track, B.Feed, H.HeadLength, H.Transform, Transforming, Passed;
      out, progressed, failed := [], false, false;
      assert sent + [] == sent;
      ghost var before := Now();
      ghost var taken := Passed();
      TransformingMeans(sent);
      if !broken {
        AllAndLeft(sent);
      }
      var data := reqBuf;
      H.TransformBodyStep(codec, before, data);
      if |data| == 0 {
        return;
      }
      var consumed, done;
      consumed, done, failed := http1BodyTracker.Consume(data);
      if failed {
        broken := true;
        TransformingMeans(sent);
        return;
      }
      if consumed == 0 {
        TransformingMeans(sent);
        if !broken {
          TransformingNow(sent, taken);
        }
        return;
      }
      out, progressed := data[..consumed], true;
      H.BodyTaken(codec, before, data);
      reqBuf := data[consumed..];
      if done {
        http1BodyTracker := null;
      }
      if broken {
        TransformingMeans(sent + out);
      } else {
        TurnTaken(codec, H.State(start.codec, None), taken, data, consumed, sent, before, out, Now());
        TransformingNow(sent + out, received[..|received| - |reqBuf|]);
      }
    }

    /** The transformation can make nothing of the buffer in this state. */
    ghost predicate Stuck(s: H.State<S>, buf: bytes) {
      H.Transform(codec, s, buf) == H.Run([], s, buf, false)
    }

    /** A request head, once complete, with as much of its body as has arrived. */
    method ProcessH1ReqHeaders(ghost sent: bytes) returns (out: bytes, ready: bool, failed: bool)
      requires http1BodyTracker == null && Transforming(sent)
      modifies `reqBuf, `http1BodyTracker, `state, `broken
      ensures http1BodyTracker != null ==> fresh(http1BodyTracker) && http1BodyTracker.Valid()
      ensures Transforming(sent + out)
      ensures failed ==> broken
      ensures broken ==> old(broken) || failed
      ensures ready ==> !failed && |reqBuf| < |old(reqBuf)|
      ensures !ready ==> reqBuf == old(reqBuf) && out == [] && http1BodyTracker == null
      ensures !ready && !failed ==> Stuck(Now(), reqBuf)
    {
      hide B.Track, B.Feed, H.HeadLength, H.Transform, H.NewTracking, Transforming, Passed;
      out, ready, failed := [], false, false;
      assert sent + [] == sent;
      ghost var before := Now();
      ghost var taken := Passed();
      TransformingMeans(sent);
      if !broken {
        AllAndLeft(sent);
      }
      var data := reqBuf;
      H.TransformHeadStep(codec, before, data);
      var n := H.HeadLength(data);
      if n.None? {
        return;
      }
      var bodyData := data[n.value..];
      match codec.head(state, data[..n.value]) {
        case HeadInvalid =>
          failed, broken := true, true;
          TransformingMeans(sent);
        case Head(serialized, chunked, contentLength, next) =>
          var bodyTracker, consumed;
          bodyTracker, consumed, failed := ConsumeInlineBody(chunked, contentLength, next, bodyData);
          if failed {
            broken := true;
            TransformingMeans(sent);
            return;
          }
          out, ready := serialized + bodyData[..consumed], true;
          http1BodyTracker, state, reqBuf := bodyTracker, next, bodyData[consumed..];
          if broken {
            TransformingMeans(sent + out);
          } else {
            HeadTurnTaken(codec, H.State(start.codec, None), taken, data, consumed, sent, before, Now());
            TransformingNow(sent + out, received[..|received| - |reqBuf|]);
          }
      }
    }

    /** The part of a request's body that has come with its head. */
    method ConsumeInlineBody(chunked: bool, contentLength: int, ghost next: S, bodyData: bytes)
      returns (bodyTracker: B.BodyTracker?, consumed: nat, failed: bool)
      ensures bodyTracker != null ==> fresh(bodyTracker) && bodyTracker.Valid()
      ensures consumed <= |bodyData|
      ensures var all := H.Transform(codec, H.State(next, H.NewTracking(chunked, contentLength)), bodyData);
        failed ==> all.failed
      ensures !failed ==>
        H.Transform(codec, H.State(next, H.NewTracking(chunked, contentLength)), bodyData[..consumed])
        == H.Run(bodyData[..consumed],
                 H.State(next, if bodyTracker == null then None else Some(bodyTracker.Value())), [], false)
    {
      hide B.Track, B.Feed, H.Transform, H.NewTracking;
      bodyTracker := NewTracker(chunked, contentLength);
      consumed, failed := 0, false;
      ghost var s := H.State(next, H.NewTracking(chunked, contentLength));
      assert bodyData[..0] == [];
      if bodyTracker == null {
        H.TransformNothing(codec, next);
      } else {
        H.TransformBodyStep(codec, s, bodyData);
        H.TransformBodyStep(codec, s, []);
        if bodyData != [] {
          H.NewTrackingTakesBytes(chunked, contentLength, bodyData);
        }
        var done;
        consumed, done, failed := bodyTracker.Consume(bodyData);
        if consumed > 0 && !failed {
          H.BodyTaken(codec, s, bodyData);
        }
        if done {
          bodyTracker := null;
        }
      }
    }

    method NewTracker(chunked: bool, contentLength: int) returns (t: B.BodyTracker?)
      ensures t != null ==> fresh(t) && t.Valid()
      ensures H.NewTracking(chunked, contentLength) == if t == null then None else Some(t.Value())
    {
      if chunked {
        t := new B.BodyTracker(B.ModeChunked, 0);
      } else if contentLength > 0 {
        t := new B.BodyTracker(B.ModeContentLength, contentLength);
      } else {
        t := null;
      }
    }

    /** The request loop failed on the front of the buffer after `consumed`; `emitted` had gone out before. */
    method GiveUp(ghost emitted: bytes, consumed: bytes) returns (out: bytes)
      requires prefetched && !isHttp1 && !broken && http1BodyTracker == null
      requires start.maxFrame == DEFAULT_MAX_FRAME_SIZE
      requires delivered == (if http2PrefaceSent then P.PREFACE else []) + emitted
      requires !http2PrefaceSent ==> emitted == []
      requires received == P.PREFACE + Consumed(events) + reqBuf
      requires AreUnits(events) && Replay(codec, start, events).Some?
      requires Replay(codec, start, events).value.out == emitted + consumed
      requires CannotForward(codec, Replay(codec, start, events).value.ctx, reqBuf)
      modifies `passthrough, `http2PrefaceSent, `reqBuf
      ensures passthrough && ValidWith(out) && out != [] && reqBuf == []
    {
      hide NextUnit, Forward, Relay, Replay, Consumed, AreUnits, P.Classify, H.Transform, CannotForward, Hangs;
      ghost var rest := reqBuf;
      assert received[|P.PREFACE + Consumed(events)|..] == rest;
      EmptyIsForwardable(Replay(codec, start, events).value.ctx);
      out := FallbackHttp2ToPassthrough(consumed);
      assert delivered + out == P.PREFACE + (emitted + consumed) + rest;
      assert (delivered + out) + [] == delivered + out;
    }

    lemma EmptyIsForwardable(ctx: Context<S>)
      ensures !CannotForward(codec, ctx, [])
    {
    }

    /** The HTTP/2 part of preparing output: the preface once, then whatever the request loop forwards. */
    method PrepareHttp2() returns (out: bytes, spins: bool)
      requires ValidWith([]) && prefetched && !passthrough
      modifies `reqBuf, `state, `events, `passthrough, `http2PrefaceSent
      ensures if spins then Spins() && out == [] else ValidWith(out)
      ensures !spins && out == [] ==> !passthrough && http2PrefaceSent && NextUnit(reqBuf) == Need
      ensures spins <==> Hits(codec, old(Ctx()), old(reqBuf))
      ensures !spins && out == [] ==> reqBuf == old(reqBuf) && Ctx() == old(Ctx())
      ensures Continues(old(events), events)
      ensures |reqBuf| <= |old(reqBuf)|
    {
      hide NextUnit, Forward, Relay, Replay, Consumed, AreUnits, ExtractHeaders, P.Classify, H.Transform, HangsAt, Hits;
      ghost var sent := delivered + [];
      ghost var emitted := if http2PrefaceSent then sent[P.PREFACE_LEN..] else [];
      assert delivered <= P.PREFACE + emitted;
      var consumed, failed;
      consumed, failed, spins := ProcessHttp2RequestFrames(emitted);
      if spins {
        assert P.PREFACE + (emitted + consumed) == (P.PREFACE + emitted) + consumed;
        return [], true;
      }
      if failed {
        out := GiveUp(emitted, consumed);
        return;
      }
      if !http2PrefaceSent {
        http2PrefaceSent := true;
        out := P.PREFACE + consumed;
        assert (delivered + out)[P.PREFACE_LEN..] == emitted + consumed;
        return;
      }
      out := consumed;
      assert (delivered + out)[P.PREFACE_LEN..] == emitted + consumed;
    }

    /** One attempt to make output of what is buffered. */
    method PrepareBufferedOutput() returns (out: bytes, progressed: bool, failed: bool, spins: bool)
      requires Valid() && pendingBuffer == [] && !passthrough
      modifies this`reqBuf, this`prefetched, this`http2PrefaceSent, this`isHttp1, this`passthrough,
               this`http1BodyTracker, this`state, this`events, this`broken, http1BodyTracker
      ensures if spins then Spins() && pendingBuffer == out == [] && !failed else ValidWith(out)
      ensures http1BodyTracker != null ==> http1BodyTracker == old(http1BodyTracker) || fresh(http1BodyTracker)
      ensures failed ==> broken && out == [] && !progressed
      ensures broken ==> old(broken) || failed
      ensures out != [] ==> progressed
      ensures !progressed && !failed && !spins ==> Settled() && !passthrough
      ensures spins <==> old(prefetched) && Hits(codec, old(Ctx()), old(reqBuf))
      ensures old(prefetched) && !spins && !progressed ==> prefetched && reqBuf == old(reqBuf) && Ctx() == old(Ctx())
      ensures old(prefetched) ==> !failed && (progressed ==> out != [])
      ensures prefetched ==> old(prefetched) || old(Sniffing())
      ensures Sniffing() ==> old(Sniffing())
      ensures Continues(old(events), events)
      ensures progressed && out == [] ==> (old(Sniffing()) && !Sniffing()) || |reqBuf| < |old(reqBuf)|
      ensures progressed && out == [] && !old(Sniffing()) ==> !Sniffing() && !passthrough
      ensures |reqBuf| <= |old(reqBuf)|
    {
      hide NextUnit, Forward, H.Transform, H.HeadLength, B.Track, P.Classify, Relay, Hits;
      out, progressed, failed, spins := [], false, false, false;
      assert delivered + [] == delivered;
      if prefetched {
        out, spins := PrepareHttp2();
        return out, out != [], false, spins;
      }
      if isHttp1 {
        if http1BodyTracker != null {
          out, progressed, failed := ConsumeHttp1Body(delivered);
        } else {
          out, progressed, failed := ProcessH1ReqHeaders(delivered);
        }
        return;
      }
      progressed := Sniff();
    }

    /** Decides on the protocol, once enough of the stream has arrived. */
    method Sniff() returns (progressed: bool)
      requires ValidWith([]) && Sniffing() && pendingBuffer == []
      modifies `reqBuf, `prefetched, `isHttp1, `passthrough
      ensures ValidWith([])
      ensures if progressed then !Sniffing() else unchanged(this) && Settled() && !passthrough
      ensures |reqBuf| <= |old(reqBuf)|
    {
      hide NextUnit, Forward, H.Transform, H.HeadLength, B.Track, P.Classify, Relay;
      progressed := false;
      var decision := P.Classify(reqBuf);
      P.ClassifyMeaning(reqBuf);
      match decision {
        case Undecided =>
          if |reqBuf| >= MAX_PROTOCOL_SNIFF_BYTES {
            assert false;
          }
        case Http2 =>
          prefetched, progressed := true, true;
          reqBuf := reqBuf[P.PREFACE_LEN..];
          assert received == P.PREFACE + Consumed(events) + reqBuf;
        case Http1 =>
          isHttp1, progressed := true, true;
          H.TransformNothing(codec, state);
          assert received[..0] == [] && [] + reqBuf == reqBuf;
        case Passthrough =>
          passthrough, progressed := true, true;
      }
    }

    /** Bytes that arrive keep the invariant: they join the end of the buffer. */
    lemma ReceivedMore(more: bytes)
      requires Valid() && pendingBuffer == [] && !passthrough
      ensures isHttp1 && broken ==> H.Transform(codec, H.State(start.codec, None), received + more).failed
      ensures isHttp1 && !broken ==>
        && received + more == Passed() + (reqBuf + more)
        && (received + more)[..|received + more| - |reqBuf + more|] == Passed()
      ensures isHttp1 || prefetched ==> P.Classify(received + more) == P.Classify(received)
    {
      hide H.Transform, P.Classify, Relay, Replay, Transforming, Forwarding, GaveUp, Passed;
      P.ClassifyMeaning(received);
      if isHttp1 || prefetched {
        P.ClassificationIsFinal(received, more);
      }
      if isHttp1 {
        TransformingMeans(delivered + pendingBuffer);
        TransformingMore(delivered + pendingBuffer, more);
      }
    }

    lemma TransformingMore(sent: bytes, more: bytes)
      requires Transforming(sent)
      ensures broken ==> H.Transform(codec, H.State(start.codec, None), received + more).failed
      ensures !broken ==>
        && received + more == Passed() + (reqBuf + more)
        && (received + more)[..|received + more| - |reqBuf + more|] == Passed()
    {
      hide H.Transform;
      if broken {
        H.TransformSplit(codec, H.State(start.codec, None), received, more);
      }
    }

    /** Reads more of the client's bytes into the buffer. */
    method FillBuffer(readSize: nat) returns (data: bytes, fault: Fault)
      requires Valid() && pendingBuffer == [] && !passthrough && readSize > 0
      modifies this`reqBuf, this`received, conn`script
      ensures Valid() && reqBuf == old(reqBuf) + data && received == old(received) + data
      ensures Stream() == old(Stream())
      ensures data != [] || fault != Eof ==> conn.Size() < old(conn.Size())
      ensures conn.Size() <= old(conn.Size())
      ensures data == [] ==> Settled() == old(Settled())
      ensures Sniffing() == old(Sniffing()) && passthrough == old(passthrough)
      ensures old(conn.Clean()) ==>
        && conn.Clean()
        && (fault == NoFault || (fault == Eof && data == [] && conn.Remaining() == []))
    {
      hide H.Transform, P.Classify, Relay, Replay, NextRead, Joined, TotalSize, IsClean, NextUnit, AreUnits, Consumed,
           CannotForward, Stuck, GaveUp, StoppedAfter;
      data, fault := conn.Read(readSize);
      ReceivedMore(data);
      reqBuf := reqBuf + data;
      assert (received + data) + conn.Remaining() == received + (data + conn.Remaining());
      received := received + data;
      assert delivered + [] == delivered;
      assert data == [] ==> reqBuf == old(reqBuf);
    }

    /** Puts prepared output where the next read takes it from. */
    method SetPending(out: bytes)
      requires ValidWith(out)
      modifies `pendingBuffer
      ensures Valid() && pendingBuffer == out
      ensures out == old(pendingBuffer) ==> Settled() == old(Settled())
    {
      hide H.Transform, P.Classify, Relay, Replay, NextUnit;
      pendingBuffer := out;
    }

    /** What was buffered when the connection became transparent is delivered first. */
    method MoveToPending()
      requires Valid() && passthrough && pendingBuffer == []
      modifies `reqBuf, `pendingBuffer
      ensures Valid() && reqBuf == [] && pendingBuffer == old(reqBuf)
      ensures old(reqBuf) != [] ==> Stage() < old(Stage())
    {
      assert (delivered + []) + reqBuf == (delivered + reqBuf) + [];
      pendingBuffer := reqBuf;
      reqBuf := [];
    }

    /** Reads past the buffers, which are empty. */
    method ReadThrough(size: nat) returns (data: bytes, err: ReadError)
      requires Valid() && passthrough && pendingBuffer == [] && reqBuf == []
      modifies this`received, this`delivered, conn`script
      ensures Valid() && |data| <= size
      ensures received == old(received) + data && delivered == old(delivered) + data
      ensures Stream() == old(Stream())
      ensures err.ConnError? || err == NoError
      ensures err.ConnError? ==> Settled()
      ensures conn.Size() <= old(conn.Size())
      ensures err == NoError && size > 0 ==> conn.Size() < old(conn.Size())
      ensures err.ConnError? && err.fault != Eof ==> conn.Size() < old(conn.Size())
      ensures err.ConnError? ==> err.fault != NoFault
      ensures old(conn.Clean()) ==>
        && conn.Clean()
        && (err.ConnError? ==> err.fault == Eof && data == [] && conn.Remaining() == [])
    {
      hide Replay, NextUnit, Forward, P.Classify, H.Transform, Consumed, AreUnits, CannotForward, Transforming, Forwarding,
           NextRead, Joined, TotalSize, IsClean, Stuck, HangsAt, Relay, StoppedAfter;
      var fault;
      data, fault := conn.Read(size);
      err := if fault == NoFault then NoError else ConnError(fault);
      assert delivered + [] + [] == delivered && (delivered + data) + [] + [] == delivered + data;
      if prefetched {
        StoppedMore(received, delivered, data);
      } else {
        P.ClassificationIsFinal(received, data);
      }
      assert (received + data) + conn.Remaining() == received + (data + conn.Remaining());
      received := received + data;
      delivered := delivered + data;
    }

    /** With the buffers, bounds the turns a read takes between two reads of the connection. */
    ghost function Stage(): nat
      reads this
    {
      if pendingBuffer != [] then 0 else if Sniffing() then 2 else 1
    }

    /** Makes output of what is buffered and puts it where the next read takes it from. */
    method Produce() returns (progressed: bool, failed: bool, spins: bool)
      requires Valid() && pendingBuffer == [] && !passthrough
      modifies this`reqBuf, this`pendingBuffer, this`prefetched, this`http2PrefaceSent, this`isHttp1,
               this`passthrough, this`http1BodyTracker, this`state, this`events, this`broken, http1BodyTracker
      ensures if spins then Spins() && !failed else Valid()
      ensures http1BodyTracker != null ==> http1BodyTracker == old(http1BodyTracker) || fresh(http1BodyTracker)
      ensures failed ==> broken && !progressed
      ensures broken ==> old(broken) || failed
      ensures !progressed && !failed && !spins ==> Settled() && !passthrough && pendingBuffer == []
      ensures spins <==> old(prefetched) && Hits(codec, old(Ctx()), old(reqBuf))
      ensures old(prefetched) && !spins ==>
        !failed && (if progressed then pendingBuffer != []
                    else prefetched && reqBuf == old(reqBuf) && Ctx() == old(Ctx()))
      ensures prefetched ==> old(prefetched) || old(Sniffing())
      ensures Continues(old(events), events) && (old(Followed()) ==> Followed())
      ensures |reqBuf| <= |old(reqBuf)|
      ensures progressed ==> Stage() < old(Stage()) || (Stage() == old(Stage()) && |reqBuf| < |old(reqBuf)|)
      ensures !progressed && !failed && !spins ==> Stage() <= old(Stage())
    {
      hide ValidWith, Valid, Settled, Forwarding, GaveUp, Transforming, Spins, Hits, Announcements, Unparsed, AnnouncedIn,
           Continues, Now, Stuck;
      ghost var before := events;
      var out;
      out, progressed, failed, spins := PrepareBufferedOutput();
      if AnnouncedIn(before) == Announcements(observed) && respBuf == Unparsed(observed) {
        StillFollowed(before);
      }
      if spins {
        return;
      }
      SetPending(out);
    }

    /** One turn with nothing pending: make output of what is buffered, or else read more. */
    method Advance(size: nat) returns (failed: bool, spins: bool, fault: Fault, ghost more: bytes)
      requires Valid() && pendingBuffer == [] && !passthrough
      modifies this`reqBuf, this`pendingBuffer, this`prefetched, this`http2PrefaceSent, this`isHttp1,
               this`passthrough, this`http1BodyTracker, this`state, this`received, this`events, this`broken,
               http1BodyTracker, conn`script
      ensures if spins then Spins() && !failed && fault == NoFault else Valid()
      ensures http1BodyTracker != null ==> http1BodyTracker == old(http1BodyTracker) || fresh(http1BodyTracker)
      ensures Stream() == old(Stream())
      ensures failed ==> broken && fault == NoFault
      ensures broken ==> old(broken) || failed
      ensures fault != NoFault ==> Settled()
      ensures Continues(old(events), events) && (old(Followed()) ==> Followed())
      ensures spins <==> old(prefetched) && Hits(codec, old(Ctx()), old(reqBuf))
      ensures received == old(received) + more
      ensures failed || spins || fault != NoFault || pendingBuffer != [] ==> more == []
      ensures old(prefetched) && !spins && pendingBuffer == [] ==>
        prefetched && !passthrough && Ctx() == old(Ctx()) && reqBuf == old(reqBuf) + more
      ensures prefetched ==> old(prefetched) || old(Sniffing())
      ensures old(conn.Clean()) ==> conn.Clean() && (fault != NoFault ==> fault == Eof && conn.Remaining() == [])
      ensures conn.Size() <= old(conn.Size())
      ensures fault == Timeout || fault == Broken ==> conn.Size() < old(conn.Size())
      ensures !failed && !spins && fault == NoFault && conn.Size() == old(conn.Size()) ==>
        Stage() < old(Stage()) || (Stage() == old(Stage()) && |reqBuf| < |old(reqBuf)|)
    {
      hide *;
      fault, more := NoFault, [];
      assert received + [] == received;
      var progressed;
      progressed, failed, spins := Produce();
      if spins || failed || progressed {
        return;
      }
      var readSize := if size < 1 then 1 else size;
      var data, f := FillBuffer(readSize);
      more := data;
      fault := if f != NoFault && |data| > 0 then NoFault else f;
      assert reqBuf + [] == reqBuf;
    }

    /** A turn of a read would go to the request loop. */
    ghost predicate Listens()
      reads `prefetched, `passthrough, `pendingBuffer
    {
      prefetched && !passthrough && pendingBuffer == []
    }

    /** One turn of a read, which may finish it. */
    method Round(size: nat) returns (done: bool, data: bytes, err: ReadError, ghost added: bytes)
      requires Valid()
      modifies this`reqBuf, this`pendingBuffer, this`prefetched, this`http2PrefaceSent, this`isHttp1,
               this`passthrough, this`http1BodyTracker, this`state, this`received, this`delivered, this`events,
               this`broken, http1BodyTracker, conn`script
      ensures if err == NeverReturns then Spins() && data == [] else Valid()
      ensures http1BodyTracker != null ==> http1BodyTracker == old(http1BodyTracker) || fresh(http1BodyTracker)
      ensures |data| <= size && delivered == old(delivered) + data && received == old(received) + added
      ensures Stream() == old(Stream())
      ensures !done ==> data == [] && err == NoError
      ensures err == RequestError ==> broken && data == []
      ensures broken ==> old(broken) || err == RequestError
      ensures err.ConnError? ==> Settled()
      ensures Continues(old(events), events) && (old(Followed()) ==> Followed())
      ensures err == NeverReturns <==> old(Listens()) && Hits(codec, old(Ctx()), old(reqBuf))
      ensures old(Listens()) ==>
        if done || pendingBuffer != [] then added == []
        else Listens() && Ctx() == old(Ctx()) && reqBuf == old(reqBuf) + added
      ensures old(pendingBuffer) != [] ==> done && added == []
      ensures !done && Listens() ==> old(Listens()) || maxFrameSize > 0
      ensures conn.Size() <= old(conn.Size())
      ensures done && err == NoError && size > 0 ==> data != [] || conn.Size() < old(conn.Size())
      ensures err.ConnError? ==> err.fault != NoFault && (err.fault != Eof ==> conn.Size() < old(conn.Size()))
      ensures !done && conn.Size() == old(conn.Size()) ==>
        Stage() < old(Stage()) || (Stage() == old(Stage()) && |reqBuf| < |old(reqBuf)|)
      ensures old(conn.Clean()) ==>
        && conn.Clean()
        && (err.ConnError? ==> err.fault == Eof && data == [] && conn.Remaining() == [])
    {
      hide *;
      done, data, err, added := true, [], NoError, [];
      NothingYet();
      ListensExactlyWhen();
      if |pendingBuffer| > 0 {
        data := ReadFromPending(size);
        return;
      }
      if passthrough {
        if |reqBuf| > 0 {
          MoveToPending();
          done := false;
          ListensExactlyWhen();
          return;
        }
        data, err := ReadThrough(size);
        added := data;
        return;
      }
      var failed, spins, fault;
      failed, spins, fault, added := Advance(size);
      if spins {
        err := NeverReturns;
      } else if failed {
        err := RequestError;
      } else if fault != NoFault {
        err := ConnError(fault);
      } else {
        done := false;
        ListensExactlyWhen();
      }
    }

    lemma ListensExactlyWhen()
      ensures Listens() <==> prefetched && !passthrough && pendingBuffer == []
    {
    }

    lemma NothingYet()
      requires Valid()
      ensures Sniffing() ==> maxFrameSize > 0
      ensures Continues(events, events) && received + [] == received && delivered + [] == delivered
    {
      hide NextUnit, Forward, Hangs, Replay, Consumed, AreUnits, P.Classify, H.Transform;
    }

    /**
     * A read of the rewritten stream. It never returns an error of the connection while it still owes bytes
     * for what has arrived. It fails to return exactly when, on an HTTP/2 connection with nothing pending, the
     * buffered bytes with those that this read adds hold a unit on which the request loop spins.
     */
    method Read(size: nat) returns (data: bytes, err: ReadError)
      requires Valid()
      modifies this`reqBuf, this`pendingBuffer, this`prefetched, this`http2PrefaceSent, this`isHttp1,
               this`passthrough, this`http1BodyTracker, this`state, this`received, this`delivered, this`events,
               this`broken, http1BodyTracker, conn`script
      ensures if err == NeverReturns then Spins() && data == [] else Valid()
      ensures http1BodyTracker != null ==> http1BodyTracker == old(http1BodyTracker) || fresh(http1BodyTracker)
      ensures |data| <= size && delivered == old(delivered) + data
      ensures Stream() == old(Stream())
      ensures err == RequestError ==> broken && data == []
      ensures broken ==> old(broken) || err == RequestError
      ensures err.ConnError? ==> Settled()
      ensures old(received) <= received
      ensures err == NeverReturns <==>
        old(Listens()) && Hits(codec, old(Ctx()), old(reqBuf) + received[|old(received)|..])
      ensures Continues(old(events), events) && (old(Followed()) ==> Followed())
      ensures conn.Size() <= old(conn.Size())
      ensures err == NoError && size > 0 ==> data != [] || conn.Size() < old(conn.Size())
      ensures err.ConnError? ==> err.fault != NoFault && (err.fault != Eof ==> conn.Size() < old(conn.Size()))
      ensures old(conn.Clean()) ==>
        && conn.Clean()
        && (err.ConnError? ==> err.fault == Eof && data == [] && conn.Remaining() == [])
    {
      hide *;
      ghost var added: bytes := [];
      NothingYet();
      assert reqBuf + [] == reqBuf;
      while true
        invariant Valid()
        invariant http1BodyTracker != null ==> http1BodyTracker == old(http1BodyTracker) || fresh(http1BodyTracker)
        invariant delivered == old(delivered) && received == old(received) + added
        invariant Stream() == old(Stream())
        invariant broken ==> old(broken)
        invariant Continues(old(events), events) && (old(Followed()) ==> Followed())
        invariant Listens() ==> old(Listens()) || maxFrameSize > 0
        invariant old(Listens()) ==>
          if Listens() then Ctx() == old(Ctx()) && reqBuf == old(reqBuf) + added
          else pendingBuffer != [] && !Hits(codec, old(Ctx()), old(reqBuf) + added)
        invariant conn.Size() <= old(conn.Size())
        invariant old(conn.Clean()) ==> conn.Clean()
        decreases conn.Size(), Stage(), |reqBuf|
      {
        ghost var before, more := events, [];
        var done;
        done, data, err, more := Round(size);
        ContinuesAgain(old(events), before, events);
        MoreAdded(old(received), old(reqBuf), added, more);
        added := added + more;
        ListensExactlyWhen();
        if done {
          if err == NeverReturns {
            SpinsAtZero();
          }
          return;
        }
      }
    }

    // -------------------------------------------------------------- the server's side

    /** One entry of a SETTINGS frame takes effect. */
    method ApplyHttp2Setting(id: nat, value: nat, ghost emitted: bytes)
      requires Forwarding(emitted)
      modifies `state, `maxFrameSize, `events
      ensures Forwarding(emitted)
      ensures events == old(events) + [Announced((id, value))]
      ensures state == if id == 1 then codec.resizeTable(old(state), value) else old(state)
      ensures maxFrameSize == if id == 5 then value else old(maxFrameSize)
      ensures Consumed(events) == old(Consumed(events))
    {
      hide NextUnit, Forward, Replay, Consumed, AreUnits;
      ReplayAppend(codec, start, events, Announced((id, value)));
      events := events + [Announced((id, value))];
      match id {
        case 1 => state := codec.resizeTable(state, value);
        case 5 => maxFrameSize := value;
        case _ =>
      }
    }

    method ParseSettingsFrame(payload: bytes, ghost emitted: bytes)
      requires Forwarding(emitted)
      modifies `state, `maxFrameSize, `events
      ensures Forwarding(emitted)
      ensures events == old(events) + (if |payload| % 6 == 0 then AsEvents(Entries(payload)) else [])
      ensures Consumed(events) == old(Consumed(events))
    {
      hide Replay, Consumed, AreUnits, Forwarding, Entries, AsEvents, U16, U32;
      FewEvents((0, 0));
      if |payload| % 6 != 0 {
        return;
      }
      var i := 0;
      ghost var done: seq<(nat, nat)> := [];
      assert payload[0..] == payload;
      while i < |payload|
        invariant 0 <= i <= |payload| && i % 6 == 0
        invariant Entries(payload) == done + Entries(payload[i..])
        invariant events == old(events) + AsEvents(done)
        invariant Forwarding(emitted) && Consumed(events) == old(Consumed(events))
      {
        var entry := payload[i..];
        var id, value := U16(entry), U32(entry[2..]);
        ghost var later := Entries(entry[6..]);
        EntriesStep(entry);
        FewEvents((id, value));
        AppendEvents(done, [(id, value)]);
        assert done + ([(id, value)] + later) == (done + [(id, value)]) + later;
        assert entry[6..] == payload[i + 6..];
        ApplyHttp2Setting(id, value, emitted);
        done := done + [(id, value)];
        i := i + 6;
      }
      EntriesStep(payload[i..]);
      assert done + [] == done;
    }

    /** Takes one complete frame of the server off the response buffer. */
    method TakeResponseFrame(total: nat, ghost emitted: bytes)
      requires Forwarding(emitted) && TotalLen(respBuf) == Some(total)
      modifies `respBuf, `state, `maxFrameSize, `events
      ensures Forwarding(emitted)
      ensures respBuf == old(respBuf)[total..]
      ensures events == old(events) + AsEvents(SettingsIn(old(respBuf)[..total]))
      ensures Consumed(events) == old(Consumed(events))
    {
      hide Replay, Consumed, AreUnits, TotalLen, Entries;
      var frame := respBuf[..total];
      if frame[3] == SETTINGS {
        if frame[4] % 2 == 0 {
          ParseSettingsFrame(frame[FRAME_HEADER_LEN..], emitted);
        }
      }
      respBuf := respBuf[total..];
    }

    /** Follows the server's frames for the settings they announce. */
    method ObserveHttp2ResponseFrames(payload: bytes, ghost emitted: bytes)
      requires Forwarding(emitted)
      modifies `respBuf, `state, `maxFrameSize, `events
      ensures Forwarding(emitted)
      ensures events == old(events) + AsEvents(Announcements(old(respBuf) + payload))
      ensures respBuf == Unparsed(old(respBuf) + payload)
      ensures Consumed(events) == old(Consumed(events))
    {
      hide Replay, Consumed, AreUnits, TotalLen, SettingsIn, Announcements, Unparsed, AsEvents;
      respBuf := respBuf + payload;
      ghost var all := Announcements(respBuf);
      ghost var left := Unparsed(respBuf);
      ghost var done: seq<(nat, nat)> := [];
      FewEvents((0, 0));
      while true
        invariant all == done + Announcements(respBuf) && left == Unparsed(respBuf)
        invariant events == old(events) + AsEvents(done)
        invariant Forwarding(emitted) && Consumed(events) == old(Consumed(events))
        decreases |respBuf|
      {
        AnnouncementsStep(respBuf);
        var total := TotalLen(respBuf);
        if total.None? {
          assert done + [] == done;
          return;
        }
        ghost var announced := SettingsIn(respBuf[..total.value]);
        ghost var later := Announcements(respBuf[total.value..]);
        AppendEvents(done, announced);
        assert done + (announced + later) == (done + announced) + later;
        TakeResponseFrame(total.value, emitted);
        done := done + announced;
      }
    }

    /** The server's bytes go to the client as they are; what they announce is taken note of. */
    method Write(p: bytes) returns (n: nat, fault: Fault)
      requires Valid()
      modifies `respBuf, `state, `maxFrameSize, `events, `observed, conn`sent
      ensures Valid()
      ensures n <= |p| && conn.sent == old(conn.sent) + p[..n]
      ensures fault == NoFault ==> n == |p|
      ensures observed == old(observed) + (if prefetched && !passthrough then p else [])
      ensures old(Followed()) ==> Followed()
      ensures |p| > 0 && prefetched && !passthrough ==>
        && events == old(events) + AsEvents(Announcements(old(respBuf) + p))
        && respBuf == Unparsed(old(respBuf) + p)
      ensures !(|p| > 0 && prefetched && !passthrough) ==> events == old(events) && respBuf == old(respBuf)
    {
      hide Replay, Consumed, AreUnits, Forwarding, Announcements, Unparsed, AnnouncedIn, H.Transform, P.Classify;
      assert observed + [] == observed;
      if |p| > 0 && prefetched && !passthrough {
        ghost var sent := delivered + pendingBuffer;
        ghost var announced := Announcements(respBuf + p);
        AnnouncementsSplit(observed, p);
        AnnouncementsAdded(events, AsEvents(announced), announced);
        ObserveHttp2ResponseFrames(p, if http2PrefaceSent then sent[P.PREFACE_LEN..] else []);
        observed := observed + p;
      }
      n, fault := conn.Write(p);
    }
  }

  // ---------------------------------------------------------------- whole runs

  /** A malformed HTTP/1 stream stays malformed. */
  lemma MalformedExtended<S>(c: Codec<S>, ctx: Context<S>, received: bytes, more: bytes)
    requires Malformed(c, ctx, received)
    ensures Malformed(c, ctx, received + more)
  {
    hide H.Transform, P.Classify;
    P.ClassificationIsFinal(received, more);
    H.TransformSplit(c, H.State(ctx.codec, None), received, more);
  }

  /** What is owed for a prefix of a stream is a prefix of what is owed for the stream. */
  lemma TransduceExtended<S>(c: Codec<S>, ctx: Context<S>, received: bytes, more: bytes)
    requires !Malformed(c, ctx, received + more)
    ensures Transduce(c, ctx, received) <= Transduce(c, ctx, received + more)
  {
    hide H.Transform, P.Classify, Relay;
    P.ClassifyMeaning(received);
    if P.Classify(received) != P.Undecided {
      P.ClassificationIsFinal(received, more);
      P.ClassifyMeaning(received + more);
    }
    if P.Classify(received) == P.Http2 {
      assert (received + more)[P.PREFACE_LEN..] == received[P.PREFACE_LEN..] + more;
      RelayExtended(c, ctx, received[P.PREFACE_LEN..], more);
    } else if P.Classify(received) == P.Http1 {
      H.TransformSplit(c, H.State(ctx.codec, None), received, more);
    }
  }

  /** For pipelined requests, what is owed is every head rewritten and every body as it was, in order. */
  lemma PipelineIsOwed<S>(c: Codec<S>, ctx: Context<S>, requests: seq<H.Request>)
    requires H.AllWellFormed(c, ctx.codec, requests)
    requires P.Classify(H.Wire(requests)) == P.Http1
    ensures !Malformed(c, ctx, H.Wire(requests))
    ensures Transduce(c, ctx, H.Wire(requests)) == H.Rewritten(c, ctx.codec, requests)
  {
    hide H.Transform, P.Classify, H.Wire, H.Rewritten, H.AllWellFormed;
    H.PipelineIsRewritten(c, ctx.codec, requests);
  }

  /** `total` is a prefix of what is owed for the first `n` bytes of `received`, none of them malformed. */
  ghost predicate IsOwedFor<S>(w: WatcherConn<S>, n: nat, received: bytes, total: bytes) {
    n <= |received| && !Malformed(w.codec, w.start, received[..n]) && total <= Transduce(w.codec, w.start, received[..n])
  }

  /** One read of the run: what has been delivered stays owed, for a part of what has arrived. */
  method ReadOnce<S>(w: WatcherConn<S>, size: nat, ghost before: nat)
    returns (data: bytes, err: ReadError, ghost part: nat)
    requires w.Valid() && w.Followed() && !w.broken
    requires w.NoAnnouncements() ==> IsOwedFor(w, before, w.received, w.delivered)
    modifies w`reqBuf, w`pendingBuffer, w`prefetched, w`http2PrefaceSent, w`isHttp1, w`passthrough,
             w`http1BodyTracker, w`state, w`received, w`delivered, w`events, w`broken,
             w.http1BodyTracker, w.conn`script
    ensures if err == NeverReturns then Announced((SETTINGS_MAX_FRAME_SIZE, 0)) in w.events
            else w.Valid() && w.Followed()
    ensures err == NeverReturns ==> !w.NoAnnouncements()
    ensures w.http1BodyTracker != null ==>
      w.http1BodyTracker == old(w.http1BodyTracker) || fresh(w.http1BodyTracker)
    ensures w.delivered == old(w.delivered) + data && w.Stream() == old(w.Stream())
    ensures err == RequestError ==> Malformed(w.codec, w.start, w.Stream()) && data == []
    ensures err != RequestError ==> !w.broken
    ensures w.NoAnnouncements() ==> IsOwedFor(w, part, w.received, w.delivered)
    ensures w.NoAnnouncements() && err.ConnError? && !Malformed(w.codec, w.start, w.received) ==>
      w.delivered == Transduce(w.codec, w.start, w.received)
    ensures err == NoError && size > 0 ==> |data| + old(w.conn.Size()) > w.conn.Size()
    ensures w.conn.Size() <= old(w.conn.Size())
    ensures err.ConnError? ==> err.fault != NoFault && (err.fault != Eof ==> w.conn.Size() < old(w.conn.Size()))
    ensures old(w.conn.Clean()) ==>
      w.conn.Clean() && (err.ConnError? ==> err.fault == Eof && w.conn.Remaining() == [])
  {
    hide *;
    ghost var earlier, arrived, soFar := w.events, w.received, w.delivered;
    StartIsPositive(w);
    EarlierQuiet(w, earlier);
    data, err := w.Read(size);
    part := before;
    ContinuesIsLonger(earlier, w.events);
    EarlierQuiet(w, earlier);
    if err == NeverReturns {
      w.SpinsOnlyWhenAnnounced();
      EarlierQuiet(w, earlier);
    } else if err == RequestError {
      w.BrokenMeansMalformed();
      MalformedExtended(w.codec, w.start, w.received, w.conn.Remaining());
      DeliveredPart(w);
      assert w.delivered == soFar;
      OwedStill(w, part, arrived, soFar);
    } else if w.NoAnnouncements() {
      part := OwedSoFar(w);
      if err.ConnError? {
        w.SettledMeansDelivered();
      }
    }
  }

  /** What is done with a connection: the reader reads, or the server's bytes are written. */
  datatype Use = Reading(size: nat) | Writing(p: bytes)

  /** The reads among the uses. */
  function Reads(uses: seq<Use>): nat {
    if uses == [] then 0
    else Reads(uses[..|uses| - 1]) + (if uses[|uses| - 1].Reading? then 1 else 0)
  }

  lemma ReadsSnoc(uses: seq<Use>, i: nat)
    requires i < |uses|
    ensures Reads(uses[..i + 1]) == Reads(uses[..i]) + (if uses[i].Reading? then 1 else 0)
  {
    assert uses[..i + 1][..i] == uses[..i];
  }

  /** Every read asks for something. */
  predicate AllPositive(uses: seq<Use>) {
    forall i :: 0 <= i < |uses| && uses[i].Reading? ==> uses[i].size > 0
  }

  /**
   * Segmentation independence of the whole connection: however the operating system cuts the client's stream,
   * whatever buffer sizes the reader asks with, however often it goes on reading after a passing fault, and
   * whatever the server writes in between short of announcements, the bytes read are a prefix of one function
   * of the stream; when the connection reports a fault or its end they are all that is owed for what has
   * arrived, on a connection without faults for the whole stream. Of a stream that is malformed somewhere they
   * are owed for a part before that, and no other stream gives a request error. With non-empty buffers the end
   * is reached: a read gives data or uses up some of the connection's. In any case the connection stays in a
   * state of which Http2Conserved holds, unless a maximum frame size of zero was announced.
   */
  method ReadWith<S>(w: WatcherConn<S>, uses: seq<Use>) returns (total: bytes, err: ReadError)
    requires w.Valid() && w.Followed() && !w.broken
    requires w.received == [] && w.delivered == [] && w.events == []
    modifies w, w.http1BodyTracker, w.conn
    ensures var stream := old(w.conn.Remaining());
      && w.received <= stream && (old(w.conn.Clean()) && err.ConnError? ==> w.received == stream)
      && (err == RequestError ==> Malformed(w.codec, w.start, stream))
      && (w.NoAnnouncements() && !Malformed(w.codec, w.start, stream) ==> total <= Transduce(w.codec, w.start, stream))
    ensures w.NoAnnouncements() ==> exists n :: IsOwedFor(w, n, w.received, total)
    ensures w.NoAnnouncements() && err.ConnError? && !Malformed(w.codec, w.start, w.received) ==>
      total == Transduce(w.codec, w.start, w.received)
    ensures AllPositive(uses) && err != RequestError && err != NeverReturns && (err.ConnError? ==> err.fault != Eof) ==>
      Reads(uses) <= |total| + old(w.conn.Size())
    ensures total == w.delivered
    ensures if err == NeverReturns then Announced((SETTINGS_MAX_FRAME_SIZE, 0)) in w.events
            else w.Valid() && w.Followed()
  {
    hide H.Transform, P.Classify, Relay, Replay, Transduce, Malformed, Joined, TotalSize, IsClean, Reads, IsOwedFor;
    hide WatcherConn.ValidWith, WatcherConn.Valid, WatcherConn.Settled, WatcherConn.Spins, WatcherConn.Followed,
         AllTaken, Hits, Announcements, Continues, WatcherConn.Ctx, WatcherConn.Listens, AsEvents, Unparsed;
    total, err := [], NoError;
    ghost var stream := w.conn.Remaining();
    StreamStarts(w, uses);
    ghost var m := OwedSoFar(w);
    var i := 0;
    while i < |uses| && err != ConnError(Eof)
      invariant w.Valid() && w.Followed() && !w.broken
      invariant old(w.conn.Clean()) ==> w.conn.Clean() && (err.ConnError? ==> w.conn.Remaining() == [])
      invariant w.http1BodyTracker != null ==> w.http1BodyTracker == old(w.http1BodyTracker) || fresh(w.http1BodyTracker)
      invariant total == w.delivered && err != RequestError && err != NeverReturns
      invariant w.NoAnnouncements() && err.ConnError? && !Malformed(w.codec, w.start, w.received) ==>
        total == Transduce(w.codec, w.start, w.received)
      invariant w.NoAnnouncements() ==> IsOwedFor(w, m, w.received, total)
      invariant stream == w.Stream()
      invariant 0 <= i <= |uses|
      invariant err != ConnError(Eof) && AllPositive(uses) ==>
        Reads(uses[..i]) + w.conn.Size() <= |total| + old(w.conn.Size())
      decreases |uses| - i
    {
      ReadsSnoc(uses, i);
      ghost var before := w.events;
      match uses[i] {
        case Writing(p) =>
          var n, fault := w.Write(p);
          EarlierQuiet(w, before);
        case Reading(size) =>
          var data: bytes;
          data, err, m := ReadOnce(w, size, m);
          total := total + data;
          if err == NeverReturns || err == RequestError {
            DeliveredPart(w);
            return;
          }
      }
      i := i + 1;
    }
    assert uses[..|uses|] == uses;
    DeliveredPart(w);
    if w.NoAnnouncements() {
      DeliveredSoFar(w);
    }
  }

  lemma StreamStarts<S>(w: WatcherConn<S>, uses: seq<Use>)
    requires w.Valid() && w.received == [] && w.events == []
    ensures w.Stream() == w.conn.Remaining() && w.start.maxFrame > 0 && w.NoAnnouncements() && Reads(uses[..0]) == 0
  {
    hide H.Transform, P.Classify, Relay, Replay;
  }

  lemma StartIsPositive<S>(w: WatcherConn<S>)
    requires w.Valid()
    ensures w.start.maxFrame > 0
  {
    hide H.Transform, P.Classify, Relay, Replay;
  }

  lemma ContinuesIsLonger(earlier: seq<Event>, later: seq<Event>)
    requires Continues(earlier, later)
    ensures earlier <= later
  {
  }

  /** What was quiet is what was quiet before. */
  lemma EarlierQuiet<S>(w: WatcherConn<S>, earlier: seq<Event>)
    requires earlier <= w.events
    ensures w.NoAnnouncements() ==> AllTaken(earlier)
    ensures earlier == w.events && AllTaken(earlier) ==> w.NoAnnouncements()
    ensures Announced((SETTINGS_MAX_FRAME_SIZE, 0)) in w.events ==> !w.NoAnnouncements()
  {
  }

  lemma OwedSoFar<S>(w: WatcherConn<S>) returns (n: nat)
    requires w.Valid() && w.NoAnnouncements() && !w.broken
    ensures IsOwedFor(w, n, w.received, w.delivered)
  {
    hide H.Transform, P.Classify, Relay, Replay, Transduce, Malformed, WatcherConn.ValidWith, WatcherConn.Valid;
    n := w.DeliveredIsOwed();
    assert w.delivered <= w.delivered + w.pendingBuffer;
  }

  lemma OwedStill<S>(w: WatcherConn<S>, n: nat, arrived: bytes, total: bytes)
    requires arrived <= w.received
    ensures IsOwedFor(w, n, arrived, total) ==> IsOwedFor(w, n, w.received, total)
  {
    hide Transduce, Malformed;
    if n <= |arrived| {
      assert w.received[..n] == arrived[..n];
    }
  }

  lemma DeliveredPart<S>(w: WatcherConn<S>)
    ensures w.received <= w.Stream()
    ensures w.Stream() == w.received + w.conn.Remaining()
    ensures w.conn.Remaining() == [] ==> w.received == w.Stream()
  {
    assert w.received + [] == w.received;
  }

  /** The prefix property for the whole stream. */
  lemma DeliveredSoFar<S>(w: WatcherConn<S>)
    requires w.Valid() && w.NoAnnouncements() && !w.broken
    ensures !Malformed(w.codec, w.start, w.Stream()) ==> w.delivered <= Transduce(w.codec, w.start, w.Stream())
  {
    hide H.Transform, P.Classify, Relay, Replay, Transduce, Malformed;
    hide WatcherConn.ValidWith, WatcherConn.Valid;
    w.DeliveredIsPrefix();
    if Malformed(w.codec, w.start, w.received) {
      MalformedExtended(w.codec, w.start, w.received, w.conn.Remaining());
    } else if !Malformed(w.codec, w.start, w.Stream()) {
      TransduceExtended(w.codec, w.start, w.received, w.conn.Remaining());
      assert w.delivered <= w.delivered + w.pendingBuffer;
    }
  }
}
