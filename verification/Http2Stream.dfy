/**
 * What the rewriter makes of a client's HTTP/2 frames (processor/watcher/http2_wrapper.go): every frame but
 * a header sequence is forwarded as it is, a header sequence is decoded, re-encoded and fragmented again.
 */
module Http2Stream {
  import opened Wrappers
  import opened Bytes
  import opened Http2Frames
  import opened Codec

  /** What rewriting depends on: the HPACK tables and the server's limit on frames. */
  datatype Context<+S> = Context(codec: S, maxFrame: nat)

  datatype Progress<+S> = Progress(out: bytes, ctx: Context<S>)

  /** Takes a complete header sequence to the bytes that replace it; nothing when some stage does not succeed. */
  function Rewrite<S>(c: Codec<S>, ctx: Context<S>, raw: bytes): Option<Progress<S>>
    requires |raw| >= FRAME_HEADER_LEN
  {
    match c.headers(ctx.codec, raw)
    case BlockInvalid => None
    case Block(block, priority, next) =>
      var w := Fragments(block, ctx.maxFrame, StreamOf(raw), HasEndStream(raw[4]), priority);
      if w.Bytes? then Some(Progress(w.out, ctx.(codec := next))) else None
  }

  /** The rewrite does not even fail: the fragmentation loop spins under a limit of zero. */
  predicate Hangs<S>(c: Codec<S>, ctx: Context<S>, raw: bytes)
    requires |raw| >= FRAME_HEADER_LEN
  {
    && raw[3] == HEADERS
    && var h := c.headers(ctx.codec, raw);
       h.Block? && Fragments(h.block, ctx.maxFrame, StreamOf(raw), HasEndStream(raw[4]), h.priority) == Spinning
  }

  /** It hangs exactly on a block that is not empty under a limit of zero, and then it yields nothing. */
  lemma HangsExactlyWhen<S>(c: Codec<S>, ctx: Context<S>, raw: bytes)
    requires |raw| >= FRAME_HEADER_LEN
    ensures Hangs(c, ctx, raw) <==>
      && raw[3] == HEADERS && StreamOf(raw) != 0 && ctx.maxFrame == 0
      && var h := c.headers(ctx.codec, raw);
         h.Block? && h.block != []
    ensures Hangs(c, ctx, raw) ==> Forward(c, ctx, raw).None?
  {
    hide StreamOf, HeaderFrames, EncodeAll, AllEncodable;
  }

  /** One turn of the request loop on a complete unit. */
  function Forward<S>(c: Codec<S>, ctx: Context<S>, raw: bytes): Option<Progress<S>>
    requires |raw| >= FRAME_HEADER_LEN
  {
    if raw[3] == HEADERS then Rewrite(c, ctx, raw) else Some(Progress(raw, ctx))
  }

  /** Among the units of the buffer, behind some that are forwarded, stands one on which the rewriter hangs. */
  predicate Hits<S>(c: Codec<S>, ctx: Context<S>, buf: bytes)
    decreases |buf|
  {
    var e := NextUnit(buf);
    e.Ready? &&
    (Hangs(c, ctx, buf[..e.len])
     || (var p := Forward(c, ctx, buf[..e.len]);
         p.Some? && Hits(c, p.value.ctx, buf[e.len..])))
  }

  lemma OnlyHeadersHang<S>(c: Codec<S>, ctx: Context<S>, raw: bytes)
    requires |raw| >= FRAME_HEADER_LEN
    ensures Hangs(c, ctx, raw) ==> raw[3] == HEADERS
  {
  }

  lemma HitsStep<S>(c: Codec<S>, ctx: Context<S>, buf: bytes)
    ensures !NextUnit(buf).Ready? ==> !Hits(c, ctx, buf)
    ensures NextUnit(buf).Ready? ==>
      var n := NextUnit(buf).len;
      var p := Forward(c, ctx, buf[..n]);
      && (Hangs(c, ctx, buf[..n]) ==> Hits(c, ctx, buf))
      && (!Hangs(c, ctx, buf[..n]) && p.None? ==> !Hits(c, ctx, buf))
      && (!Hangs(c, ctx, buf[..n]) && p.Some? ==> Hits(c, ctx, buf) == Hits(c, p.value.ctx, buf[n..]))
  {
    hide NextUnit, Hangs, Forward;
  }

  /**
   * Everything the rewriter sends for a client's frames when the server's settings do not change: units are
   * forwarded one by one, and from the first unit that cannot be, everything is passed through verbatim. A unit
   * on which it hangs is the last it looks at.
   */
  function Relay<S>(c: Codec<S>, ctx: Context<S>, buf: bytes): bytes
    decreases |buf|
  {
    match NextUnit(buf)
    case Need => []
    case WrongType(_) => buf
    case WrongStream(_) => buf
    case Ready(n) =>
      match Forward(c, ctx, buf[..n])
      case None => if Hangs(c, ctx, buf[..n]) then [] else buf
      case Some(p) => p.out + Relay(c, p.ctx, buf[n..])
  }

  // ---------------------------------------------------------------- histories

  const SETTINGS_HEADER_TABLE_SIZE := 1
  const SETTINGS_MAX_FRAME_SIZE := 5

  /** A server's announcement: identifier and value. */
  type Setting = (nat, nat)

  /** What happens to a connection: a unit is taken from the client, or the server announces a setting. */
  datatype Event = Taken(raw: bytes) | Announced(setting: Setting)

  function Apply<S>(c: Codec<S>, ctx: Context<S>, setting: Setting): Context<S> {
    if setting.0 == SETTINGS_HEADER_TABLE_SIZE then ctx.(codec := c.resizeTable(ctx.codec, setting.1))
    else if setting.0 == SETTINGS_MAX_FRAME_SIZE then ctx.(maxFrame := setting.1)
    else ctx
  }

  /** The server's limit after a history: what it announced last, and to begin with the first limit. */
  function LimitAfter(first: nat, events: seq<Event>): nat {
    if events == [] then first
    else
      var n := |events| - 1;
      if SetsLimit(events[n]) then events[n].setting.1 else LimitAfter(first, events[..n])
  }

  /** SETTINGS_MAX_FRAME_SIZE is 0x5 (section 6.5.2 of RFC 9113). */
  predicate SetsLimit(e: Event) {
    e.Announced? && e.setting.0 == 5
  }

  /**
   * The codec's state after a history: header sequences go through it in order, and a table size, 0x1 in section
   * 6.5.2 of RFC 9113, resizes it where it was announced.
   */
  function TablesAfter<S>(c: Codec<S>, s: S, events: seq<Event>): S {
    if events == [] then s
    else
      var n := |events| - 1;
      var t := TablesAfter(c, s, events[..n]);
      match events[n]
      case Announced(setting) => if setting.0 == 1 then c.resizeTable(t, setting.1) else t
      case Taken(raw) =>
        if |raw| < FRAME_HEADER_LEN || raw[3] != HEADERS then t
        else
          match c.headers(t, raw)
          case BlockInvalid => t
          case Block(_, _, next) => next
  }

  predicate IsUnit(raw: bytes) {
    NextUnit(raw) == Ready(|raw|)
  }

  predicate AreUnits(events: seq<Event>) {
    forall e :: e in events && e.Taken? ==> IsUnit(e.raw)
  }

  /** The bytes a history took from the client. */
  function Consumed(events: seq<Event>): bytes {
    if events == [] then []
    else
      var n := |events| - 1;
      Consumed(events[..n]) + (if events[n].Taken? then events[n].raw else [])
  }

  /** What a history sent to the server, and the context it left; nothing when a unit could not be forwarded. */
  function Replay<S>(c: Codec<S>, ctx: Context<S>, events: seq<Event>): Option<Progress<S>>
    requires AreUnits(events)
  {
    if events == [] then Some(Progress([], ctx))
    else
      var n := |events| - 1;
      var p := Replay(c, ctx, events[..n]);
      if p.None? then None
      else
        match events[n]
        case Announced(setting) => Some(p.value.(ctx := Apply(c, p.value.ctx, setting)))
        case Taken(raw) =>
          assert events[n] in events;
          var q := Forward(c, p.value.ctx, raw);
          if q.None? then None else Some(Progress(p.value.out + q.value.out, q.value.ctx))
  }

  lemma ReplayAppend<S>(c: Codec<S>, ctx: Context<S>, events: seq<Event>, e: Event)
    requires AreUnits(events) && (e.Taken? ==> IsUnit(e.raw))
    ensures AreUnits(events + [e])
    ensures Consumed(events + [e]) == Consumed(events) + (if e.Taken? then e.raw else [])
    ensures Replay(c, ctx, events).Some? ==>
      var p := Replay(c, ctx, events).value;
      Replay(c, ctx, events + [e]) ==
        (match e
         case Announced(setting) => Some(p.(ctx := Apply(c, p.ctx, setting)))
         case Taken(raw) =>
           var q := Forward(c, p.ctx, raw);
           if q.None? then None else Some(Progress(p.out + q.value.out, q.value.ctx)))
  {
    assert (events + [e])[..|events|] == events;
  }

  /** The rewrite of a header sequence is again one header sequence, on the same stream, ending it or not alike. */
  lemma RewriteIsHeaderSequence<S>(c: Codec<S>, ctx: Context<S>, raw: bytes, tail: bytes)
    requires |raw| >= FRAME_HEADER_LEN && Rewrite(c, ctx, raw).Some?
    ensures var out := Rewrite(c, ctx, raw).value.out;
      && |out| >= FRAME_HEADER_LEN
      && NextUnit(out + tail) == Ready(|out|)
      && out[3] == HEADERS
      && StreamOf(out) == StreamOf(raw)
      && HasEndStream(out[4]) == HasEndStream(raw[4])
  {
    hide NextUnit, StreamOf, Encode;
    var h := c.headers(ctx.codec, raw);
    var frames := HeaderFrames(h.block, ctx.maxFrame, StreamOf(raw), HasEndStream(raw[4]), h.priority);
    var out := EncodeAll(frames);
    assert out == Rewrite(c, ctx, raw).value.out;
    FragmentsReassemble(h.block, ctx.maxFrame, StreamOf(raw), HasEndStream(raw[4]), h.priority, tail);
    FragmentsReassemble(h.block, ctx.maxFrame, StreamOf(raw), HasEndStream(raw[4]), h.priority, []);
    assert out + [] == out;
    var rest := EncodeAll(frames[1..]);
    EncodedFrameReadsBack(frames[0], rest);
  }

  /**
   * The bytes are what has to be sent for a header sequence: in frames as a reader finds them, the block that the
   * codec makes of it, with its priority, on its stream, as much in each frame as the limit allows.
   */
  ghost predicate IsRewriteOf<S>(c: Codec<S>, tables: S, max: nat, raw: bytes, out: bytes)
    requires |raw| >= FRAME_HEADER_LEN
  {
    var h := c.headers(tables, raw);
    h.Block? && IsHeaderSequence(FramesIn(out), h.block, max, StreamOf(raw), HasEndStream(raw[4]), h.priority)
  }

  /** A rewrite carries the re-encoded block, all of it, and hands on the tables. */
  lemma RewriteCarriesBlock<S>(c: Codec<S>, ctx: Context<S>, raw: bytes)
    requires |raw| >= FRAME_HEADER_LEN && Rewrite(c, ctx, raw).Some?
    ensures var p := Rewrite(c, ctx, raw).value;
      && IsRewriteOf(c, ctx.codec, ctx.maxFrame, raw, p.out)
      && p.ctx == Context(c.headers(ctx.codec, raw).next, ctx.maxFrame)
  {
    hide StreamOf, Fragments, IsHeaderSequence, FramesIn;
    var h := c.headers(ctx.codec, raw);
    WrittenCarriesBlock(h.block, ctx.maxFrame, StreamOf(raw), HasEndStream(raw[4]), h.priority, []);
  }

  /** Which units are forwarded: all but header sequences that cannot be decoded, or written under the limit. */
  lemma ForwardsExactlyWhen<S>(c: Codec<S>, ctx: Context<S>, raw: bytes)
    requires |raw| >= FRAME_HEADER_LEN
    ensures Forward(c, ctx, raw).Some? <==>
      raw[3] != HEADERS ||
      (var h := c.headers(ctx.codec, raw);
       && h.Block? && StreamOf(raw) != 0 && (ctx.maxFrame > 0 || h.block == [])
       && |h.priority| + Min(|h.block|, ctx.maxFrame) < 0x100_0000)
    ensures raw[3] != HEADERS ==> Forward(c, ctx, raw) == Some(Progress(raw, ctx))
  {
    hide StreamOf, Fragments;
    var h := c.headers(ctx.codec, raw);
    if h.Block? {
      WrittenExactlyWhen(h.block, ctx.maxFrame, StreamOf(raw), HasEndStream(raw[4]), h.priority);
    }
  }

  /** After any history the limit and the tables in force are those that the history leaves. */
  lemma {:induction false} ContextAfter<S>(c: Codec<S>, ctx: Context<S>, events: seq<Event>)
    requires AreUnits(events) && Replay(c, ctx, events).Some?
    ensures Replay(c, ctx, events).value.ctx == Context(TablesAfter(c, ctx.codec, events), LimitAfter(ctx.maxFrame, events))
    decreases |events|
  {
    hide NextUnit, Rewrite;
    if events != [] {
      var n := |events| - 1;
      AllButLast(events);
      ContextAfter(c, ctx, events[..n]);
      var e := events[n];
      if e.Taken? && e.raw[3] == HEADERS {
        RewriteCarriesBlock(c, Replay(c, ctx, events[..n]).value.ctx, e.raw);
      }
    }
  }

  /** The limit in force is the last one announced, or the first one while none has been. */
  lemma {:induction false} LimitIsLastAnnounced(first: nat, events: seq<Event>)
    ensures
      || (LimitAfter(first, events) == first && forall e :: e in events ==> !SetsLimit(e))
      || exists i :: 0 <= i < |events| && events[i] == Announced((5, LimitAfter(first, events)))
                     && forall j :: i < j < |events| ==> !SetsLimit(events[j])
    decreases |events|
  {
    if events != [] {
      var n := |events| - 1;
      var before := events[..n];
      LimitIsLastAnnounced(first, before);
      if SetsLimit(events[n]) {
        assert events[n] == Announced((5, LimitAfter(first, events)));
      } else if i :| 0 <= i < n && before[i] == Announced((5, LimitAfter(first, before)))
                     && forall j :: i < j < n ==> !SetsLimit(before[j]) {
        assert events[i] == before[i];
        assert forall j :: i < j < n ==> events[j] == before[j];
      } else {
        assert forall e :: e in events ==> e in before || e == events[n];
      }
    }
  }

  /** The pieces of a history's output, one for each event. */
  function Concat(pieces: seq<bytes>): bytes {
    if pieces == [] then [] else Concat(pieces[..|pieces| - 1]) + pieces[|pieces| - 1]
  }

  /** What a piece of output looks like beside the event it stands for. */
  ghost predicate IsImageOf(piece: bytes, e: Event) {
    match e
    case Announced(_) => piece == []
    case Taken(raw) =>
      && IsUnit(raw) && IsUnit(piece) && FRAME_HEADER_LEN <= |piece| && FRAME_HEADER_LEN <= |raw|
      && piece[3] == raw[3] && StreamOf(piece) == StreamOf(raw)
      && (raw[3] != HEADERS ==> piece == raw)
      && (raw[3] == HEADERS ==> HasEndStream(piece[4]) == HasEndStream(raw[4]))
  }

  /** The piece is the unit as it was, or its rewrite under the tables and the limit that the history before left. */
  ghost predicate IsForwarded<S>(c: Codec<S>, ctx: Context<S>, before: seq<Event>, e: Event, piece: bytes) {
    e.Taken? ==>
      && FRAME_HEADER_LEN <= |e.raw|
      && if e.raw[3] != HEADERS then piece == e.raw
         else IsRewriteOf(c, TablesAfter(c, ctx.codec, before), LimitAfter(ctx.maxFrame, before), e.raw, piece)
  }

  ghost predicate AreImagesOf<S>(c: Codec<S>, ctx: Context<S>, pieces: seq<bytes>, events: seq<Event>) {
    && |pieces| == |events|
    && forall i :: 0 <= i < |events| ==>
         IsImageOf(pieces[i], events[i]) && IsForwarded(c, ctx, events[..i], events[i], pieces[i])
  }

  /**
   * Conservation: whatever the codec does and however settings change in between, the output is made of one
   * piece for each unit taken, in order; every frame outside header sequences is byte-identical, and every
   * header sequence is replaced by one header sequence of the same stream, which carries the block that the codec
   * makes of it, cut by the limit that the server announced last.
   */
  lemma {:induction false} OutputIsUnitByUnit<S>(c: Codec<S>, ctx: Context<S>, events: seq<Event>) returns (pieces: seq<bytes>)
    requires AreUnits(events) && Replay(c, ctx, events).Some?
    ensures AreImagesOf(c, ctx, pieces, events)
    ensures Replay(c, ctx, events).value.out == Concat(pieces)
    decreases |events|
  {
    hide NextUnit, StreamOf, Forward, IsImageOf, IsForwarded, AreUnits;
    if events == [] {
      return [];
    }
    var n := |events| - 1;
    AllButLast(events);
    var before := OutputIsUnitByUnit(c, ctx, events[..n]);
    var piece := LastPiece(c, ctx, events);
    pieces := before + [piece];
    forall i | 0 <= i < n
      ensures IsImageOf(pieces[i], events[i]) && IsForwarded(c, ctx, events[..i], events[i], pieces[i])
    {
      assert events[..n][..i] == events[..i];
    }
    assert pieces[..n] == before;
    assert Concat(before) + [] == Concat(before);
  }

  lemma AllButLast(events: seq<Event>)
    requires AreUnits(events) && events != []
    ensures AreUnits(events[..|events| - 1])
    ensures var e := events[|events| - 1]; e.Taken? ==> IsUnit(e.raw) && |e.raw| >= FRAME_HEADER_LEN
  {
    var e := events[|events| - 1];
    assert e in events;
    if e.Taken? {
      UnitIsLongEnough(e.raw);
    }
  }

  /** What the last event of a history adds to the output. */
  lemma LastPiece<S>(c: Codec<S>, ctx: Context<S>, events: seq<Event>) returns (piece: bytes)
    requires AreUnits(events) && events != [] && Replay(c, ctx, events).Some?
    ensures var n := |events| - 1;
      && AreUnits(events[..n]) && Replay(c, ctx, events[..n]).Some?
      && IsImageOf(piece, events[n]) && IsForwarded(c, ctx, events[..n], events[n], piece)
      && Replay(c, ctx, events).value.out == Replay(c, ctx, events[..n]).value.out + piece
  {
    hide NextUnit, Rewrite, StreamOf, AreUnits, TablesAfter, LimitAfter, IsRewriteOf;
    AllButLast(events);
    var n := |events| - 1;
    var e := events[n];
    piece := [];
    ContextAfter(c, ctx, events[..n]);
    if e.Taken? {
      var p := Replay(c, ctx, events[..n]).value;
      piece := Forward(c, p.ctx, e.raw).value.out;
      if e.raw[3] == HEADERS {
        RewriteIsHeaderSequence(c, p.ctx, e.raw, []);
        RewriteCarriesBlock(c, p.ctx, e.raw);
        assert piece + [] == piece;
      }
    } else {
      var out := Replay(c, ctx, events).value.out;
      assert out + [] == out;
    }
  }

  lemma UnitIsLongEnough(raw: bytes)
    requires IsUnit(raw)
    ensures |raw| >= FRAME_HEADER_LEN
  {
  }

  /**
   * With settings left alone, a history is determined by the bytes it took: relaying those bytes and what
   * follows them continues from the history's output. So the output does not depend on how the bytes arrived.
   */
  lemma {:induction false} ReplayIsRelay<S>(c: Codec<S>, ctx: Context<S>, events: seq<Event>, rest: bytes)
    requires AreUnits(events) && Replay(c, ctx, events).Some?
    requires AllTaken(events)
    ensures var p := Replay(c, ctx, events).value;
      Relay(c, ctx, Consumed(events) + rest) == p.out + Relay(c, p.ctx, rest)
    decreases |events|
  {
    hide NextUnit, Forward, Relay;
    if events == [] {
      assert [] + rest == rest && [] + Relay(c, ctx, rest) == Relay(c, ctx, rest);
    } else {
      var n := |events| - 1;
      var raw := events[n].raw;
      assert events[n] in events;
      UnitIsLongEnough(raw);
      var p := Replay(c, ctx, events[..n]).value;
      ReplayIsRelay(c, ctx, events[..n], raw + rest);
      assert Consumed(events) + rest == Consumed(events[..n]) + (raw + rest);
      RelayOneUnit(c, p.ctx, raw, rest);
      var q := Forward(c, p.ctx, raw).value;
      assert p.out + (q.out + Relay(c, q.ctx, rest)) == (p.out + q.out) + Relay(c, q.ctx, rest);
    }
  }

  /** Forwarding a unit gives something. */
  lemma ForwardedIsNotEmpty<S>(c: Codec<S>, ctx: Context<S>, raw: bytes)
    requires |raw| >= FRAME_HEADER_LEN && Forward(c, ctx, raw).Some?
    ensures Forward(c, ctx, raw).value.out != []
  {
    hide NextUnit, StreamOf, Rewrite;
    if raw[3] == HEADERS {
      RewriteIsHeaderSequence(c, ctx, raw, []);
    }
  }

  // ---------------------------------------------------------------- announcements in a history

  /** What the server announced, in order. */
  function AnnouncedIn(events: seq<Event>): seq<Setting> {
    if events == [] then []
    else
      var n := |events| - 1;
      AnnouncedIn(events[..n]) + (if events[n].Announced? then [events[n].setting] else [])
  }

  predicate AllTaken(events: seq<Event>) {
    forall e :: e in events ==> e.Taken?
  }

  /** The later history is the earlier one with units taken since. */
  predicate Continues(earlier: seq<Event>, later: seq<Event>) {
    earlier <= later && forall i :: |earlier| <= i < |later| ==> later[i].Taken?
  }

  lemma ContinuesAgain(a: seq<Event>, b: seq<Event>, c: seq<Event>)
    requires Continues(a, b) && Continues(b, c)
    ensures Continues(a, c)
  {
    assert forall i :: 0 <= i < |b| ==> c[i] == b[i];
  }

  lemma {:induction false} ContinuingAnnouncesNothing(earlier: seq<Event>, later: seq<Event>)
    requires Continues(earlier, later)
    ensures AnnouncedIn(later) == AnnouncedIn(earlier)
    decreases |later|
  {
    if |earlier| < |later| {
      var n := |later| - 1;
      ContinuingAnnouncesNothing(earlier, later[..n]);
      assert AnnouncedIn(later[..n]) + [] == AnnouncedIn(later[..n]);
    } else {
      assert earlier == later;
    }
  }

  lemma {:induction false} AnnouncementsAdded(events: seq<Event>, more: seq<Event>, settings: seq<Setting>)
    requires |more| == |settings| && forall i :: 0 <= i < |more| ==> more[i] == Announced(settings[i])
    ensures AnnouncedIn(events + more) == AnnouncedIn(events) + settings
    decreases |more|
  {
    if more == [] {
      assert events + more == events && AnnouncedIn(events) + [] == AnnouncedIn(events);
    } else {
      var n := |more| - 1;
      AnnouncementsAdded(events, more[..n], settings[..n]);
      assert (events + more)[..|events| + n] == events + more[..n];
      assert settings == settings[..n] + [settings[n]];
      assert AnnouncedIn(events) + settings[..n] + [settings[n]] == AnnouncedIn(events) + settings;
    }
  }

  lemma {:induction false} NothingAnnouncedExactlyWhen(events: seq<Event>)
    ensures AnnouncedIn(events) == [] <==> AllTaken(events)
    decreases |events|
  {
    if events != [] {
      var n := |events| - 1;
      NothingAnnouncedExactlyWhen(events[..n]);
      var last := if events[n].Announced? then [events[n].setting] else [];
      assert AnnouncedIn(events) == AnnouncedIn(events[..n]) + last;
      assert |AnnouncedIn(events)| == |AnnouncedIn(events[..n])| + |last|;
      assert events[n] in events && forall e :: e in events[..n] ==> e in events;
      assert forall e :: e in events ==> e in events[..n] || e == events[n];
    }
  }

  lemma RelayOneUnit<S>(c: Codec<S>, ctx: Context<S>, raw: bytes, rest: bytes)
    requires IsUnit(raw) && |raw| >= FRAME_HEADER_LEN && Forward(c, ctx, raw).Some?
    ensures var q := Forward(c, ctx, raw).value;
      Relay(c, ctx, raw + rest) == q.out + Relay(c, q.ctx, rest)
  {
    hide NextUnit, Forward, Hangs;
    NextUnitIsFinal(raw, rest);
    assert (raw + rest)[..|raw|] == raw && (raw + rest)[|raw|..] == rest;
  }

  /** What has been relayed of a prefix is a prefix of what is relayed of the whole. */
  lemma {:induction false} RelayExtended<S>(c: Codec<S>, ctx: Context<S>, buf: bytes, more: bytes)
    ensures Relay(c, ctx, buf) <= Relay(c, ctx, buf + more)
    decreases |buf|
  {
    hide Forward, NextUnit, Hangs;
    if NextUnit(buf) != Need {
      NextUnitIsFinal(buf, more);
    }
    if NextUnit(buf).Ready? {
      var n := NextUnit(buf).len;
      assert (buf + more)[..n] == buf[..n] && (buf + more)[n..] == buf[n..] + more;
      var p := Forward(c, ctx, buf[..n]);
      if p.Some? {
        RelayExtended(c, p.value.ctx, buf[n..], more);
      }
    }
  }
}
