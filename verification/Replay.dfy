/**
 * Peeking at the start of a connection and replaying what was read (processor/tls/tls_sni_helper.go,
 * processor/tcp/handler.go, processor/tcp/types.go).
 */
module Replay {
  import opened Wrappers
  import opened Bytes
  import opened Net
  import Sni
  import P = ProtocolSniff

  // ---------------------------------------------------------------- peeking at a ClientHello

  datatype Peeked =
    | Found(name: bytes) | ParseFailed(error: Sni.SniError) | NotHandshake
    | EndedEarly | ReadFailed(fault: Fault)
  {
    /** The caller gets the bytes back with these answers. */
    predicate KeepsBytes() {
      Found? || ParseFailed? || NotHandshake?
    }
  }

  const SNI_READ_SIZE := 4096

  /** The length of the TLS record that `s` starts with. */
  function RecordLength(s: bytes): nat
    requires |s| >= 5
  {
    U16(s[3..]) + 5
  }

  /** A first record of a handshake is complete. */
  predicate HasHandshakeRecord(s: bytes) {
    |s| >= 5 && s[0] == Sni.HANDSHAKE && |s| >= RecordLength(s)
  }

  function Verdict(r: Sni.SniResult): Peeked {
    if r.Name? then Found(r.name) else ParseFailed(r.error)
  }

  /** What peeking comes to for a script of reads, and the bytes that the caller gets back. */
  function Peek(script: seq<ReadEvent>, seen: bytes): (Peeked, bytes)
    decreases TotalSize(script)
  {
    NextReadTakesFront(script, SNI_READ_SIZE);
    var r := NextRead(script, SNI_READ_SIZE);
    var total := seen + r.data;
    if |total| >= 5 && total[0] != Sni.HANDSHAKE then (NotHandshake, total)
    else if HasHandshakeRecord(total) then (Verdict(Sni.ParseSni(total)), total)
    else if r.fault == NoFault then Peek(r.rest, total)
    else if r.fault == Eof then
      (if |total| < 5 then (EndedEarly, []) else (Verdict(Sni.ParseSni(total)), total))
    else (ReadFailed(r.fault), [])
  }

  lemma PeekStep(script: seq<ReadEvent>, seen: bytes)
    ensures var r := NextRead(script, SNI_READ_SIZE);
      var total := seen + r.data;
      Peek(script, seen) ==
        if |total| >= 5 && total[0] != Sni.HANDSHAKE then (NotHandshake, total)
        else if HasHandshakeRecord(total) then (Verdict(Sni.ParseSni(total)), total)
        else if r.fault == NoFault then Peek(r.rest, total)
        else if r.fault != Eof then (ReadFailed(r.fault), [])
        else if |total| < 5 then (EndedEarly, []) else (Verdict(Sni.ParseSni(total)), total)
  {
    hide NextRead, Sni.ParseSni, Verdict, HasHandshakeRecord;
  }

  /**
   * Reads until the first TLS record is complete and looks for the server name in it. `consumed` is what was
   * taken off the connection; the caller gets exactly that back except when the connection failed or ended
   * within the first five bytes.
   */
  method ExtractSni(conn: Conn) returns (answer: Peeked, buf: bytes, ghost consumed: bytes)
    modifies conn`script
    ensures old(conn.Remaining()) == consumed + conn.Remaining()
    ensures buf == if answer.KeepsBytes() then consumed else []
    ensures (answer, buf) == Peek(old(conn.script), [])
    ensures answer.Found? ==> Sni.ParseSni(buf) == Sni.Name(answer.name)
    ensures answer.ParseFailed? ==> Sni.ParseSni(buf) == Sni.Rejected(answer.error)
    ensures answer == NotHandshake ==> |buf| >= 5 && buf[0] != 22
    ensures answer == EndedEarly ==> |consumed| < 5
    ensures answer.ReadFailed? ==> answer.fault == Timeout || answer.fault == Broken
    ensures old(conn.Clean()) ==> IsAnswerFor(old(conn.Remaining()), answer, buf)
  {
    hide Sni.ParseSni, U16, NextRead, Peek, Joined, IsAnswerFor, IsClean;
    var totalBuf: bytes := [];
    ghost var stream := conn.Remaining();
    ghost var outcome := Peek(conn.script, []);
    if conn.Clean() {
      PeekIsAnswer(conn.script, []);
      assert [] + stream == stream;
    }
    while true
      invariant stream == totalBuf + conn.Remaining()
      invariant outcome == Peek(conn.script, totalBuf)
      decreases conn.Size()
    {
      ghost var before := totalBuf;
      PeekStep(conn.script, totalBuf);
      var data, fault := conn.Read(SNI_READ_SIZE);
      totalBuf := totalBuf + data;
      assert before + (data + conn.Remaining()) == totalBuf + conn.Remaining();
      if |totalBuf| >= 5 {
        if totalBuf[0] != Sni.HANDSHAKE {
          return NotHandshake, totalBuf, totalBuf;
        }
        if |totalBuf| >= RecordLength(totalBuf) {
          break;
        }
      }
      if fault != NoFault {
        if fault == Eof {
          if |totalBuf| < 5 {
            return EndedEarly, [], totalBuf;
          }
          break;
        }
        return ReadFailed(fault), [], totalBuf;
      }
    }
    var r := Sni.ParseSniFromBuffer(totalBuf);
    answer := if r.Name? then Found(r.name) else ParseFailed(r.error);
    return answer, totalBuf, totalBuf;
  }

  /**
   * What peeking at the stream `s` of a connection without faults comes to: a complete record is parsed
   * together with what the last read brought along, which is less than that read could bring.
   */
  predicate IsAnswerFor(s: bytes, answer: Peeked, buf: bytes) {
    if |s| < 5 then answer == EndedEarly && buf == []
    else if s[0] != Sni.HANDSHAKE then answer == NotHandshake && 5 <= |buf| && buf <= s
    else
      && answer == Verdict(Sni.ParseSni(buf)) && buf <= s
      && (if |s| < RecordLength(s) then buf == s else RecordLength(s) <= |buf| < RecordLength(s) + 4096)
  }

  /** Peeking at these bytes goes on. */
  predicate IsPartial(s: bytes) {
    |s| < 5 || (s[0] == Sni.HANDSHAKE && |s| < RecordLength(s))
  }

  /** So it is for every way of cutting the stream. */
  lemma {:induction false} PeekIsAnswer(script: seq<ReadEvent>, seen: bytes)
    requires IsClean(script)
    requires IsPartial(seen)
    ensures IsAnswerFor(seen + Joined(script), Peek(script, seen).0, Peek(script, seen).1)
    decreases TotalSize(script)
  {
    hide Sni.ParseSni, U16, NextRead, Verdict;
    NextReadTakesFront(script, SNI_READ_SIZE);
    var r := NextRead(script, SNI_READ_SIZE);
    var total := seen + r.data;
    var s := total + Joined(r.rest);
    assert seen + Joined(script) == s;
    if |total| >= 5 {
      SameRecordLength(total, Joined(r.rest));
      if |seen| >= 5 {
        SameRecordLength(seen, r.data);
      }
    }
    if r.fault == NoFault {
      if IsPartial(total) {
        PeekIsAnswer(r.rest, total);
      }
    } else {
      assert s == total;
    }
  }

  lemma SameRecordLength(s: bytes, more: bytes)
    requires |s| >= 5
    ensures RecordLength(s + more) == RecordLength(s) && (s + more)[0] == s[0]
  {
    assert (s + more)[3..] == s[3..] + more;
    Sni.U16Extended(s[3..], more);
  }

  /**
   * Segmentation independence of the answer: once the whole hello has been read, and however much came with
   * it, its host name is what is found.
   */
  lemma AnyReadOfHelloFindsHostName(h: Sni.ClientHello, k: nat, name: bytes, stream: bytes, buf: bytes)
    requires h.Valid() && k < |h.extensions|
    requires forall i :: 0 <= i < k ==> h.extensions[i].etype != Sni.SERVER_NAME
    requires h.extensions[k].etype == Sni.SERVER_NAME && Sni.NamesHost(h.extensions[k].data, name)
    requires h.Encode() <= stream && buf <= stream && |buf| >= 5 && |buf| >= RecordLength(stream)
    ensures Sni.ParseSni(buf) == Sni.Name(name)
  {
    hide Sni.ParseSni, U16;
    var whole := h.Encode();
    EncodedRecordLength(h);
    SameRecordLength(whole, stream[|whole|..]);
    assert stream == whole + stream[|whole|..];
    assert whole <= buf;
    assert buf == whole + buf[|whole|..];
    Sni.HostNameIsFound(h, k, name, buf[|whole|..]);
  }

  lemma EncodedRecordLength(h: Sni.ClientHello)
    requires h.Valid()
    ensures |h.Encode()| >= 5 && RecordLength(h.Encode()) == |h.Encode()|
  {
    hide Sni.ClientHello.Body;
    var e := h.Encode();
    var rest := e[5..];
    assert e[3..] == Put16(4 + |h.Body()|) + rest;
    Sni.U16Extended(Put16(4 + |h.Body()|), rest);
  }

  // ---------------------------------------------------------------- whether the cut matters

  /** One read for each byte. */
  function Singles(a: bytes): seq<ReadEvent> {
    if a == [] then [] else [ReadEvent(a[..1], NoFault)] + Singles(a[1..])
  }

  lemma PartialRead(seen: bytes, data: bytes, rest: seq<ReadEvent>)
    requires IsPartial(seen + data) && |data| <= SNI_READ_SIZE
    ensures Peek([ReadEvent(data, NoFault)] + rest, seen) == Peek(rest, seen + data)
  {
    hide Sni.ParseSni, RecordLength, Verdict, Peek;
    PeekStep([ReadEvent(data, NoFault)] + rest, seen);
    assert ([ReadEvent(data, NoFault)] + rest)[1..] == rest;
  }

  lemma {:induction false} PeekSingles(a: bytes, tail: seq<ReadEvent>, seen: bytes)
    requires forall n :: |seen| < n <= |seen + a| ==> IsPartial((seen + a)[..n])
    ensures Peek(Singles(a) + tail, seen) == Peek(tail, seen + a)
    decreases |a|
  {
    hide IsPartial, Peek;
    if a == [] {
      assert Singles(a) + tail == tail && seen + a == seen;
    } else {
      var next := seen + a[..1];
      assert next + a[1..] == seen + a && (seen + a)[..|next|] == next;
      PartialRead(seen, a[..1], Singles(a[1..]) + tail);
      assert Singles(a) + tail == [ReadEvent(a[..1], NoFault)] + (Singles(a[1..]) + tail);
      PeekSingles(a[1..], tail, next);
    }
  }

  lemma {:induction false} SinglesJoined(a: bytes, tail: seq<ReadEvent>)
    ensures Joined(Singles(a) + tail) == a + Joined(tail)
    ensures IsClean(tail) ==> IsClean(Singles(a) + tail)
  {
    hide Joined;
    if a == [] {
      assert Singles(a) + tail == tail && a + Joined(tail) == Joined(tail);
    } else {
      var rest := Singles(a[1..]) + tail;
      SinglesJoined(a[1..], tail);
      assert Singles(a) + tail == [ReadEvent(a[..1], NoFault)] + rest;
      JoinedBehind(ReadEvent(a[..1], NoFault), rest);
      assert a[..1] + (a[1..] + Joined(tail)) == a + Joined(tail);
    }
  }

  lemma JoinedBehind(e: ReadEvent, rest: seq<ReadEvent>)
    ensures Joined([e] + rest) == e.data + Joined(rest)
  {
    assert ([e] + rest)[1..] == rest;
  }

  lemma LastRead(seen: bytes, data: bytes, rest: seq<ReadEvent>)
    requires HasHandshakeRecord(seen + data) && |data| <= SNI_READ_SIZE
    ensures Peek([ReadEvent(data, NoFault)] + rest, seen) == (Verdict(Sni.ParseSni(seen + data)), seen + data)
  {
    hide Sni.ParseSni, RecordLength, Verdict, Peek;
    PeekStep([ReadEvent(data, NoFault)] + rest, seen);
  }

  lemma RecordAtPrefix(s: bytes, n: nat)
    requires HasHandshakeRecord(s) && 5 <= n <= |s|
    ensures s[..n][0] == Sni.HANDSHAKE && RecordLength(s[..n]) == RecordLength(s)
  {
    hide RecordLength;
    SameRecordLength(s[..n], s[n..]);
    assert s[..n] + s[n..] == s;
  }

  /** A way of cutting the stream after which `n` bytes of it are parsed. */
  lemma AnyCutHappens(s: bytes, n: nat) returns (script: seq<ReadEvent>)
    requires HasHandshakeRecord(s) && RecordLength(s) <= n <= |s| && n < RecordLength(s) + SNI_READ_SIZE
    ensures IsClean(script) && Joined(script) == s
    ensures Peek(script, []) == (Verdict(Sni.ParseSni(s[..n])), s[..n])
  {
    hide Sni.ParseSni, U16, Verdict, Peek, Joined;
    var k := RecordLength(s) - 1;
    var rest := [ReadEvent(s[n..], NoFault)];
    var tail := [ReadEvent(s[k..n], NoFault)] + rest;
    script := Singles(s[..k]) + tail;
    SinglesJoined(s[..k], tail);
    JoinedBehind(ReadEvent(s[k..n], NoFault), rest);
    JoinedBehind(ReadEvent(s[n..], NoFault), []);
    assert rest + [] == rest && Joined([]) == [] by {
      NothingJoined();
    }
    assert s[..k] + (s[k..n] + (s[n..] + [])) == s;
    forall m | 0 < m <= k
      ensures IsPartial(s[..k][..m])
    {
      assert s[..k][..m] == s[..m];
      if m >= 5 {
        RecordAtPrefix(s, m);
      }
    }
    assert [] + s[..k] == s[..k];
    PeekSingles(s[..k], tail, []);
    assert s[..k] + s[k..n] == s[..n];
    RecordAtPrefix(s, n);
    LastRead(s[..k], s[k..n], rest);
  }

  lemma NothingJoined()
    ensures Joined([]) == []
  {
  }

  /** Two ways of cutting the stream get different answers. */
  ghost predicate CutMatters(s: bytes) {
    exists a, b :: IsCutOf(a, s) && IsCutOf(b, s) && Peek(a, []).0 != Peek(b, []).0
  }

  ghost predicate IsCutOf(script: seq<ReadEvent>, s: bytes) {
    IsClean(script) && Joined(script) == s
  }

  /** What may be parsed beyond the record. */
  function Surplus(s: bytes): bytes
    requires HasHandshakeRecord(s)
  {
    var n := RecordLength(s);
    if |s| < n + SNI_READ_SIZE then s[n..] else s[n..n + SNI_READ_SIZE - 1]
  }

  lemma SurplusCut(s: bytes, k: nat)
    requires HasHandshakeRecord(s) && k <= |Surplus(s)|
    ensures RecordLength(s) + k <= |s| && s[..RecordLength(s)] + Surplus(s)[..k] == s[..RecordLength(s) + k]
  {
    hide U16;
  }

  /**
   * When the answer depends on how the stream is cut: bytes follow the record, the record alone has no final
   * answer, and the bytes that may come along complete what its parser is short of, or, after "not found",
   * are anything but empty extensions.
   */
  lemma CutMattersExactlyWhen(s: bytes)
    ensures CutMatters(s) <==>
      && HasHandshakeRecord(s)
      && var r := s[..RecordLength(s)];
         && !Sni.IsFinal(Sni.ParseSni(r))
         && |Surplus(s)| >= Sni.Missing(r)
         && (Sni.ParseSni(r) == Sni.Rejected(Sni.SniNotFound) ==> !Sni.OnlyEmptyExtensions(Sni.LeftOver(r) + Surplus(s)))
  {
    hide Sni.ParseSni, Sni.IsFinal, Sni.Missing, Sni.OnlyEmptyExtensions, Sni.LeftOver, U16, Peek;
    if HasHandshakeRecord(s) {
      var n := RecordLength(s);
      Sni.SameAtEveryCutExactlyWhen(s[..n], Surplus(s));
      if Sni.SameAtEveryCut(s[..n], Surplus(s)) {
        SameForAllCuts(s);
      } else {
        var k :| 0 <= k <= |Surplus(s)| && Sni.ParseSni(s[..n] + Surplus(s)[..k]) != Sni.ParseSni(s[..n]);
        var a := AnyCutHappens(s, n);
        var b := AnyCutHappens(s, n + k);
        SurplusCut(s, k);
        assert IsCutOf(a, s) && IsCutOf(b, s);
      }
    } else {
      forall a, b | IsCutOf(a, s) && IsCutOf(b, s)
        ensures Peek(a, []).0 == Peek(b, []).0
      {
        PeekIsAnswer(a, []);
        PeekIsAnswer(b, []);
        assert [] + s == s;
      }
    }
  }

  lemma SameForAllCuts(s: bytes)
    requires HasHandshakeRecord(s) && Sni.SameAtEveryCut(s[..RecordLength(s)], Surplus(s))
    ensures !CutMatters(s)
  {
    hide Sni.ParseSni, U16, Peek;
    var n := RecordLength(s);
    forall a | IsCutOf(a, s)
      ensures Peek(a, []).0 == Verdict(Sni.ParseSni(s[..n]))
    {
      PeekIsAnswer(a, []);
      assert [] + s == s;
      var k := |Peek(a, []).1| - n;
      SurplusCut(s, k);
      assert Peek(a, []).1 == s[..n + k];
    }
  }

  // ---------------------------------------------------------------- peeking at application data

  datatype PrefetchError = NoError | DeadlineFailed | ConnFailed(fault: Fault)

  const PREFETCH_READ_SIZE := 1024

  predicate HasCompleteHttpHeaders(buf: bytes) {
    IndexOf(buf, [CR, LF, CR, LF]).Some? || IndexOf(buf, [LF, LF]).Some?
  }

  predicate CouldStillBeHttp(buf: bytes) {
    buf == [] || MatchesAMethod(P.Upper(buf), P.METHODS)
  }

  predicate MatchesAMethod(upper: bytes, methods: seq<bytes>) {
    methods != [] &&
    (upper <= methods[0] || methods[0] + [P.SPACE] <= upper || MatchesAMethod(upper, methods[1..]))
  }

  /** Nothing more is read behind these bytes. */
  predicate SeenEnough(buf: bytes) {
    buf != [] && (HasCompleteHttpHeaders(buf) || !CouldStillBeHttp(buf))
  }

  /** That is a blank line, with or without carriage returns, or that no method begins so, in any case of letters. */
  lemma SeenEnoughExactlyWhen(buf: bytes)
    ensures SeenEnough(buf) <==>
      buf != [] &&
      ((exists i :: OccursAt(buf, [13, 10, 13, 10], i)) || (exists i :: OccursAt(buf, [10, 10], i))
       || forall m :: m in P.METHODS ==> !(P.Upper(buf) <= m) && !(m + [32] <= P.Upper(buf)))
  {
    hide IndexOf, OccursAt, P.Upper;
    MatchesAMethodExactlyWhen(P.Upper(buf), P.METHODS);
    var a, b := IndexOf(buf, [13, 10, 13, 10]), IndexOf(buf, [10, 10]);
    if i :| OccursAt(buf, [13, 10, 13, 10], i) {
      OccurrenceIsFound(buf, [13, 10, 13, 10], i);
    }
    if i :| OccursAt(buf, [10, 10], i) {
      OccurrenceIsFound(buf, [10, 10], i);
    }
  }

  lemma {:induction false} MatchesAMethodExactlyWhen(upper: bytes, methods: seq<bytes>)
    ensures MatchesAMethod(upper, methods) <==> exists m :: m in methods && (upper <= m || m + [32] <= upper)
    decreases |methods|
  {
    if methods != [] {
      MatchesAMethodExactlyWhen(upper, methods[1..]);
      var first := methods[0];
      assert methods == [first] + methods[1..] && first in methods;
      assert first + [32] == first + [P.SPACE];
      assert forall m :: m in methods <==> m == first || m in methods[1..];
    }
  }

  function Least(a: int, b: int): int {
    if a <= b then a else b
  }

  /** What prefetching comes to for a script of reads, when `deadlines` more deadlines can be set. */
  function Prefetch(script: seq<ReadEvent>, maxBytes: int, seen: bytes, deadlines: nat): (bytes, PrefetchError)
    decreases TotalSize(script)
  {
    if |seen| >= maxBytes then (seen, NoError)
    else
      var size := Least(PREFETCH_READ_SIZE, maxBytes - |seen|);
      NextReadTakesFront(script, size);
      var r := NextRead(script, size);
      var total := seen + r.data;
      if r.fault == Broken then (total, ConnFailed(Broken))
      else if r.fault != NoFault then (total, NoError)
      else if total == [] then Prefetch(r.rest, maxBytes, total, deadlines)
      else if SeenEnough(total) then (total, NoError)
      else if deadlines == 0 then (total, DeadlineFailed)
      else Prefetch(r.rest, maxBytes, total, deadlines - 1)
  }

  lemma PrefetchStep(script: seq<ReadEvent>, maxBytes: int, seen: bytes, deadlines: nat)
    requires |seen| < maxBytes
    ensures var r := NextRead(script, Least(PREFETCH_READ_SIZE, maxBytes - |seen|));
      var total := seen + r.data;
      Prefetch(script, maxBytes, seen, deadlines) ==
        if r.fault == Broken then (total, ConnFailed(Broken))
        else if r.fault != NoFault then (total, NoError)
        else if total == [] then Prefetch(r.rest, maxBytes, total, deadlines)
        else if SeenEnough(total) then (total, NoError)
        else if deadlines == 0 then (total, DeadlineFailed)
        else Prefetch(r.rest, maxBytes, total, deadlines - 1)
  {
    hide NextRead, SeenEnough;
  }

  /**
   * Reads until the bytes seen are a whole HTTP head, are no HTTP at all, reach `maxBytes`, or the connection
   * pauses, ends or fails, or the deadline for the next read cannot be set, which goes well `deadlines` times.
   * Whichever it is, the bytes returned are exactly those consumed.
   */
  method PrefetchApplicationData(conn: Conn, maxBytes: int, deadlines: nat) returns (buf: bytes, err: PrefetchError)
    modifies conn`script
    ensures old(conn.Remaining()) == buf + conn.Remaining()
    ensures |buf| <= if maxBytes < 0 then 0 else maxBytes
    ensures (buf, err) ==
      if maxBytes <= 0 then ([], NoError)
      else if deadlines == 0 then ([], DeadlineFailed)
      else Prefetch(old(conn.script), maxBytes, [], deadlines - 1)
  {
    hide SeenEnough, NextRead, Joined, Prefetch, HasCompleteHttpHeaders, CouldStillBeHttp;
    buf := [];
    if maxBytes <= 0 {
      return [], NoError;
    }
    if deadlines == 0 {
      return [], DeadlineFailed;
    }
    var left: nat := deadlines - 1;
    ghost var stream := conn.Remaining();
    ghost var outcome := Prefetch(conn.script, maxBytes, [], left);
    while |buf| < maxBytes
      invariant stream == buf + conn.Remaining() && |buf| <= maxBytes
      invariant outcome == Prefetch(conn.script, maxBytes, buf, left)
      decreases conn.Size()
    {
      PrefetchStep(conn.script, maxBytes, buf, left);
      var readSize := PREFETCH_READ_SIZE;
      if maxBytes - |buf| < readSize {
        readSize := maxBytes - |buf|;
      }
      ghost var before := buf;
      var data, fault := conn.Read(readSize);
      buf := buf + data;
      assert before + (data + conn.Remaining()) == buf + conn.Remaining();
      if fault != NoFault {
        if fault == Eof || fault == Timeout {
          return buf, NoError;
        }
        return buf, ConnFailed(fault);
      }
      if |buf| == 0 {
        continue;
      }
      if SeenEnough(buf) {
        return buf, NoError;
      }
      if left == 0 {
        return buf, DeadlineFailed;
      }
      left := left - 1;
    }
    PrefetchedAll(conn.script, maxBytes, buf, left);
    return buf, NoError;
  }

  lemma PrefetchedAll(script: seq<ReadEvent>, maxBytes: int, seen: bytes, deadlines: nat)
    requires |seen| >= maxBytes
    ensures Prefetch(script, maxBytes, seen, deadlines) == (seen, NoError)
  {
    hide NextRead, SeenEnough;
  }

  /** Prefetching keeps what it has seen, and on a connection without faults it does not fail. */
  lemma {:induction false} PrefetchGoesOn(script: seq<ReadEvent>, maxBytes: int, seen: bytes, deadlines: nat)
    requires IsClean(script) && deadlines >= TotalSize(script)
    ensures var (buf, err) := Prefetch(script, maxBytes, seen, deadlines);
      err == NoError && seen <= buf && buf <= seen + Joined(script)
    decreases TotalSize(script)
  {
    hide SeenEnough, NextRead, Joined, Prefetch;
    if |seen| >= maxBytes {
      PrefetchedAll(script, maxBytes, seen, deadlines);
    } else {
      var size := Least(PREFETCH_READ_SIZE, maxBytes - |seen|);
      PrefetchStep(script, maxBytes, seen, deadlines);
      NextReadTakesFront(script, size);
      var r := NextRead(script, size);
      var total := seen + r.data;
      assert seen + Joined(script) == total + Joined(r.rest);
      if r.fault == NoFault && (total == [] || !SeenEnough(total)) {
        PrefetchGoesOn(r.rest, maxBytes, total, if total == [] then deadlines else deadlines - 1);
      }
    }
  }

  /**
   * On a connection without faults and with deadlines enough, no less is returned than the first bytes that are
   * enough, the limit permitting; and where any more bytes are enough too, as behind a whole head they are, less
   * than one read of 1024 bytes beyond them.
   */
  lemma {:induction false} PrefetchMeaning(script: seq<ReadEvent>, maxBytes: int, seen: bytes, deadlines: nat, n: nat)
    requires IsClean(script) && deadlines >= TotalSize(script) && |seen| < n <= |seen + Joined(script)| && n <= maxBytes
    requires forall k :: 0 < k < n ==> !SeenEnough((seen + Joined(script))[..k])
    ensures var (buf, err) := Prefetch(script, maxBytes, seen, deadlines);
      && err == NoError && n <= |buf| && buf <= seen + Joined(script)
      && ((forall k :: n <= k <= |seen + Joined(script)| ==> SeenEnough((seen + Joined(script))[..k])) ==> |buf| < n + 1024)
    decreases TotalSize(script)
  {
    hide SeenEnough, NextRead, Joined, Prefetch;
    var all := seen + Joined(script);
    var size := Least(PREFETCH_READ_SIZE, maxBytes - |seen|);
    PrefetchStep(script, maxBytes, seen, deadlines);
    NextReadTakesFront(script, size);
    var r := NextRead(script, size);
    var total := seen + r.data;
    assert all == total + Joined(r.rest) && all[..|total|] == total;
    if |total| < n {
      PrefetchMeaning(r.rest, maxBytes, total, if total == [] then deadlines else deadlines - 1, n);
    } else if !SeenEnough(total) {
      PrefetchGoesOn(r.rest, maxBytes, total, deadlines - 1);
    }
  }

  // ---------------------------------------------------------------- replaying

  /** A connection whose first bytes have been read already. */
  class WrappedConn {
    const conn: Conn
    const buf: bytes
    var readOffset: nat

    constructor (conn: Conn, buf: bytes)
      ensures this.conn == conn && this.buf == buf && readOffset == 0 && Valid()
      ensures Stream() == buf + conn.Remaining()
    {
      this.conn, this.buf, readOffset := conn, buf, 0;
    }

    predicate Valid()
      reads this
    {
      readOffset <= |buf|
    }

    /** What a reader of the wrapper has still to see. */
    function Stream(): bytes
      reads this, conn
      requires Valid()
    {
      buf[readOffset..] + conn.Remaining()
    }

    method Read(size: nat) returns (data: bytes, fault: Fault)
      requires Valid()
      modifies `readOffset, conn`script
      ensures Valid() && |data| <= size
      ensures old(Stream()) == data + Stream()
      ensures old(readOffset) <= readOffset
      ensures old(readOffset) < |buf| ==> fault == NoFault && data == buf[old(readOffset)..readOffset]
      ensures old(readOffset) < |buf| && size > 0 ==> data != []
    {
      if |buf| > readOffset {
        var n := if size < |buf| - readOffset then size else |buf| - readOffset;
        data, fault := buf[readOffset..readOffset + n], NoFault;
        assert buf[readOffset..] == data + buf[readOffset + n..];
        readOffset := readOffset + n;
        return;
      }
      data, fault := conn.Read(size);
    }
  }

  /** A wrapper only where there is something to replay. */
  method WrapBufferedConn(conn: Conn, buf: bytes) returns (w: WrappedConn?)
    ensures w == null <==> buf == []
    ensures w != null ==> fresh(w) && w.conn == conn && w.buf == buf && w.Valid() && w.readOffset == 0
    ensures w != null ==> w.Stream() == buf + conn.Remaining()
  {
    if |buf| == 0 {
      return null;
    }
    w := new WrappedConn(conn, buf);
  }

  /** What a reader of a connection, wrapped if there was something to replay, has still to see. */
  function Unread(conn: Conn, w: WrappedConn?): bytes
    reads conn, w
    requires w != null ==> w.Valid() && w.conn == conn
  {
    if w == null then conn.Remaining() else w.Stream()
  }

  /**
   * Replay exactness: after peeking in either way, reading with any buffer sizes yields the stream that the
   * connection would have given from the start, less the bytes in `gone`. There are such bytes only when the
   * search for a server name found the connection at its end within five bytes, or failing.
   */
  method PeekThenRead(conn: Conn, tls: bool, maxBytes: int, deadlines: nat, sizes: seq<nat>)
    returns (total: bytes, answer: Option<Peeked>, w: WrappedConn?, ghost gone: bytes)
    modifies conn
    ensures w != null ==> w.Valid() && w.conn == conn
    ensures old(conn.Remaining()) == gone + total + Unread(conn, w)
    ensures answer == if tls then Some(Peek(old(conn.script), []).0) else None
    ensures answer.None? || answer.value.KeepsBytes() ==> gone == []
    ensures answer == Some(EndedEarly) ==> |gone| < 5
    ensures tls && old(conn.Clean()) ==> (!answer.value.KeepsBytes() <==> |old(conn.Remaining())| < 5)
  {
    hide WrappedConn.Stream, Peek, Prefetch, IsAnswerFor, Sni.ParseSni, Joined, NextRead, IsClean;
    var buf: bytes;
    answer := None;
    gone := [];
    ghost var stream := conn.Remaining();
    if tls {
      var found;
      ghost var consumed;
      found, buf, consumed := ExtractSni(conn);
      answer := Some(found);
      gone := if found.KeepsBytes() then [] else consumed;
      if old(conn.Clean()) {
        BytesAreKept(stream, found, buf);
      }
    } else {
      var err;
      buf, err := PrefetchApplicationData(conn, maxBytes, deadlines);
    }
    w := WrapBufferedConn(conn, buf);
    ghost var whole := Unread(conn, w);
    assert stream == gone + whole;
    total := ReadAll(conn, w, sizes);
    assert gone + (total + Unread(conn, w)) == gone + total + Unread(conn, w);
  }

  lemma BytesAreKept(s: bytes, answer: Peeked, buf: bytes)
    requires IsAnswerFor(s, answer, buf)
    ensures !answer.KeepsBytes() <==> |s| < 5
  {
  }

  method ReadAll(conn: Conn, w: WrappedConn?, sizes: seq<nat>) returns (total: bytes)
    requires w != null ==> w.Valid() && w.conn == conn
    modifies conn`script, w
    ensures w != null ==> w.Valid()
    ensures old(Unread(conn, w)) == total + Unread(conn, w)
  {
    hide Unread;
    total := [];
    ghost var whole := Unread(conn, w);
    for i := 0 to |sizes|
      invariant w != null ==> w.Valid()
      invariant whole == total + Unread(conn, w)
    {
      var data := ReadEither(conn, w, sizes[i]);
      assert total + (data + Unread(conn, w)) == (total + data) + Unread(conn, w);
      total := total + data;
    }
  }

  method ReadEither(conn: Conn, w: WrappedConn?, size: nat) returns (data: bytes)
    requires w != null ==> w.Valid() && w.conn == conn
    modifies conn`script, w
    ensures w != null ==> w.Valid()
    ensures old(Unread(conn, w)) == data + Unread(conn, w)
  {
    hide NextRead;
    var fault: Fault;
    if w == null {
      data, fault := conn.Read(size);
    } else {
      data, fault := w.Read(size);
    }
  }
}
