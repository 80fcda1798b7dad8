/**
 * The server name in a TLS ClientHello (processor/tls/tls_sni_helper.go; sections 4.1.2 and 5.1 of RFC 8446,
 * section 3 of RFC 6066).
 */
module Sni {
  import opened Bytes

  datatype SniError =
    | NotClientHello | IncompleteHandshake | InvalidHandshakeLength | InvalidHandshakeStructure
    | InvalidSessionId | InvalidCipherSuitesLength | InvalidCipherSuites | InvalidCompressionMethods
    | InvalidExtensionLength | InvalidExtensions | InvalidExtensionData | InvalidListLength | InvalidSniType
    | UnsupportedSniType | InvalidHostLength | InvalidHostname | SniNotFound

  datatype SniResult = Name(name: bytes) | Rejected(error: SniError)

  const HANDSHAKE: byte := 0x16
  const SERVER_NAME := 0
  const HOST_NAME: byte := 0

  // ---------------------------------------------------------------- what the parser answers

  /** The parser's answer, stage by stage; each stage sees what the ones before it left. */
  function ParseSni(buf: bytes): SniResult {
    if |buf| < 5 || buf[0] != HANDSHAKE || buf[1] != 0x03 then Rejected(NotClientHello)
    else if U16(buf[3..]) + 5 > |buf| then Rejected(IncompleteHandshake)
    else if |buf| <= 6 then Rejected(InvalidHandshakeLength)
    else if |buf| <= 43 then Rejected(InvalidHandshakeStructure)
    else FromSession(buf[43..])
  }

  function FromSession(r: bytes): SniResult
    requires r != []
  {
    if 1 + r[0] as int >= |r| then Rejected(InvalidSessionId) else FromCiphers(r[1 + r[0] as int..])
  }

  function FromCiphers(r: bytes): SniResult {
    if |r| < 2 then Rejected(InvalidCipherSuitesLength)
    else if 2 + U16(r) >= |r| then Rejected(InvalidCipherSuites)
    else FromCompression(r[2 + U16(r)..])
  }

  function FromCompression(r: bytes): SniResult
    requires r != []
  {
    if 1 + r[0] as int >= |r| then Rejected(InvalidCompressionMethods)
    else FromExtensionsLength(r[1 + r[0] as int..])
  }

  function FromExtensionsLength(r: bytes): SniResult {
    if |r| < 2 then Rejected(InvalidExtensionLength)
    else if U16(r) > |r| - 2 then Rejected(InvalidExtensions)
    else FindServerName(r[2..])
  }

  /** The extension loop, which runs to the end of the buffer. */
  function FindServerName(r: bytes): SniResult {
    if |r| < 4 then Rejected(SniNotFound)
    else if U16(r[2..]) > |r| - 4 then Rejected(InvalidExtensionData)
    else if U16(r) == SERVER_NAME then ReadName(r[4..])
    else FindServerName(r[4 + U16(r[2..])..])
  }

  function ReadName(d: bytes): SniResult {
    if |d| < 2 then Rejected(InvalidListLength)
    else if |d| < 3 then Rejected(InvalidSniType)
    else if d[2] != HOST_NAME then Rejected(UnsupportedSniType)
    else if |d| < 5 then Rejected(InvalidHostLength)
    else if U16(d[3..]) > |d| - 5 then Rejected(InvalidHostname)
    else Name(d[5..5 + U16(d[3..])])
  }

  // ---------------------------------------------------------------- the parser

  /** Chases offsets through the buffer; that it verifies means that every read is in bounds. */
  method ParseSniFromBuffer(buf: bytes) returns (r: SniResult)
    ensures r == ParseSni(buf)
  {
    hide U16;
    if |buf| < 5 || buf[0] != HANDSHAKE || buf[1] != 0x03 {
      return Rejected(NotClientHello);
    }
    var handshakeLength := U16(buf[3..]) + 5;
    if handshakeLength > |buf| {
      return Rejected(IncompleteHandshake);
    }
    var pos := 6;
    if pos >= |buf| {
      return Rejected(InvalidHandshakeLength);
    }
    pos := pos + 3 + 2 + 32;
    if pos >= |buf| {
      return Rejected(InvalidHandshakeStructure);
    }
    ghost var at := pos;
    pos := pos + 1 + buf[pos] as int;
    if pos >= |buf| {
      return Rejected(InvalidSessionId);
    }
    assert buf[at..][pos - at..] == buf[pos..];
    r := ParseFromCiphers(buf, pos);
  }

  method ParseFromCiphers(buf: bytes, from: nat) returns (r: SniResult)
    requires from < |buf|
    ensures r == FromCiphers(buf[from..])
  {
    hide U16;
    var pos := from;
    if pos + 2 > |buf| {
      return Rejected(InvalidCipherSuitesLength);
    }
    ghost var at := pos;
    pos := pos + 2 + U16(buf[pos..]);
    if pos >= |buf| {
      return Rejected(InvalidCipherSuites);
    }
    assert buf[at..][pos - at..] == buf[pos..];
    at := pos;
    pos := pos + 1 + buf[pos] as int;
    if pos >= |buf| {
      return Rejected(InvalidCompressionMethods);
    }
    assert buf[at..][pos - at..] == buf[pos..];
    if pos + 2 > |buf| {
      return Rejected(InvalidExtensionLength);
    }
    var extensionsLength := U16(buf[pos..]);
    pos := pos + 2;
    if pos + extensionsLength > |buf| {
      return Rejected(InvalidExtensions);
    }
    assert buf[pos - 2..][2..] == buf[pos..];
    r := ParseExtensions(buf, pos);
  }

  method ParseExtensions(buf: bytes, from: nat) returns (r: SniResult)
    requires from <= |buf|
    ensures r == FindServerName(buf[from..])
  {
    hide U16;
    var pos := from;
    while pos + 4 <= |buf|
      invariant from <= pos <= |buf|
      invariant FindServerName(buf[from..]) == FindServerName(buf[pos..])
    {
      ghost var rest := buf[pos..];
      assert rest[2..] == buf[pos + 2..];
      var extType := U16(buf[pos..]);
      var extLen := U16(buf[pos + 2..]);
      pos := pos + 4;
      assert rest[4..] == buf[pos..];
      if pos + extLen > |buf| {
        return Rejected(InvalidExtensionData);
      }
      if extType == SERVER_NAME {
        ghost var data := buf[pos..];
        if pos + 2 > |buf| {
          return Rejected(InvalidListLength);
        }
        pos := pos + 2;
        if pos + 1 > |buf| {
          return Rejected(InvalidSniType);
        }
        var nameType := buf[pos];
        pos := pos + 1;
        if nameType != HOST_NAME {
          return Rejected(UnsupportedSniType);
        }
        if pos + 2 > |buf| {
          return Rejected(InvalidHostLength);
        }
        assert data[3..] == buf[pos..];
        var nameLen := U16(buf[pos..]);
        pos := pos + 2;
        if pos + nameLen > |buf| {
          return Rejected(InvalidHostname);
        }
        assert data[5..5 + nameLen] == buf[pos..pos + nameLen];
        return Name(buf[pos..pos + nameLen]);
      }
      assert rest[4 + extLen..] == buf[pos + extLen..];
      pos := pos + extLen;
    }
    return Rejected(SniNotFound);
  }

  // ---------------------------------------------------------------- more input

  lemma U16Extended(r: bytes, more: bytes)
    requires |r| >= 2
    ensures U16(r + more) == U16(r)
  {
  }

  /** Nothing that follows the buffer can change these answers. */
  predicate IsFinal(a: SniResult) {
    a.Name? || a.error == NotClientHello || a.error == UnsupportedSniType
  }

  /** How many bytes the guard that rejected the buffer is short of; zero when no guard was. */
  function Missing(buf: bytes): nat
    requires |buf| >= 5
  {
    if buf[0] != HANDSHAKE || buf[1] != 0x03 then 0
    else if U16(buf[3..]) + 5 > |buf| then U16(buf[3..]) + 5 - |buf|
    else if |buf| <= 6 then 7 - |buf|
    else if |buf| <= 43 then 44 - |buf|
    else MissingFromSession(buf[43..])
  }

  function MissingFromSession(r: bytes): nat
    requires r != []
  {
    if 1 + r[0] as int >= |r| then 2 + r[0] as int - |r| else MissingFromCiphers(r[1 + r[0] as int..])
  }

  function MissingFromCiphers(r: bytes): nat {
    if |r| < 2 then 2 - |r|
    else if 2 + U16(r) >= |r| then 3 + U16(r) - |r|
    else MissingFromCompression(r[2 + U16(r)..])
  }

  function MissingFromCompression(r: bytes): nat
    requires r != []
  {
    if 1 + r[0] as int >= |r| then 2 + r[0] as int - |r| else MissingFromExtensionsLength(r[1 + r[0] as int..])
  }

  function MissingFromExtensionsLength(r: bytes): nat {
    if |r| < 2 then 2 - |r|
    else if U16(r) > |r| - 2 then U16(r) + 2 - |r|
    else MissingFromExtensions(r[2..])
  }

  function MissingFromExtensions(r: bytes): nat {
    if |r| < 4 then 4 - |r|
    else if U16(r[2..]) > |r| - 4 then U16(r[2..]) + 4 - |r|
    else if U16(r) == SERVER_NAME then MissingFromName(r[4..])
    else MissingFromExtensions(r[4 + U16(r[2..])..])
  }

  function MissingFromName(d: bytes): nat {
    if |d| < 3 then (if |d| < 2 then 2 else 3) - |d|
    else if d[2] != HOST_NAME then 0
    else if |d| < 5 then 5 - |d|
    else if U16(d[3..]) > |d| - 5 then U16(d[3..]) + 5 - |d|
    else 0
  }

  /**
   * How an answer `a` to `r`, whose guard was short of `missing` bytes, becomes the answer `b` when `more` comes:
   * it stays while `more` is too short and changes when exactly what was missing has come, except that after
   * "not found" the extension loop goes on with the bytes it had not looked at.
   */
  ghost predicate Becomes(missing: nat, r: bytes, a: SniResult, more: bytes, b: SniResult) {
    && (missing == 0 <==> IsFinal(a))
    && (missing == 0 || |more| < missing ==> b == a)
    && (0 < missing == |more| && a != Rejected(SniNotFound) ==> b != a)
    && (a == Rejected(SniNotFound) ==>
          missing <= 4 && 4 - missing <= |r| && b == FindServerName(r[|r| - (4 - missing)..] + more))
  }

  /** What holds behind the first bytes holds with them. */
  lemma BecomesInFront(missing: nat, r: bytes, n: nat, a: SniResult, more: bytes, b: SniResult)
    requires n <= |r| && Becomes(missing, r[n..], a, more, b)
    ensures Becomes(missing, r, a, more, b)
  {
    hide FindServerName, IsFinal;
    if a == Rejected(SniNotFound) {
      assert r[n..][|r[n..]| - (4 - missing)..] == r[|r| - (4 - missing)..];
    }
  }

  lemma NameBecomes(d: bytes, more: bytes)
    ensures Becomes(MissingFromName(d), d, ReadName(d), more, ReadName(d + more))
    ensures ReadName(d) != Rejected(InvalidExtensionData) && ReadName(d) != Rejected(SniNotFound)
  {
    hide U16;
    if |d| >= 5 {
      assert (d + more)[3..] == d[3..] + more;
      U16Extended(d[3..], more);
      if U16(d[3..]) <= |d| - 5 {
        assert (d + more)[5..5 + U16(d[3..])] == d[5..5 + U16(d[3..])];
      }
    }
  }

  /** The stage that gives an answer. */
  function Stage(a: SniResult): nat {
    if a.Name? then 10
    else
      match a.error
      case NotClientHello => 0
      case IncompleteHandshake => 1
      case InvalidHandshakeLength => 2
      case InvalidHandshakeStructure => 3
      case InvalidSessionId => 4
      case InvalidCipherSuitesLength => 5
      case InvalidCipherSuites => 6
      case InvalidCompressionMethods => 7
      case InvalidExtensionLength => 8
      case InvalidExtensions => 9
      case _ => 10
  }

  lemma {:induction false} LoopAnswers(r: bytes)
    ensures Stage(FindServerName(r)) == 10
  {
    if |r| >= 4 && U16(r[2..]) <= |r| - 4 && U16(r) != SERVER_NAME {
      LoopAnswers(r[4 + U16(r[2..])..]);
    }
  }

  /** An extension's header is read the same when more follows. */
  lemma HeaderExtended(r: bytes, more: bytes)
    requires |r| >= 4
    ensures U16(r + more) == U16(r) && U16((r + more)[2..]) == U16(r[2..])
    ensures (r + more)[4..] == r[4..] + more
    ensures U16(r[2..]) <= |r| - 4 ==> (r + more)[4 + U16(r[2..])..] == r[4 + U16(r[2..])..] + more
  {
    U16Extended(r, more);
    U16Extended(r[2..], more);
    assert (r + more)[2..] == r[2..] + more;
  }

  lemma {:induction false} LoopBecomes(r: bytes, more: bytes)
    ensures Becomes(MissingFromExtensions(r), r, FindServerName(r), more, FindServerName(r + more))
  {
    hide U16, MissingFromName, ReadName;
    if |r| >= 4 {
      HeaderExtended(r, more);
      var n := 4 + U16(r[2..]);
      if n > |r| {
        if |more| == n - |r| {
          NameBecomes((r + more)[4..], []);
          assert (r + more)[n..] == [];
        }
      } else if U16(r) == SERVER_NAME {
        NameBecomes(r[4..], more);
      } else {
        LoopBecomes(r[n..], more);
        BecomesInFront(MissingFromExtensions(r), r, n, FindServerName(r), more, FindServerName(r + more));
      }
    } else {
      assert r[|r| - (4 - MissingFromExtensions(r))..] == r;
    }
  }

  lemma ExtensionsLengthBecomes(r: bytes, more: bytes)
    ensures Becomes(MissingFromExtensionsLength(r), r, FromExtensionsLength(r), more, FromExtensionsLength(r + more))
    ensures Stage(FromExtensionsLength(r)) >= 8
  {
    hide U16, FindServerName, MissingFromExtensions;
    if |r| >= 2 {
      U16Extended(r, more);
      assert (r + more)[2..] == r[2..] + more;
      LoopBecomes(r[2..], more);
      BecomesInFront(MissingFromExtensions(r[2..]), r, 2, FindServerName(r[2..]), more, FindServerName(r[2..] + more));
      LoopAnswers(r[2..]);
      LoopAnswers(r[2..] + more);
    } else if |more| == 2 - |r| {
      LoopAnswers((r + more)[2..]);
    }
  }

  lemma CompressionBecomes(r: bytes, more: bytes)
    requires r != []
    ensures Becomes(MissingFromCompression(r), r, FromCompression(r), more, FromCompression(r + more))
    ensures Stage(FromCompression(r)) >= 7
  {
    hide U16, FindServerName, MissingFromExtensions, FromExtensionsLength, MissingFromExtensionsLength;
    var n := 1 + r[0] as int;
    if n < |r| {
      assert (r + more)[n..] == r[n..] + more;
      ExtensionsLengthBecomes(r[n..], more);
      BecomesInFront(MissingFromCompression(r), r, n, FromCompression(r), more, FromCompression(r + more));
    } else if |more| == n + 1 - |r| {
      ExtensionsLengthBecomes((r + more)[n..], []);
    }
  }

  lemma CiphersBecome(r: bytes, more: bytes)
    requires r != []
    ensures Becomes(MissingFromCiphers(r), r, FromCiphers(r), more, FromCiphers(r + more))
    ensures Stage(FromCiphers(r)) >= 5
  {
    hide U16, FindServerName, FromCompression, MissingFromCompression;
    if |r| >= 2 {
      U16Extended(r, more);
      var n := 2 + U16(r);
      if n < |r| {
        assert (r + more)[n..] == r[n..] + more;
        CompressionBecomes(r[n..], more);
        BecomesInFront(MissingFromCiphers(r), r, n, FromCiphers(r), more, FromCiphers(r + more));
      } else if |more| == n + 1 - |r| {
        CompressionBecomes((r + more)[n..], []);
      }
    }
  }

  lemma SessionBecomes(r: bytes, more: bytes)
    requires r != []
    ensures Becomes(MissingFromSession(r), r, FromSession(r), more, FromSession(r + more))
    ensures Stage(FromSession(r)) >= 4
  {
    hide FindServerName, FromCiphers, MissingFromCiphers;
    var n := 1 + r[0] as int;
    if n < |r| {
      assert (r + more)[n..] == r[n..] + more;
      CiphersBecome(r[n..], more);
      BecomesInFront(MissingFromSession(r), r, n, FromSession(r), more, FromSession(r + more));
    } else if |more| == n + 1 - |r| {
      CiphersBecome((r + more)[n..], []);
    }
  }

  /**
   * How long an answer lasts: a final one for ever, any other as long as the guard that rejected the buffer is
   * short of bytes; then it is another, except after "not found", where the loop goes on.
   */
  lemma AnswerBecomes(buf: bytes, more: bytes)
    requires |buf| >= 5
    ensures Becomes(Missing(buf), buf, ParseSni(buf), more, ParseSni(buf + more))
  {
    hide U16, FromSession, MissingFromSession, FindServerName;
    assert (buf + more)[3..] == buf[3..] + more;
    U16Extended(buf[3..], more);
    if |buf| > 43 {
      assert (buf + more)[43..] == buf[43..] + more;
      SessionBecomes(buf[43..], more);
      BecomesInFront(MissingFromSession(buf[43..]), buf, 43, FromSession(buf[43..]), more, FromSession(buf[43..] + more));
    }
    if |buf + more| > 43 {
      SessionBecomes((buf + more)[43..], []);
    }
  }

  /** A name that has been found is found again whatever arrives after it. */
  lemma SuccessIsStable(buf: bytes, more: bytes)
    requires ParseSni(buf).Name?
    ensures ParseSni(buf + more) == ParseSni(buf)
  {
    AnswerBecomes(buf, more);
  }

  // ---------------------------------------------------------------- not found, so far

  /** The bytes at the end of a buffer without a name that the extension loop did not look at. */
  function LeftOver(buf: bytes): (left: bytes)
    requires ParseSni(buf) == Rejected(SniNotFound)
    ensures |left| == 4 - Missing(buf) && |left| < 4
  {
    AnswerBecomes(buf, []);
    buf[|buf| - (4 - Missing(buf))..]
  }

  /** The parser goes on where the extension loop stopped. */
  lemma NotFoundReadsOn(buf: bytes, more: bytes)
    requires ParseSni(buf) == Rejected(SniNotFound)
    ensures ParseSni(buf + more) == FindServerName(LeftOver(buf) + more)
  {
    hide ParseSni, FindServerName, Missing;
    ShortIsNoHello(buf);
    AnswerBecomes(buf, more);
  }

  lemma ShortIsNoHello(buf: bytes)
    ensures |buf| < 5 ==> ParseSni(buf) == Rejected(NotClientHello)
  {
  }

  /** Whole extensions of other types without data, and less than a header after them. */
  predicate OnlyEmptyExtensions(r: bytes) {
    |r| < 4 || (U16(r) != SERVER_NAME && U16(r[2..]) == 0 && OnlyEmptyExtensions(r[4..]))
  }

  /** Exactly in such bytes does the loop find nothing however many of them have arrived. */
  lemma {:induction false} NothingOnTheWay(r: bytes, m: nat)
    requires OnlyEmptyExtensions(r) && m <= |r|
    ensures FindServerName(r[..m]) == Rejected(SniNotFound)
  {
    hide U16;
    if m >= 4 {
      HeaderExtended(r[..m], r[m..]);
      assert r[..m] + r[m..] == r && r[..m][4..] == r[4..][..m - 4];
      NothingOnTheWay(r[4..], m - 4);
    }
  }

  lemma {:induction false} SomethingOnTheWay(r: bytes) returns (m: nat)
    requires !OnlyEmptyExtensions(r)
    ensures 4 <= m <= |r| && FindServerName(r[..m]) != Rejected(SniNotFound)
  {
    hide U16;
    m := 4;
    HeaderExtended(r[..4], r[4..]);
    assert r[..4] + r[4..] == r;
    if U16(r) != SERVER_NAME && U16(r[2..]) == 0 {
      m := SomethingOnTheWay(r[4..]);
      m := m + 4;
      HeaderExtended(r[..m], r[m..]);
      assert r[..m] + r[m..] == r && r[..m][4..] == r[4..][..m - 4];
    }
  }

  /** The answer is the same at each cut of `tail`. */
  ghost predicate SameAtEveryCut(buf: bytes, tail: bytes) {
    forall n :: 0 <= n <= |tail| ==> ParseSni(buf + tail[..n]) == ParseSni(buf)
  }

  /**
   * When it does not matter how many of the bytes in `tail` have arrived: if the answer is final, if they are
   * fewer than the parser is short of, or if no name was found and they make up only empty extensions.
   */
  lemma SameAtEveryCutExactlyWhen(buf: bytes, tail: bytes)
    requires |buf| >= 5
    ensures SameAtEveryCut(buf, tail) <==>
      || IsFinal(ParseSni(buf))
      || |tail| < Missing(buf)
      || (ParseSni(buf) == Rejected(SniNotFound) && OnlyEmptyExtensions(LeftOver(buf) + tail))
  {
    hide ParseSni, FindServerName, Missing, OnlyEmptyExtensions, LeftOver;
    AnswerBecomes(buf, []);
    if Missing(buf) == 0 || |tail| < Missing(buf) {
      forall n | 0 <= n <= |tail|
        ensures ParseSni(buf + tail[..n]) == ParseSni(buf)
      {
        AnswerBecomes(buf, tail[..n]);
      }
    } else if ParseSni(buf) == Rejected(SniNotFound) {
      NotFoundAtCuts(buf, tail);
    } else {
      AnswerBecomes(buf, tail[..Missing(buf)]);
    }
  }

  lemma NotFoundAtCuts(buf: bytes, tail: bytes)
    requires ParseSni(buf) == Rejected(SniNotFound)
    ensures SameAtEveryCut(buf, tail) <==> OnlyEmptyExtensions(LeftOver(buf) + tail)
  {
    hide ParseSni, FindServerName, OnlyEmptyExtensions, LeftOver;
    var left := LeftOver(buf);
    var r := left + tail;
    forall n | 0 <= n <= |tail|
      ensures ParseSni(buf + tail[..n]) == FindServerName(r[..|left| + n])
    {
      NotFoundReadsOn(buf, tail[..n]);
      assert r[..|left| + n] == left + tail[..n];
    }
    if OnlyEmptyExtensions(r) {
      forall n | 0 <= n <= |tail|
        ensures ParseSni(buf + tail[..n]) == ParseSni(buf)
      {
        NothingOnTheWay(r, |left| + n);
      }
    } else {
      var m := SomethingOnTheWay(r);
      assert ParseSni(buf + tail[..m - |left|]) == FindServerName(r[..m]);
    }
  }

  /** `n` bytes of ones, which no extension of other types without data starts with. */
  function Ones(n: nat): (b: bytes)
    ensures |b| == n
  {
    seq(n, _ => 255)
  }

  /** An answer that is not final lasts for all continuations exactly while they are too short. */
  lemma AnswerLastsExactlyWhile(buf: bytes, k: nat)
    requires |buf| >= 5
    ensures (forall more: bytes :: |more| <= k ==> ParseSni(buf + more) == ParseSni(buf)) <==>
      IsFinal(ParseSni(buf)) || k < Missing(buf)
  {
    hide ParseSni, Missing, LeftOver;
    AnswerBecomes(buf, []);
    if IsFinal(ParseSni(buf)) || k < Missing(buf) {
      forall more: bytes | |more| <= k
        ensures ParseSni(buf + more) == ParseSni(buf)
      {
        AnswerBecomes(buf, more);
      }
    } else {
      var tail := Ones(Missing(buf));
      SameAtEveryCutExactlyWhen(buf, tail);
      if ParseSni(buf) == Rejected(SniNotFound) {
        OnesAreNotEmpty(buf);
      }
      var n :| 0 <= n <= |tail| && ParseSni(buf + tail[..n]) != ParseSni(buf);
      assert |tail[..n]| <= k;
    }
  }

  lemma OnesAreNotEmpty(buf: bytes)
    requires ParseSni(buf) == Rejected(SniNotFound)
    ensures |buf| >= 5 && !OnlyEmptyExtensions(LeftOver(buf) + Ones(Missing(buf)))
  {
    ShortIsNoHello(buf);
    var r := LeftOver(buf) + Ones(Missing(buf));
    assert r[2..][1] == 255;
  }

  // ---------------------------------------------------------------- well-formed hellos

  datatype Extension = Extension(etype: nat, data: bytes) {
    predicate Valid() {
      etype < 0x1_0000 && |data| < 0x1_0000
    }

    function Encode(): bytes
      requires Valid()
    {
      Put16(etype) + Put16(|data|) + data
    }
  }

  predicate AllValid(exts: seq<Extension>) {
    forall i :: 0 <= i < |exts| ==> exts[i].Valid()
  }

  function EncodeExtensions(exts: seq<Extension>): bytes
    requires AllValid(exts)
  {
    if exts == [] then [] else exts[0].Encode() + EncodeExtensions(exts[1..])
  }

  /** The data of a server_name extension whose first entry is a host name. */
  predicate NamesHost(data: bytes, name: bytes) {
    && |data| >= 5 + |name|
    && data[2] == HOST_NAME && U16(data[3..]) == |name| && data[5..5 + |name|] == name
  }

  datatype ClientHello = ClientHello(
    minor: byte, msgType: byte, version: bytes, random: bytes, session: bytes, ciphers: bytes,
    compression: bytes, extensions: seq<Extension>)
  {
    predicate Valid() {
      && |version| == 2 && |random| == 32 && |session| < 256 && |ciphers| < 0x1_0000 && |compression| < 256
      && AllValid(extensions) && |EncodeExtensions(extensions)| < 0x1_0000
      && 4 + |Body()| < 0x1_0000
    }

    function Tail(): bytes
      requires AllValid(extensions) && |EncodeExtensions(extensions)| < 0x1_0000
    {
      Put16(|EncodeExtensions(extensions)|) + EncodeExtensions(extensions)
    }

    function Body(): bytes
      requires |session| < 256 && |ciphers| < 0x1_0000 && |compression| < 256
      requires AllValid(extensions) && |EncodeExtensions(extensions)| < 0x1_0000
    {
      version + random
      + (([|session|] + session)
         + ((Put16(|ciphers|) + ciphers)
            + (([|compression|] + compression) + Tail())))
    }

    /** One record with one ClientHello. */
    function Encode(): bytes
      requires Valid()
    {
      [HANDSHAKE, 0x03, minor] + Put16(4 + |Body()|) + [msgType] + Put24(|Body()|) + Body()
    }
  }

  lemma ExtensionStep(e: Extension, rest: bytes)
    requires e.Valid()
    ensures var r := e.Encode() + rest;
      && |r| >= 4 + |e.data|
      && U16(r) == e.etype && U16(r[2..]) == |e.data|
      && r[4..] == e.data + rest && r[4 + |e.data|..] == rest
  {
    var r := e.Encode() + rest;
    U16Extended(Put16(e.etype), Put16(|e.data|) + e.data + rest);
    assert r == Put16(e.etype) + (Put16(|e.data|) + e.data + rest);
    U16Extended(Put16(|e.data|), e.data + rest);
    assert r[2..] == Put16(|e.data|) + (e.data + rest);
  }

  /** An encoded extension at the front of the loop's input. */
  lemma ExtensionFound(e: Extension, rest: bytes)
    requires e.Valid()
    ensures FindServerName(e.Encode() + rest) ==
      if e.etype == SERVER_NAME then ReadName(e.data + rest) else FindServerName(rest)
  {
    hide U16, ReadName, Extension.Encode;
    ExtensionStep(e, rest);
  }

  lemma NameRead(d: bytes, name: bytes, rest: bytes)
    requires NamesHost(d, name)
    ensures ReadName(d + rest) == Name(name)
  {
    hide U16;
    U16Extended(d[3..], rest);
    assert (d + rest)[3..] == d[3..] + rest;
    assert (d + rest)[5..5 + |name|] == d[5..5 + |name|];
  }

  /** The first server_name extension decides; without one, what follows the extensions does. */
  lemma {:induction false} FindInExtensions(exts: seq<Extension>, k: nat, name: bytes, rest: bytes)
    requires AllValid(exts) && k <= |exts|
    requires forall i :: 0 <= i < k ==> exts[i].etype != SERVER_NAME
    requires k < |exts| ==> exts[k].etype == SERVER_NAME && NamesHost(exts[k].data, name)
    ensures k < |exts| ==> FindServerName(EncodeExtensions(exts) + rest) == Name(name)
    ensures k == |exts| ==> FindServerName(EncodeExtensions(exts) + rest) == FindServerName(rest)
    decreases |exts|
  {
    hide FindServerName, ReadName, NamesHost, Extension.Encode, Extension.Valid;
    if exts == [] {
      assert EncodeExtensions(exts) + rest == rest;
    } else {
      var tail := EncodeExtensions(exts[1..]) + rest;
      assert EncodeExtensions(exts) + rest == exts[0].Encode() + tail;
      ExtensionFound(exts[0], tail);
      if k > 0 {
        FindInExtensions(exts[1..], k - 1, name, rest);
      } else {
        NameRead(exts[0].data, name, tail);
      }
    }
  }

  /** A well-formed hello is read up to its extensions, whatever follows it. */
  lemma HelloReachesExtensions(h: ClientHello, rest: bytes)
    requires h.Valid()
    ensures ParseSni(h.Encode() + rest) == FindServerName(EncodeExtensions(h.extensions) + rest)
  {
    hide FindServerName, EncodeExtensions, FromSession, Put16, U16, ClientHello.Encode, ClientHello.Body;
    var exts := EncodeExtensions(h.extensions);
    var r4 := Put16(|exts|) + (exts + rest);
    var r3 := ([|h.compression|] + h.compression) + r4;
    var r2 := (Put16(|h.ciphers|) + h.ciphers) + r3;
    HelloReachesSession(h, rest);
    SessionReachesCiphers(h.session, r2);
    CiphersReachExtensions(h, r4);
    U16Extended(Put16(|exts|), exts + rest);
    assert r4[2..] == exts + rest;
  }

  /** What follows the random bytes of a hello. */
  function AfterRandom(h: ClientHello, rest: bytes): bytes
    requires h.Valid()
  {
    var exts := EncodeExtensions(h.extensions);
    ([|h.session|] + h.session)
    + ((Put16(|h.ciphers|) + h.ciphers) + (([|h.compression|] + h.compression) + (Put16(|exts|) + (exts + rest))))
  }

  lemma HelloReachesSession(h: ClientHello, rest: bytes)
    requires h.Valid()
    ensures ParseSni(h.Encode() + rest) == FromSession(AfterRandom(h, rest))
  {
    hide EncodeExtensions, FromSession, Put16;
    var buf := h.Encode() + rest;
    var front := [HANDSHAKE, 0x03, h.minor] + Put16(4 + |h.Body()|) + [h.msgType] + Put24(|h.Body()|);
    assert buf == (front + h.version + h.random) + AfterRandom(h, rest);
    assert buf[43..] == AfterRandom(h, rest);
    assert buf[3..5] == Put16(4 + |h.Body()|);
    assert buf[3..] == buf[3..5] + buf[5..];
    U16Extended(buf[3..5], buf[5..]);
  }

  lemma SessionReachesCiphers(session: bytes, r2: bytes)
    requires |session| < 256 && r2 != []
    ensures FromSession(([|session|] + session) + r2) == FromCiphers(r2)
  {
    hide FromCiphers;
    assert (([|session|] + session) + r2)[1 + |session|..] == r2;
  }

  lemma CiphersReachExtensions(h: ClientHello, r4: bytes)
    requires |h.ciphers| < 0x1_0000 && |h.compression| < 256 && r4 != []
    ensures FromCiphers((Put16(|h.ciphers|) + h.ciphers) + (([|h.compression|] + h.compression) + r4))
         == FromExtensionsLength(r4)
  {
    hide FromExtensionsLength;
    var r3 := ([|h.compression|] + h.compression) + r4;
    var r2 := (Put16(|h.ciphers|) + h.ciphers) + r3;
    assert r2 == Put16(|h.ciphers|) + (h.ciphers + r3);
    U16Extended(Put16(|h.ciphers|), h.ciphers + r3);
    assert r2[2 + |h.ciphers|..] == r3;
    assert r3[1 + |h.compression|..] == r4;
  }

  /** The host name of a well-formed hello is returned wherever its extension stands and whatever follows. */
  lemma HostNameIsFound(h: ClientHello, k: nat, name: bytes, rest: bytes)
    requires h.Valid() && k < |h.extensions|
    requires forall i :: 0 <= i < k ==> h.extensions[i].etype != SERVER_NAME
    requires h.extensions[k].etype == SERVER_NAME && NamesHost(h.extensions[k].data, name)
    ensures ParseSni(h.Encode() + rest) == Name(name)
  {
    HelloReachesExtensions(h, rest);
    FindInExtensions(h.extensions, k, name, rest);
  }

  /** The bytes of a hello for the host a.io, in a record of version 3.1. */
  lemma HelloOnTheWire(random: bytes, rest: bytes)
    requires |random| == 32
    ensures ParseSni(
      [22, 3, 1, 0, 60, 1, 0, 0, 56, 3, 3] + random
      + [0, 0, 2, 19, 1, 1, 0, 0, 13, 0, 0, 0, 9, 0, 7, 0, 0, 4, 97, 46, 105, 111] + rest) == Name([97, 46, 105, 111])
  {
    hide ParseSni, ClientHello.Encode, NamesHost;
    var e := Extension(SERVER_NAME, [0, 7, 0, 0, 4, 97, 46, 105, 111]);
    ServerNameOnTheWire(e.data);
    var h := ClientHello(1, 1, [3, 3], random, [], [19, 1], [0], [e]);
    OneExtension(e);
    HelloBytes(h);
    HostNameIsFound(h, 0, [97, 46, 105, 111], rest);
  }

  lemma ServerNameOnTheWire(data: bytes)
    requires data == [0, 7, 0, 0, 4, 97, 46, 105, 111]
    ensures NamesHost(data, [97, 46, 105, 111])
  {
    assert data[3..] == [0, 4, 97, 46, 105, 111] && data[5..9] == [97, 46, 105, 111];
  }

  lemma OneExtension(e: Extension)
    requires e == Extension(SERVER_NAME, [0, 7, 0, 0, 4, 97, 46, 105, 111])
    ensures AllValid([e]) && EncodeExtensions([e]) == [0, 0, 0, 9] + e.data
  {
    assert [e][1..] == [] && e.Encode() + [] == e.Encode();
    assert e.Encode() == [0, 0, 0, 9] + e.data;
  }

  ghost predicate IsSmallHello(h: ClientHello) {
    && h.minor == 1 && h.msgType == 1 && h.version == [3, 3] && |h.random| == 32 && h.session == []
    && h.ciphers == [19, 1] && h.compression == [0] && AllValid(h.extensions)
    && EncodeExtensions(h.extensions) == [0, 0, 0, 9] + [0, 7, 0, 0, 4, 97, 46, 105, 111]
  }

  lemma HelloBody(h: ClientHello)
    requires IsSmallHello(h)
    ensures |EncodeExtensions(h.extensions)| == 13
    ensures h.Body() == [3, 3] + h.random
      + [0, 0, 2, 19, 1, 1, 0, 0, 13, 0, 0, 0, 9, 0, 7, 0, 0, 4, 97, 46, 105, 111]
  {
    var tail := [0, 13] + EncodeExtensions(h.extensions);
    assert h.Tail() == tail;
    assert Put16(|h.ciphers|) == [0, 2] && [|h.session|] + h.session == [0] && [|h.compression|] + h.compression == [1, 0];
    assert [0] + (([0, 2] + [19, 1]) + ([1, 0] + tail)) == [0, 0, 2, 19, 1, 1, 0] + tail;
  }

  lemma HelloBytes(h: ClientHello)
    requires IsSmallHello(h)
    ensures h.Valid()
    ensures h.Encode() ==
      [22, 3, 1, 0, 60, 1, 0, 0, 56, 3, 3] + h.random
      + [0, 0, 2, 19, 1, 1, 0, 0, 13, 0, 0, 0, 9, 0, 7, 0, 0, 4, 97, 46, 105, 111]
  {
    hide ClientHello.Body, ClientHello.Tail, EncodeExtensions, AllValid;
    HelloBody(h);
    assert |h.Body()| == 56 && Put16(60) == [0, 60] && Put24(56) == [0, 0, 56];
    assert [HANDSHAKE, 0x03, h.minor] + [0, 60] + [h.msgType] + [0, 0, 56] == [22, 3, 1, 0, 60, 1, 0, 0, 56];
  }

  ghost predicate IsNameless(h: ClientHello) {
    h.Valid() && forall i :: 0 <= i < |h.extensions| ==> h.extensions[i].etype != SERVER_NAME
  }

  /**
   * A well-formed hello without a server_name extension: whatever follows its record is read as if it were
   * further extensions, so less than a header changes nothing.
   */
  lemma NamelessHelloReadsOn(h: ClientHello, rest: bytes)
    requires IsNameless(h)
    ensures ParseSni(h.Encode() + rest) == FindServerName(rest)
    ensures |rest| < 4 ==> ParseSni(h.Encode() + rest) == Rejected(SniNotFound)
  {
    hide ParseSni;
    HelloReachesExtensions(h, rest);
    FindInExtensions(h.extensions, |h.extensions|, [], rest);
  }

  /** Alone in the buffer, such a hello has no name. */
  lemma NoHostNameIsFound(h: ClientHello)
    requires IsNameless(h)
    ensures ParseSni(h.Encode()) == Rejected(SniNotFound)
  {
    assert h.Encode() + [] == h.Encode();
    NamelessHelloReadsOn(h, []);
  }

  /** The data of a server_name extension with one host name. */
  function HostNameData(name: bytes): bytes
    requires |name| < 0x1_0000 - 5
  {
    Put16(|name| + 3) + [HOST_NAME] + Put16(|name|) + name
  }

  lemma HostNameDataNamesHost(name: bytes, more: bytes)
    requires |name| < 0x1_0000 - 5
    ensures |HostNameData(name)| == |name| + 5
    ensures ReadName(HostNameData(name) + more) == Name(name)
  {
    var d := HostNameData(name) + more;
    assert d[3..] == Put16(|name|) + (name + more);
    U16Extended(Put16(|name|), name + more);
    assert d[5..5 + |name|] == name;
  }

  /** A header, and at least as much as it announces behind it. */
  lemma LoopStep(header: bytes, data: bytes)
    requires |header| == 4 && U16(header[2..]) <= |data|
    ensures FindServerName(header + data) ==
      if U16(header) == SERVER_NAME then ReadName(data) else FindServerName(data[U16(header[2..])..])
  {
    hide U16, ReadName;
    HeaderExtended(header, data);
    assert (header + data)[4..] == data;
    assert (header + data)[4 + U16(header[2..])..] == data[U16(header[2..])..];
  }

  lemma ExtensionNames(name: bytes)
    requires |name| < 0x1_0000 - 5
    ensures |HostNameData(name)| == |name| + 5
    ensures FindServerName(Extension(SERVER_NAME, HostNameData(name)).Encode()) == Name(name)
  {
    hide U16, Put16, ReadName, HostNameData, FindServerName;
    var data := HostNameData(name);
    HostNameDataNamesHost(name, []);
    assert data + [] == data;
    var header := Put16(SERVER_NAME) + Put16(|data|);
    U16Extended(Put16(SERVER_NAME), Put16(|data|));
    assert header[2..] == Put16(|data|);
    LoopStep(header, data);
  }

  /** Bytes after which any name follows what the loop left: the rest of a header and its data, then the name. */
  lemma AnyNameCanFollow(left: bytes, name: bytes) returns (more: bytes)
    requires |left| < 4 && |name| < 0x1_0000 - 5
    ensures FindServerName(left + more) == Name(name)
  {
    hide U16, Put16, ReadName, HostNameData, FindServerName, Extension.Encode;
    var rest: bytes := seq(4 - |left|, _ => 0);
    var header := left + rest;
    var padding: bytes := seq(U16(header[2..]), _ => 0);
    var data := HostNameData(name) + padding;
    if U16(header) == SERVER_NAME {
      HostNameDataNamesHost(name, padding);
    } else {
      ExtensionNames(name);
      data := padding + Extension(SERVER_NAME, HostNameData(name)).Encode();
      assert data[|padding|..] == Extension(SERVER_NAME, HostNameData(name)).Encode();
    }
    LoopStep(header, data);
    more := rest + data;
    assert left + more == header + data;
  }

  /** The answer "not found" is never final: any buffer that gives it can be continued to give any name. */
  lemma NotFoundIsNotStable(buf: bytes, name: bytes) returns (more: bytes)
    requires ParseSni(buf) == Rejected(SniNotFound) && |name| < 0x1_0000 - 5
    ensures ParseSni(buf + more) == Name(name)
  {
    hide ParseSni, FindServerName, LeftOver;
    more := AnyNameCanFollow(LeftOver(buf), name);
    NotFoundReadsOn(buf, more);
  }
}
