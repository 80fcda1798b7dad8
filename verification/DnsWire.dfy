/**
 * The DNS messages of the dialer-based resolver (processor/dns/dialer_resolver.go; section 4.1 of RFC 1035).
 */
module DnsWire {
  import opened Wrappers
  import opened Bytes

  const BUFFER_SIZE := 512
  const HEADER_SIZE := 12
  const MAX_LABEL := 63
  const DOT: byte := 46
  const TYPE_A := 1
  const TYPE_AAAA := 28
  const CLASS_IN := 1

  // ---------------------------------------------------------------- building a query

  /** strings.Split at dots: always at least one part. */
  function Split(s: bytes): (parts: seq<bytes>)
    ensures |parts| >= 1
  {
    if s == [] then [[]]
    else
      var rest := Split(s[1..]);
      if s[0] == DOT then [[]] + rest else [[s[0]] + rest[0]] + rest[1..]
  }

  /** The part of a label that is sent. */
  function Cut(part: bytes): (l: bytes)
    ensures |l| <= MAX_LABEL && |l| <= |part|
  {
    if |part| > MAX_LABEL then part[..MAX_LABEL] else part
  }

  /** Empty labels are skipped, long ones cut off. */
  function EncodeLabel(part: bytes): bytes {
    if part == [] then [] else [|Cut(part)|] + Cut(part)
  }

  function EncodeLabels(labels: seq<bytes>): bytes {
    if labels == [] then [] else EncodeLabel(labels[0]) + EncodeLabels(labels[1..])
  }

  /** A query with one question. */
  function Query(domain: bytes, isA: bool, txId: nat): bytes
    requires txId < 0x1_0000
  {
    Put16(txId) + Put16(0x0100) + Put16(1) + Put16(0) + Put16(0) + Put16(0)
    + EncodeLabels(Split(domain)) + [0]
    + Put16(if isA then TYPE_A else TYPE_AAAA) + Put16(CLASS_IN)
  }

  method PutUint16(buf: array<byte>, pos: nat, n: nat)
    requires pos + 2 <= buf.Length && n < 0x1_0000
    modifies buf
    ensures buf[..] == old(buf[..pos]) + Put16(n) + old(buf[pos + 2..])
  {
    buf[pos] := n / 256;
    buf[pos + 1] := n % 256;
  }

  method CopyLabel(buf: array<byte>, pos: nat, part: bytes)
    requires pos + |part| <= buf.Length
    modifies buf
    ensures buf[..pos + |part|] == old(buf[..pos]) + part
  {
    for j := 0 to |part|
      invariant buf[..pos + j] == old(buf[..pos]) + part[..j]
    {
      buf[pos + j] := part[j];
    }
    assert part[..|part|] == part;
  }

  /**
   * Writes a query into a buffer of 512 bytes; nothing when it does not fit, where the code writes out of
   * bounds and panics. A label that does not fit is cut off by copy, and the write after it is out of bounds.
   */
  method BuildDnsQuery(domain: bytes, isA: bool, txId: nat) returns (r: Option<bytes>)
    requires txId < 0x1_0000
    ensures r.Some? <==> |Query(domain, isA, txId)| <= BUFFER_SIZE
    ensures r.Some? ==> r.value == Query(domain, isA, txId)
  {
    hide Split, EncodeLabel, Put16;
    var buf := new byte[BUFFER_SIZE];
    PutUint16(buf, 0, txId);
    PutUint16(buf, 2, 0x0100);
    PutUint16(buf, 4, 1);
    PutUint16(buf, 6, 0);
    PutUint16(buf, 8, 0);
    PutUint16(buf, 10, 0);
    var pos := HEADER_SIZE;
    ghost var header := buf[..pos];
    assert header == Put16(txId) + Put16(0x0100) + Put16(1) + Put16(0) + Put16(0) + Put16(0);
    var labels := Split(domain);
    ghost var name := EncodeLabels(labels);
    pos, r := PutLabels(buf, pos, labels);
    if r.None? {
      return;
    }
    if pos >= BUFFER_SIZE {
      return None;
    }
    buf[pos] := 0;
    pos := pos + 1;
    assert buf[..pos] == header + name + [0];
    if pos + 2 > BUFFER_SIZE {
      return None;
    }
    PutUint16(buf, pos, if isA then TYPE_A else TYPE_AAAA);
    pos := pos + 2;
    if pos + 2 > BUFFER_SIZE {
      return None;
    }
    PutUint16(buf, pos, CLASS_IN);
    pos := pos + 2;
    return Some(buf[..pos]);
  }

  /** The loop over the labels of the name. */
  method PutLabels(buf: array<byte>, from: nat, labels: seq<bytes>) returns (pos: nat, r: Option<bytes>)
    requires from <= buf.Length
    modifies buf
    ensures r.Some? <==> from + |EncodeLabels(labels)| <= buf.Length
    ensures r.Some? ==> pos == from + |EncodeLabels(labels)| && buf[..pos] == old(buf[..from]) + EncodeLabels(labels)
  {
    hide EncodeLabels, EncodeLabel;
    pos := from;
    var i := 0;
    ghost var before := buf[..from];
    ghost var written: bytes := [];
    while i < |labels|
      invariant i <= |labels| && pos <= buf.Length
      invariant EncodeLabels(labels) == written + EncodeLabels(labels[i..])
      invariant pos == from + |written| && buf[..pos] == before + written
    {
      var part := labels[i];
      LabelsStep(labels[i..], written);
      assert labels[i..][1..] == labels[i + 1..];
      i := i + 1;
      written := written + EncodeLabel(part);
      pos, r := PutLabel(buf, pos, part);
      if r.None? {
        return;
      }
      assert before + written == before + (written[..|written| - |EncodeLabel(part)|] + EncodeLabel(part));
    }
    assert labels[i..] == [];
    LabelsStep([], written);
    return pos, Some([]);
  }

  lemma LabelsStep(labels: seq<bytes>, written: bytes)
    ensures labels == [] ==> written + EncodeLabels(labels) == written
    ensures labels != [] ==>
      written + EncodeLabels(labels) == (written + EncodeLabel(labels[0])) + EncodeLabels(labels[1..])
  {
  }

  /** One label with its length byte, or nothing for an empty label. */
  method PutLabel(buf: array<byte>, from: nat, whole: bytes) returns (pos: nat, r: Option<bytes>)
    requires from <= buf.Length
    modifies buf
    ensures r.Some? <==> from + |EncodeLabel(whole)| <= buf.Length
    ensures r.Some? ==> pos == from + |EncodeLabel(whole)| && buf[..pos] == old(buf[..from]) + EncodeLabel(whole)
  {
    pos := from;
    if whole == [] {
      return pos, Some([]);
    }
    var part := Cut(whole);
    if pos >= buf.Length || pos + 1 + |part| > buf.Length {
      return pos, None;
    }
    ghost var before := buf[..pos];
    buf[pos] := |part|;
    pos := pos + 1;
    assert buf[..pos] == before + [|part|];
    CopyLabel(buf, pos, part);
    pos := pos + |part|;
    assert (before + [|part|]) + part == before + ([|part|] + part);
    return pos, Some([]);
  }

  /** Encoding adds at most one byte to a name: length bytes take the place of dots. */
  lemma {:induction false} EncodedLength(s: bytes)
    ensures |EncodeLabels(Split(s))| <= |s| + (if Split(s)[0] == [] then 0 else 1)
  {
    if s == [] {
      assert EncodeLabels([[]]) == [] + EncodeLabels([]);
    } else {
      EncodedLength(s[1..]);
      var rest := Split(s[1..]);
      assert EncodeLabels(rest) == EncodeLabel(rest[0]) + EncodeLabels(rest[1..]);
      if s[0] == DOT {
        assert ([[]] + rest)[1..] == rest;
      } else {
        assert Split(s)[1..] == rest[1..];
        EncodedLengthGrows(rest[0], s[0]);
      }
    }
  }

  lemma EncodedLengthGrows(part: bytes, b: byte)
    ensures |EncodeLabel([b] + part)| <= |EncodeLabel(part)| + (if part == [] then 2 else 1)
  {
  }

  /** The bytes a name takes: for each label that is not empty its length byte and at most 63 more. */
  function LabelBytes(labels: seq<bytes>): nat {
    if labels == [] then 0
    else
      var n := |labels[0]|;
      (if n == 0 then 0 else if n > MAX_LABEL then 1 + MAX_LABEL else 1 + n) + LabelBytes(labels[1..])
  }

  lemma {:induction false} EncodedLabelBytes(labels: seq<bytes>)
    ensures |EncodeLabels(labels)| == LabelBytes(labels)
  {
    if labels != [] {
      EncodedLabelBytes(labels[1..]);
    }
  }

  /** A query fits exactly when header, labels, final zero, type and class come to at most 512 bytes. */
  lemma QueryFitsExactlyWhen(domain: bytes, isA: bool, txId: nat)
    requires txId < 0x1_0000
    ensures |Query(domain, isA, txId)| <= BUFFER_SIZE <==> LabelBytes(Split(domain)) <= BUFFER_SIZE - HEADER_SIZE - 5
  {
    hide Split, EncodeLabels;
    EncodedLabelBytes(Split(domain));
  }

  /** `n` labels of `size` bytes. */
  function Labels(n: nat, size: nat): bytes {
    if n == 0 then []
    else seq(size, _ => 97) + (if n == 1 then [] else [DOT]) + Labels(n - 1, size)
  }

  lemma {:induction false} SplitLabel(part: bytes, rest: bytes)
    requires DOT !in part
    ensures Split(part) == [part]
    ensures Split(part + [DOT] + rest) == [part] + Split(rest)
  {
    if part == [] {
      assert [] + [DOT] + rest == [DOT] + rest;
      assert ([DOT] + rest)[1..] == rest;
    } else {
      SplitLabel(part[1..], rest);
      assert (part + [DOT] + rest)[1..] == part[1..] + [DOT] + rest;
      assert [part[0]] + part[1..] == part;
    }
  }

  lemma {:induction false} LabelsBytes(n: nat, size: nat)
    requires n > 0 && 0 < size <= MAX_LABEL
    ensures LabelBytes(Split(Labels(n, size))) == n * (1 + size)
    decreases n
  {
    hide Split;
    var part: bytes := seq(size, _ => 97);
    SplitLabel(part, Labels(n - 1, size));
    if n == 1 {
      assert part + [] + [] == part;
      assert [part][1..] == [];
    } else {
      LabelsBytes(n - 1, size);
      var later := Split(Labels(n - 1, size));
      assert ([part] + later)[1..] == later;
      assert n * (1 + size) == (n - 1) * (1 + size) + (1 + size);
    }
  }

  /** So the builder goes out of its buffer on eight labels of the greatest length. */
  lemma LongNameDoesNotFit(isA: bool, txId: nat)
    requires txId < 0x1_0000
    ensures |Query(Labels(8, MAX_LABEL), isA, txId)| > BUFFER_SIZE
  {
    hide Split, Labels, Query;
    LabelsBytes(8, MAX_LABEL);
    QueryFitsExactlyWhen(Labels(8, MAX_LABEL), isA, txId);
  }

  /** The labels that a reader finds in front, up to the zero byte. */
  function LabelsIn(s: bytes): seq<bytes> {
    if s == [] || s[0] == 0 then []
    else
      var n := 1 + s[0] as int;
      if |s| < n then [] else [s[1..n]] + LabelsIn(s[n..])
  }

  /** The labels that are sent: those that are not empty, each as far as its first 63 bytes. */
  function Sent(labels: seq<bytes>): seq<bytes> {
    if labels == [] then []
    else
      var l := labels[0];
      (if |l| == 0 then [] else if |l| > 63 then [l[..63]] else [l]) + Sent(labels[1..])
  }

  /** One label in front of others. */
  lemma LabelInFront(l: bytes, later: bytes)
    requires 0 < |l| <= MAX_LABEL
    ensures LabelsIn([|l|] + l + later) == [l] + LabelsIn(later)
  {
    var s := [|l|] + l + later;
    assert s[1..1 + |l|] == l && s[1 + |l|..] == later;
  }

  lemma {:induction false} LabelsReadBack(labels: seq<bytes>, rest: bytes)
    ensures LabelsIn(EncodeLabels(labels) + [0] + rest) == Sent(labels)
    decreases |labels|
  {
    hide LabelsIn;
    if labels == [] {
      NoLabelsIn(rest);
      assert EncodeLabels([]) + [0] + rest == [0] + rest;
    } else {
      LabelsReadBack(labels[1..], rest);
      var later := EncodeLabels(labels[1..]) + [0] + rest;
      assert EncodeLabels(labels) + [0] + rest == EncodeLabel(labels[0]) + later;
      if labels[0] == [] {
        assert [] + later == later;
      } else {
        LabelInFront(Cut(labels[0]), later);
      }
    }
  }

  lemma NoLabelsIn(rest: bytes)
    ensures LabelsIn([0] + rest) == []
  {
  }

  function Joined(parts: seq<bytes>): bytes {
    if parts == [] then [] else if |parts| == 1 then parts[0] else parts[0] + [46] + Joined(parts[1..])
  }

  /** The labels are what stands between the dots of the name. */
  lemma {:induction false} SplitMeaning(s: bytes)
    ensures Joined(Split(s)) == s
    ensures forall i :: 0 <= i < |Split(s)| ==> 46 !in Split(s)[i]
    decreases |s|
  {
    if s != [] {
      SplitMeaning(s[1..]);
      var rest := Split(s[1..]);
      assert Split(s)[1..] == if s[0] == DOT then rest else rest[1..];
      assert s == [s[0]] + s[1..];
      if |rest| > 1 && s[0] != DOT {
        assert Joined(Split(s)) == [s[0]] + rest[0] + [46] + Joined(rest[1..]);
      }
    }
  }

  lemma HeaderBytes(txId: nat)
    requires txId < 0x1_0000
    ensures Put16(0x0100) == [1, 0] && Put16(1) == [0, 1] && Put16(0) == [0, 0] && Put16(28) == [0, 28]
    ensures Put16(txId)[0] as int * 256 + Put16(txId)[1] as int == txId
  {
  }

  /**
   * A query says what was asked: its ID, recursion desired in the flags, one question and nothing else; behind them
   * the labels of the name as far as they are sent, the type, 1 or 28, and the class.
   */
  lemma QueryReadsBack(domain: bytes, isA: bool, txId: nat)
    requires txId < 0x1_0000
    ensures var q := Query(domain, isA, txId);
      && |q| >= 17
      && q[0] as int * 256 + q[1] as int == txId
      && q[2..12] == [1, 0, 0, 1, 0, 0, 0, 0, 0, 0]
      && LabelsIn(q[12..]) == Sent(Split(domain))
      && q[|q| - 5..] == [0, 0, if isA then 1 else 28, 0, 1]
  {
    hide Split, EncodeLabels, LabelsIn, Sent, Put16, U16;
    HeaderBytes(txId);
    var name := EncodeLabels(Split(domain));
    var tail := Put16(if isA then TYPE_A else TYPE_AAAA) + Put16(CLASS_IN);
    var header := Put16(txId) + Put16(0x0100) + Put16(1) + Put16(0) + Put16(0) + Put16(0);
    var q := Query(domain, isA, txId);
    assert q == header + (name + [0] + tail);
    assert q[12..] == name + [0] + tail;
    LabelsReadBack(Split(domain), tail);
    assert q[|q| - 5..] == [0] + tail;
    assert q[..12] == header && q[2..12] == header[2..];
  }

  // ---------------------------------------------------------------- parsing a response

  datatype Ip = V4(octets: bytes) | V6(octets: bytes)

  datatype DnsError = TooShort | ServerError(rcode: nat) | NotAResponse | NoAnswers | Malformed | NoAddresses

  datatype DnsResult = Addresses(ips: seq<Ip>) | Failed(error: DnsError)

  /** What is left of a buffer from a position that may lie behind its end. */
  function From(s: bytes, pos: nat): bytes {
    if pos >= |s| then [] else s[pos..]
  }

  /** Over the labels of a question's name, up to the zero byte or the end, or past a pointer. */
  function SkipQuestionLabels(s: bytes): bytes
    decreases |s|
  {
    if s == [] || s[0] == 0 then s
    else if s[0] >= 0xC0 then From(s, 2)
    else SkipQuestionLabels(From(s, s[0] as int + 1))
  }

  function SkipZero(s: bytes): bytes {
    if s != [] && s[0] == 0 then s[1..] else s
  }

  /** What follows a question's name. */
  function SkipQuestionName(s: bytes): bytes {
    SkipZero(SkipQuestionLabels(s))
  }

  /** Over the labels of a plain name, up to the zero byte or the end. */
  function SkipPlainLabels(s: bytes): bytes
    decreases |s|
  {
    if s == [] || s[0] == 0 then s else SkipPlainLabels(From(s, s[0] as int + 1))
  }

  /** What follows a record's name, which is a pointer or plain. */
  function SkipRecordName(s: bytes): bytes {
    if s == [] then []
    else if s[0] >= 0xC0 then From(s, 2)
    else SkipZero(SkipPlainLabels(s))
  }

  /** The list after one more record: the preference decides, but the first address always gets in. */
  function Collect(ips: seq<Ip>, rtype: nat, rdata: bytes, preferIPv4: bool): seq<Ip> {
    if rtype == TYPE_A && |rdata| == 4 then
      (if preferIPv4 || ips == [] then ips + [V4(rdata)] else ips)
    else if rtype == TYPE_AAAA && |rdata| == 16 then
      (if !preferIPv4 || ips == [] then ips + [V6(rdata)] else ips)
    else ips
  }

  /** The answer loop: at most `count` records, as far as they are complete. */
  function ParseAnswers(s: bytes, count: nat, preferIPv4: bool, ips: seq<Ip>): seq<Ip>
    decreases count
  {
    if count == 0 || s == [] then ips
    else
      var t := SkipRecordName(s);
      if |t| < 10 then ips
      else
        var len := U16(t[8..]);
        if len > |t| - 10 then ips
        else ParseAnswers(t[10 + len..], count - 1, preferIPv4, Collect(ips, U16(t), t[10..10 + len], preferIPv4))
  }

  function ParseResponse(r: bytes, preferIPv4: bool): DnsResult {
    if |r| < HEADER_SIZE then Failed(TooShort)
    else
      var flags := U16(r[2..]);
      if flags % 16 != 0 then Failed(ServerError(flags % 16))
      else if flags < 0x8000 then Failed(NotAResponse)
      else if U16(r[6..]) == 0 then Failed(NoAnswers)
      else
        var s := From(SkipQuestionName(r[HEADER_SIZE..]), 4);
        if s == [] then Failed(Malformed)
        else
          var ips := ParseAnswers(s, U16(r[6..]), preferIPv4, []);
          if ips == [] then Failed(NoAddresses) else Addresses(ips)
  }

  lemma FromFrom(s: bytes, a: nat, b: nat)
    ensures From(From(s, a), b) == From(s, a + b)
  {
  }

  lemma QuestionStep(s: bytes)
    ensures SkipQuestionLabels(s) ==
      if s == [] || s[0] == 0 then s
      else if s[0] >= 0xC0 then From(s, 2)
      else SkipQuestionLabels(From(s, s[0] as int + 1))
  {
    hide From;
  }

  /** The question-skipping loop; the position may end up behind the end of the message. */
  method SkipQuestion(r: bytes, from: nat) returns (pos: nat)
    requires from <= |r|
    ensures From(r, pos) == From(SkipQuestionName(From(r, from)), 4)
  {
    hide SkipQuestionLabels, SkipZero;
    pos := from;
    ghost var labels := SkipQuestionLabels(From(r, from));
    while pos < |r| && r[pos] != 0
      invariant labels == SkipQuestionLabels(From(r, pos))
      decreases |r| - pos
    {
      QuestionStep(From(r, pos));
      if r[pos] >= 0xC0 {
        FromFrom(r, pos, 2);
        pos := pos + 2;
        AfterPointer(r, pos, labels);
        pos := if pos < |r| && r[pos] == 0 then pos + 5 else pos + 4;
        return;
      }
      FromFrom(r, pos, r[pos] as int + 1);
      pos := pos + r[pos] as int + 1;
    }
    QuestionStep(From(r, pos));
    AfterPointer(r, pos, labels);
    pos := if pos < |r| && r[pos] == 0 then pos + 5 else pos + 4;
  }

  lemma AfterPointer(r: bytes, pos: nat, labels: bytes)
    requires labels == From(r, pos)
    ensures From(SkipZero(labels), 4) == From(r, if pos < |r| && r[pos] == 0 then pos + 5 else pos + 4)
  {
    FromFrom(r, pos, 1);
    FromFrom(r, pos, 4);
    FromFrom(r, pos + 1, 4);
  }

  lemma PlainStep(s: bytes)
    ensures s == [] || s[0] == 0 ==> SkipPlainLabels(s) == s
    ensures s != [] && s[0] != 0 ==> SkipPlainLabels(s) == SkipPlainLabels(From(s, s[0] as int + 1))
  {
  }

  /** Over a record's name. */
  method SkipName(r: bytes, from: nat) returns (pos: nat)
    requires from < |r|
    ensures From(r, pos) == SkipRecordName(From(r, from))
  {
    hide SkipPlainLabels;
    pos := from;
    if r[pos] >= 0xC0 {
      FromFrom(r, pos, 2);
      return pos + 2;
    }
    ghost var labels := SkipPlainLabels(From(r, from));
    while pos < |r| && r[pos] != 0
      invariant labels == SkipPlainLabels(From(r, pos))
      decreases |r| - pos
    {
      PlainStep(From(r, pos));
      FromFrom(r, pos, r[pos] as int + 1);
      pos := pos + r[pos] as int + 1;
    }
    PlainStep(From(r, pos));
    if pos < |r| {
      FromFrom(r, pos, 1);
      pos := pos + 1;
    }
  }

  /** Parses a response; that it verifies means that every read is in bounds and the loops end. */
  method ParseDnsResponse(r: bytes, preferIPv4: bool) returns (result: DnsResult)
    ensures result == ParseResponse(r, preferIPv4)
  {
    hide U16, SkipQuestionName, SkipRecordName, Collect;
    if |r| < HEADER_SIZE {
      return Failed(TooShort);
    }
    var flags := U16(r[2..]);
    var rcode := flags % 16;
    if rcode != 0 {
      return Failed(ServerError(rcode));
    }
    if flags < 0x8000 {
      return Failed(NotAResponse);
    }
    var answerCount := U16(r[6..]);
    if answerCount == 0 {
      return Failed(NoAnswers);
    }
    var pos := SkipQuestion(r, HEADER_SIZE);
    assert From(r, HEADER_SIZE) == r[HEADER_SIZE..];
    if pos >= |r| {
      return Failed(Malformed);
    }
    var ips := ParseRecords(r, pos, answerCount, preferIPv4);
    if |ips| == 0 {
      return Failed(NoAddresses);
    }
    return Addresses(ips);
  }

  /** One turn of the answer loop: the record at `pos`, whose name ends at `fields`. */
  lemma AnswersStep(r: bytes, pos: nat, fields: nat, count: nat, preferIPv4: bool, ips: seq<Ip>)
    requires pos < |r| && count > 0 && From(r, fields) == SkipRecordName(From(r, pos))
    ensures fields + 10 > |r| ==> ParseAnswers(From(r, pos), count, preferIPv4, ips) == ips
    ensures fields + 10 <= |r| ==>
      var data := fields + 10;
      var len := U16(r[fields + 8..]);
      ParseAnswers(From(r, pos), count, preferIPv4, ips) ==
        if data + len > |r| then ips
        else ParseAnswers(From(r, data + len), count - 1, preferIPv4,
                          Collect(ips, U16(r[fields..]), r[data..data + len], preferIPv4))
  {
    hide U16, SkipRecordName, Collect;
    if fields + 10 <= |r| {
      FieldsAt(r, fields, U16(r[fields + 8..]));
    }
  }

  /** The fields of a record, seen from its name's end and from the start of the message. */
  lemma FieldsAt(r: bytes, fields: nat, len: nat)
    requires fields + 10 <= |r|
    ensures var t := From(r, fields);
      && |t| == |r| - fields && t == r[fields..] && t[8..] == r[fields + 8..]
      && (fields + 10 + len <= |r| ==>
            t[10..10 + len] == r[fields + 10..fields + 10 + len] && t[10 + len..] == From(r, fields + 10 + len))
  {
    var t := From(r, fields);
    assert t[8..] == r[fields + 8..];
    if fields + 10 + len <= |r| {
      var a, b := t[10..10 + len], r[fields + 10..fields + 10 + len];
      assert |a| == |b| && forall k :: 0 <= k < len ==> a[k] == r[fields + 10 + k] == b[k];
      assert t[10 + len..] == r[fields + 10 + len..];
    }
  }

  /** The loop over the answer records. */
  method ParseRecords(r: bytes, from: nat, answerCount: nat, preferIPv4: bool) returns (ips: seq<Ip>)
    ensures ips == ParseAnswers(From(r, from), answerCount, preferIPv4, [])
  {
    hide U16, SkipRecordName, ParseAnswers;
    var pos: nat := from;
    ips := [];
    var i := 0;
    ghost var all := ParseAnswers(From(r, from), answerCount, preferIPv4, []);
    while i < answerCount && pos < |r|
      invariant i <= answerCount
      invariant all == ParseAnswers(From(r, pos), answerCount - i, preferIPv4, ips)
    {
      ghost var start := pos;
      pos := SkipName(r, pos);
      AnswersStep(r, start, pos, answerCount - i, preferIPv4, ips);
      if pos + 10 > |r| {
        return;
      }
      var recordType := U16(r[pos..]);
      pos := pos + 8;
      var dataLen := U16(r[pos..]);
      pos := pos + 2;
      if pos + dataLen > |r| {
        return;
      }
      if recordType == TYPE_A && dataLen == 4 {
        if preferIPv4 || |ips| == 0 {
          ips := ips + [V4(r[pos..pos + 4])];
        }
      } else if recordType == TYPE_AAAA && dataLen == 16 {
        if !preferIPv4 || |ips| == 0 {
          ips := ips + [V6(r[pos..pos + 16])];
        }
      }
      pos := pos + dataLen;
      i := i + 1;
    }
    AnswersEnd(From(r, pos), answerCount - i, preferIPv4, ips);
  }

  lemma AnswersEnd(s: bytes, count: nat, preferIPv4: bool, ips: seq<Ip>)
    requires count == 0 || s == []
    ensures ParseAnswers(s, count, preferIPv4, ips) == ips
  {
  }

  // ---------------------------------------------------------------- well-formed responses

  datatype Name = Plain(labels: seq<bytes>) | Pointer(high: byte, low: byte)

  predicate ValidLabels(labels: seq<bytes>) {
    forall i :: 0 <= i < |labels| ==> 0 < |labels[i]| <= MAX_LABEL
  }

  function EncodePlain(labels: seq<bytes>): bytes
    requires ValidLabels(labels)
  {
    if labels == [] then [0] else ([|labels[0]|] + labels[0]) + EncodePlain(labels[1..])
  }

  datatype Record = Record(name: Name, rtype: nat, class_: nat, ttl: nat, rdata: bytes) {
    predicate Valid() {
      && (if name.Plain? then ValidLabels(name.labels) else name.high >= 0xC0)
      && rtype < 0x1_0000 && class_ < 0x1_0000 && ttl < 0x1_0000_0000 && |rdata| < 0x1_0000
    }

    function Encode(): bytes
      requires Valid()
    {
      (if name.Plain? then EncodePlain(name.labels) else [name.high, name.low]) + Fields()
    }

    /** The record's bytes behind its name. */
    function Fields(): bytes
      requires Valid()
    {
      Put16(rtype) + (Put16(class_) + Put32(ttl)) + Put16(|rdata|) + rdata
    }
  }

  predicate AllValid(records: seq<Record>) {
    forall i :: 0 <= i < |records| ==> records[i].Valid()
  }

  function EncodeRecords(records: seq<Record>): bytes
    requires AllValid(records)
  {
    if records == [] then [] else records[0].Encode() + EncodeRecords(records[1..])
  }

  /** A successful response with one plain question. */
  datatype Response = Response(
    id: nat, flags: nat, question: seq<bytes>, qtype: nat, qclass: nat, answers: seq<Record>, authority: nat, additional: nat)
  {
    predicate Valid() {
      && id < 0x1_0000 && 0x8000 <= flags < 0x1_0000 && flags % 16 == 0
      && ValidLabels(question) && qtype < 0x1_0000 && qclass < 0x1_0000
      && |answers| < 0x1_0000 && AllValid(answers) && authority < 0x1_0000 && additional < 0x1_0000
    }

    function Encode(): bytes
      requires Valid()
    {
      (Put16(id) + (Put16(flags) + (Put16(1) + (Put16(|answers|) + (Put16(authority) + Put16(additional))))))
      + (EncodePlain(question) + ((Put16(qtype) + Put16(qclass)) + EncodeRecords(answers)))
    }
  }

  lemma U16Prefix(n: nat, rest: bytes)
    requires n < 0x1_0000
    ensures U16(Put16(n) + rest) == n && (Put16(n) + rest)[2..] == rest
  {
  }

  lemma {:induction false} QuestionLabelsSkipped(labels: seq<bytes>, rest: bytes)
    requires ValidLabels(labels)
    ensures SkipQuestionLabels(EncodePlain(labels) + rest) == [0] + rest
    ensures SkipPlainLabels(EncodePlain(labels) + rest) == [0] + rest
    ensures EncodePlain(labels)[0] < 0xC0
    decreases |labels|
  {
    hide SkipQuestionLabels, SkipPlainLabels;
    LabelsEnd(rest);
    if labels != [] {
      QuestionLabelsSkipped(labels[1..], rest);
      var tail := EncodePlain(labels[1..]) + rest;
      assert EncodePlain(labels) + rest == ([|labels[0]|] + labels[0]) + tail;
      LabelSkipped(labels[0], tail);
    }
  }

  lemma LabelSkipped(part: bytes, tail: bytes)
    requires 0 < |part| <= MAX_LABEL
    ensures SkipQuestionLabels(([|part|] + part) + tail) == SkipQuestionLabels(tail)
    ensures SkipPlainLabels(([|part|] + part) + tail) == SkipPlainLabels(tail)
  {
    assert From(([|part|] + part) + tail, |part| + 1) == tail;
  }

  lemma LabelsEnd(rest: bytes)
    ensures SkipQuestionLabels([0] + rest) == [0] + rest
    ensures SkipPlainLabels([0] + rest) == [0] + rest
  {
  }

  lemma NameSkipped(labels: seq<bytes>, rest: bytes)
    requires ValidLabels(labels)
    ensures SkipQuestionName(EncodePlain(labels) + rest) == rest
    ensures SkipRecordName(EncodePlain(labels) + rest) == rest
  {
    QuestionLabelsSkipped(labels, rest);
    assert ([0] + rest)[1..] == rest;
  }

  lemma RecordParsed(rr: Record, rest: bytes)
    requires rr.Valid()
    ensures var s := rr.Encode() + rest;
      var t := SkipRecordName(s);
      && s != []
      && |t| >= 10 + |rr.rdata|
      && U16(t) == rr.rtype && U16(t[8..]) == |rr.rdata|
      && t[10..10 + |rr.rdata|] == rr.rdata && t[10 + |rr.rdata|..] == rest
  {
    hide U16, SkipRecordName, Put16, Put32, EncodePlain;
    var tail := rr.Fields() + rest;
    FieldsParsed(rr, rest);
    NameDropped(rr.name, tail);
    var name := if rr.name.Plain? then EncodePlain(rr.name.labels) else [rr.name.high, rr.name.low];
    assert rr.Encode() + rest == name + tail;
  }

  lemma FieldsParsed(rr: Record, rest: bytes)
    requires rr.Valid()
    ensures var t := rr.Fields() + rest;
      && |t| >= 10 + |rr.rdata|
      && U16(t) == rr.rtype && U16(t[8..]) == |rr.rdata|
      && t[10..10 + |rr.rdata|] == rr.rdata && t[10 + |rr.rdata|..] == rest
  {
    hide U16, Put16, Put32;
    var fixed := Put16(rr.class_) + Put32(rr.ttl);
    var data := Put16(|rr.rdata|) + (rr.rdata + rest);
    var t := rr.Fields() + rest;
    assert t == Put16(rr.rtype) + (fixed + data);
    U16Prefix(rr.rtype, fixed + data);
    U16Prefix(|rr.rdata|, rr.rdata + rest);
    assert t[8..] == data && t[10..] == rr.rdata + rest;
  }

  lemma NameDropped(name: Name, tail: bytes)
    requires if name.Plain? then ValidLabels(name.labels) else name.high >= 0xC0
    ensures var n := if name.Plain? then EncodePlain(name.labels) else [name.high, name.low];
      n != [] && SkipRecordName(n + tail) == tail
  {
    if name.Plain? {
      NameSkipped(name.labels, tail);
      QuestionLabelsSkipped(name.labels, tail);
    } else {
      PointerSkipped(name.high, name.low, tail);
    }
  }

  lemma PointerSkipped(high: byte, low: byte, rest: bytes)
    requires high >= 0xC0
    ensures SkipRecordName([high, low] + rest) == rest
  {
    assert ([high, low] + rest)[2..] == rest;
  }

  /** The parser's selection among records, as a fold. */
  function Selected(records: seq<Record>, preferIPv4: bool, ips: seq<Ip>): seq<Ip> {
    if records == [] then ips
    else Selected(records[1..], preferIPv4, Collect(ips, records[0].rtype, records[0].rdata, preferIPv4))
  }

  lemma {:induction false} AnswersParsed(records: seq<Record>, preferIPv4: bool, ips: seq<Ip>, rest: bytes)
    requires AllValid(records)
    ensures ParseAnswers(EncodeRecords(records) + rest, |records|, preferIPv4, ips) == Selected(records, preferIPv4, ips)
    decreases |records|
  {
    hide U16, SkipRecordName, Collect;
    if records != [] {
      var rr := records[0];
      var tail := EncodeRecords(records[1..]) + rest;
      assert EncodeRecords(records) + rest == rr.Encode() + tail;
      RecordParsed(rr, tail);
      AnswersParsed(records[1..], preferIPv4, Collect(ips, rr.rtype, rr.rdata, preferIPv4), rest);
    }
  }

  /** The header of an encoded response, and what follows its question. */
  lemma ResponseHeader(m: Response, rest: bytes)
    requires m.Valid()
    ensures var r := m.Encode() + rest;
      && |r| >= HEADER_SIZE && U16(r[2..]) == m.flags && U16(r[6..]) == |m.answers|
      && From(SkipQuestionName(r[HEADER_SIZE..]), 4) == EncodeRecords(m.answers) + rest
  {
    hide U16, Put16, SkipQuestionName, EncodePlain, EncodeRecords;
    var answers := EncodeRecords(m.answers) + rest;
    var tail := (Put16(m.qtype) + Put16(m.qclass)) + answers;
    var body := EncodePlain(m.question) + tail;
    var counts := Put16(|m.answers|) + ((Put16(m.authority) + Put16(m.additional)) + body);
    var r := m.Encode() + rest;
    assert r == Put16(m.id) + (Put16(m.flags) + (Put16(1) + counts));
    U16Prefix(m.flags, Put16(1) + counts);
    U16Prefix(|m.answers|, (Put16(m.authority) + Put16(m.additional)) + body);
    assert r[2..] == Put16(m.flags) + (Put16(1) + counts);
    assert r[6..] == counts && r[HEADER_SIZE..] == body;
    NameSkipped(m.question, tail);
    assert From(tail, 4) == answers;
  }

  lemma AnswersAreThere(answers: seq<Record>, rest: bytes)
    requires AllValid(answers) && answers != []
    ensures EncodeRecords(answers) + rest != []
  {
    hide U16, SkipRecordName, Record.Encode;
    var tail := EncodeRecords(answers[1..]) + rest;
    assert EncodeRecords(answers) + rest == answers[0].Encode() + tail;
    RecordParsed(answers[0], tail);
  }

  /** A well-formed response gives exactly the selection from its answers, whatever sections follow them. */
  lemma ResponseParsed(m: Response, preferIPv4: bool, rest: bytes)
    requires m.Valid()
    ensures ParseResponse(m.Encode() + rest, preferIPv4) ==
      if m.answers == [] then Failed(NoAnswers)
      else if Selected(m.answers, preferIPv4, []) == [] then Failed(NoAddresses)
      else Addresses(Selected(m.answers, preferIPv4, []))
  {
    hide U16, ParseAnswers, SkipQuestionName, Response.Encode, EncodeRecords, Selected, From;
    ResponseHeader(m, rest);
    if m.answers != [] {
      AnswersAreThere(m.answers, rest);
      AnswersParsed(m.answers, preferIPv4, [], rest);
    }
  }

  /**
   * Which error comes from the header, by its bytes: fewer than twelve; a response code in the fourth; a query, by the
   * first bit of the third; no answers, by the seventh and eighth. No other response gives one of the four.
   */
  lemma HeaderErrors(r: bytes, preferIPv4: bool)
    ensures ParseResponse(r, preferIPv4) == Failed(TooShort) <==> |r| < 12
    ensures |r| >= 12 ==>
      var result := ParseResponse(r, preferIPv4);
      && (forall code :: result == Failed(ServerError(code)) <==> code == r[3] % 16 != 0)
      && (result == Failed(NotAResponse) <==> r[3] % 16 == 0 && r[2] < 128)
      && (result == Failed(NoAnswers) <==> r[3] % 16 == 0 && r[2] >= 128 && r[6] == 0 && r[7] == 0)
  {
    hide ParseAnswers, SkipQuestionName, From;
    if |r| >= 12 {
      assert r[2..][0] == r[2] && r[2..][1] == r[3] && r[6..][0] == r[6] && r[6..][1] == r[7];
    }
  }

  /** A name that is cut off leaves nothing behind it. */
  lemma {:induction false} CutNameSkipped(labels: seq<bytes>, s: bytes)
    requires ValidLabels(labels) && s <= EncodePlain(labels) && |s| < |EncodePlain(labels)|
    ensures SkipPlainLabels(s) == []
    decreases |labels|
  {
    hide SkipPlainLabels;
    PlainStep(s);
    if s != [] {
      assert labels != [];
      var front, tail := [|labels[0]|] + labels[0], EncodePlain(labels[1..]);
      var left := From(s, |labels[0]| + 1);
      assert s[0] == front[0];
      if |s| > |front| {
        assert left == s[|front|..] && (front + tail)[|front|..] == tail;
        assert s == (front + tail)[..|s|];
        CutNameSkipped(labels[1..], left);
      } else {
        PlainStep([]);
      }
    }
  }

  /** A record that is cut off anywhere adds nothing. */
  lemma CutRecordIsIgnored(rr: Record, s: bytes, count: nat, preferIPv4: bool, ips: seq<Ip>)
    requires rr.Valid() && s <= rr.Encode() && |s| < |rr.Encode()|
    ensures ParseAnswers(s, count, preferIPv4, ips) == ips
  {
    hide U16, SkipRecordName, Collect, Record.Encode;
    if s != [] && count > 0 {
      CutRecordFields(rr, s);
    }
  }

  lemma CutRecordFields(rr: Record, s: bytes)
    requires rr.Valid() && s <= rr.Encode() && |s| < |rr.Encode()|
    ensures var t := SkipRecordName(s); |t| < 10 || U16(t[8..]) > |t| - 10
  {
    hide U16, SkipRecordName, Put16, Put32, EncodePlain;
    var name := if rr.name.Plain? then EncodePlain(rr.name.labels) else [rr.name.high, rr.name.low];
    assert rr.Encode() == name + rr.Fields();
    if |s| < |name| {
      assert s == name[..|s|];
      CutNameLeavesNothing(rr.name, s);
    } else {
      var t := s[|name|..];
      assert s == name + t && t == rr.Fields()[..|t|];
      NameDropped(rr.name, t);
      CutFields(rr, t);
    }
  }

  lemma CutNameLeavesNothing(name: Name, s: bytes)
    requires if name.Plain? then ValidLabels(name.labels) else name.high >= 0xC0
    requires var n := if name.Plain? then EncodePlain(name.labels) else [name.high, name.low];
      s <= n && |s| < |n|
    ensures SkipRecordName(s) == []
  {
    if name.Plain? {
      CutNameSkipped(name.labels, s);
      QuestionLabelsSkipped(name.labels, []);
      assert EncodePlain(name.labels) + [] == EncodePlain(name.labels);
    }
  }

  lemma CutFields(rr: Record, t: bytes)
    requires rr.Valid() && t <= rr.Fields() && |t| < |rr.Fields()|
    ensures |t| < 10 || U16(t[8..]) > |t| - 10
  {
    hide U16;
    if |t| >= 10 {
      FieldsParsed(rr, []);
      assert rr.Fields() + [] == rr.Fields();
      assert rr.Fields()[8..][..2] == t[8..][..2];
      U16OfTwo(rr.Fields()[8..]);
      U16OfTwo(t[8..]);
    }
  }

  lemma U16OfTwo(s: bytes)
    requires |s| >= 2
    ensures U16(s) == U16(s[..2])
  {
  }

  /** A response cut off in one of its answers gives the selection from those before it. */
  lemma {:induction false} CutAnswersParsed(records: seq<Record>, cut: Record, s: bytes, count: nat, preferIPv4: bool, ips: seq<Ip>)
    requires AllValid(records) && cut.Valid() && s <= cut.Encode() && |s| < |cut.Encode()| && |records| <= count
    ensures ParseAnswers(EncodeRecords(records) + s, count, preferIPv4, ips) == Selected(records, preferIPv4, ips)
    decreases |records|
  {
    hide U16, SkipRecordName, Collect, Record.Encode;
    if records == [] {
      assert EncodeRecords(records) + s == s;
      CutRecordIsIgnored(cut, s, count, preferIPv4, ips);
    } else {
      var rr := records[0];
      var tail := EncodeRecords(records[1..]) + s;
      assert EncodeRecords(records) + s == rr.Encode() + tail;
      RecordParsed(rr, tail);
      CutAnswersParsed(records[1..], cut, s, count - 1, preferIPv4, Collect(ips, rr.rtype, rr.rdata, preferIPv4));
    }
  }

  // ---------------------------------------------------------------- what the preference means

  /** The address a record holds, if any. */
  function AddressOf(rr: Record): (a: seq<Ip>)
    ensures |a| <= 1
  {
    if rr.rtype == TYPE_A && |rr.rdata| == 4 then [V4(rr.rdata)]
    else if rr.rtype == TYPE_AAAA && |rr.rdata| == 16 then [V6(rr.rdata)]
    else []
  }

  /** The addresses among the records, in order. */
  function AllAddresses(records: seq<Record>): seq<Ip> {
    if records == [] then [] else AddressOf(records[0]) + AllAddresses(records[1..])
  }

  predicate IsPreferred(ip: Ip, preferIPv4: bool) {
    ip.V4? == preferIPv4
  }

  function Preferred(ips: seq<Ip>, preferIPv4: bool): seq<Ip> {
    if ips == [] then []
    else (if IsPreferred(ips[0], preferIPv4) then [ips[0]] else []) + Preferred(ips[1..], preferIPv4)
  }

  lemma {:induction false} PreferredConcat(a: seq<Ip>, b: seq<Ip>, preferIPv4: bool)
    ensures Preferred(a + b, preferIPv4) == Preferred(a, preferIPv4) + Preferred(b, preferIPv4)
  {
    if a == [] {
      assert a + b == b && [] + Preferred(b, preferIPv4) == Preferred(b, preferIPv4);
    } else {
      hide Preferred, IsPreferred;
      assert (a + b)[1..] == a[1..] + b;
      PreferredStep(a, preferIPv4);
      PreferredStep(a + b, preferIPv4);
      PreferredConcat(a[1..], b, preferIPv4);
    }
  }

  lemma PreferredStep(ips: seq<Ip>, preferIPv4: bool)
    requires ips != []
    ensures Preferred(ips, preferIPv4) ==
      (if IsPreferred(ips[0], preferIPv4) then [ips[0]] else []) + Preferred(ips[1..], preferIPv4)
  {
  }

  /** What one record does to the list: the first address gets in, and later ones if they are preferred. */
  lemma CollectMeaning(ips: seq<Ip>, rr: Record, preferIPv4: bool)
    ensures Collect(ips, rr.rtype, rr.rdata, preferIPv4) ==
      ips + (if ips == [] then AddressOf(rr) else Preferred(AddressOf(rr), preferIPv4))
  {
    assert forall ip :: Preferred([ip], preferIPv4) == (if IsPreferred(ip, preferIPv4) then [ip] else []) + Preferred([], preferIPv4);
    assert ips + [] == ips;
  }

  lemma {:induction false} SelectedAfterFirst(records: seq<Record>, preferIPv4: bool, ips: seq<Ip>)
    requires ips != []
    ensures Selected(records, preferIPv4, ips) == ips + Preferred(AllAddresses(records), preferIPv4)
    decreases |records|
  {
    hide Collect, AddressOf, Preferred;
    if records == [] {
      assert Preferred([], preferIPv4) == [] by {
        NothingPreferred(preferIPv4);
      }
    } else {
      var rr := records[0];
      var later := AllAddresses(records[1..]);
      CollectMeaning(ips, rr, preferIPv4);
      SelectedAfterFirst(records[1..], preferIPv4, ips + Preferred(AddressOf(rr), preferIPv4));
      PreferredConcat(AddressOf(rr), later, preferIPv4);
      assert ips + (Preferred(AddressOf(rr), preferIPv4) + Preferred(later, preferIPv4))
        == (ips + Preferred(AddressOf(rr), preferIPv4)) + Preferred(later, preferIPv4);
    }
  }

  lemma NothingPreferred(preferIPv4: bool)
    ensures Preferred([], preferIPv4) == []
  {
  }

  /** The first address when it is not preferred, then all preferred ones. */
  function FirstThenPreferred(all: seq<Ip>, preferIPv4: bool): seq<Ip> {
    (if all != [] && !IsPreferred(all[0], preferIPv4) then [all[0]] else []) + Preferred(all, preferIPv4)
  }

  lemma FirstStays(ip: Ip, later: seq<Ip>, preferIPv4: bool)
    ensures FirstThenPreferred([ip] + later, preferIPv4) == [ip] + Preferred(later, preferIPv4)
  {
    assert ([ip] + later)[1..] == later;
  }

  /**
   * The selection: all addresses of the preferred family in order, after the first address of all when that
   * is of the other family. So a preference for IPv4 keeps IPv6 out exactly when an IPv6 address is not first.
   */
  lemma {:induction false} SelectionMeaning(records: seq<Record>, preferIPv4: bool)
    ensures Selected(records, preferIPv4, []) == FirstThenPreferred(AllAddresses(records), preferIPv4)
    decreases |records|
  {
    hide Collect, AddressOf, Preferred, IsPreferred;
    if records == [] {
      NothingPreferred(preferIPv4);
    } else {
      var first := AddressOf(records[0]);
      var later := AllAddresses(records[1..]);
      CollectMeaning([], records[0], preferIPv4);
      assert [] + first == first;
      if first == [] {
        assert first + later == later;
        SelectionMeaning(records[1..], preferIPv4);
      } else {
        assert first == [first[0]];
        SelectedAfterFirst(records[1..], preferIPv4, first);
        FirstStays(first[0], later, preferIPv4);
      }
    }
  }

  lemma {:induction false} PreferredAre(ips: seq<Ip>, preferIPv4: bool)
    ensures forall ip :: ip in Preferred(ips, preferIPv4) ==> IsPreferred(ip, preferIPv4)
  {
    if ips != [] {
      PreferredAre(ips[1..], preferIPv4);
    }
  }

  /** Only preferred addresses are returned exactly when the first address of the response is a preferred one. */
  lemma OnlyPreferredExactlyWhen(records: seq<Record>, preferIPv4: bool)
    ensures (forall ip :: ip in Selected(records, preferIPv4, []) ==> IsPreferred(ip, preferIPv4))
      <==> AllAddresses(records) == [] || IsPreferred(AllAddresses(records)[0], preferIPv4)
  {
    SelectionMeaning(records, preferIPv4);
    PreferredAre(AllAddresses(records), preferIPv4);
    var all := AllAddresses(records);
    if all != [] && !IsPreferred(all[0], preferIPv4) {
      assert Selected(records, preferIPv4, [])[0] == all[0];
    }
  }

  // ---------------------------------------------------------------- builder and parser agree

  lemma {:induction false} SplitSkipped(labels: seq<bytes>, rest: bytes)
    ensures SkipQuestionLabels(EncodeLabels(labels) + ([0] + rest)) == [0] + rest
    decreases |labels|
  {
    hide SkipQuestionLabels;
    LabelsEnd(rest);
    if labels == [] {
      assert [] + ([0] + rest) == [0] + rest;
    } else {
      SplitSkipped(labels[1..], rest);
      var tail := EncodeLabels(labels[1..]) + ([0] + rest);
      assert EncodeLabels(labels) + ([0] + rest) == EncodeLabel(labels[0]) + tail;
      if labels[0] != [] {
        LabelSkipped(Cut(labels[0]), tail);
      } else {
        assert [] + tail == tail;
      }
    }
  }

  /** Names of up to 253 bytes fit the buffer, and the parser's skipping of the question stops exactly at QTYPE. */
  lemma QueryFitsAndIsSkipped(domain: bytes, isA: bool, txId: nat)
    requires txId < 0x1_0000
    ensures |domain| <= 253 ==> |Query(domain, isA, txId)| <= BUFFER_SIZE
    ensures SkipQuestionName(Query(domain, isA, txId)[HEADER_SIZE..]) ==
      Put16(if isA then TYPE_A else TYPE_AAAA) + Put16(CLASS_IN)
  {
    hide Put16, Split, EncodeLabels, EncodeLabel, SkipQuestionLabels;
    EncodedLength(domain);
    var name := EncodeLabels(Split(domain));
    var tail := Put16(if isA then TYPE_A else TYPE_AAAA) + Put16(CLASS_IN);
    assert Query(domain, isA, txId)[HEADER_SIZE..] == name + ([0] + tail);
    SplitSkipped(Split(domain), tail);
    assert ([0] + tail)[1..] == tail;
  }
}
