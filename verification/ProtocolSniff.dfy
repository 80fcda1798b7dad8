/**
 * Which protocol a buffered prefix of a connection speaks (processor/watcher/wrapped_tls_watcher.go).
 */
module ProtocolSniff {
  import opened Bytes

  datatype Decision = Undecided | Http2 | Http1 | Passthrough

  /** The 24-byte client connection preface of section 3.4 of RFC 9113. */
  const PREFACE: bytes :=
    Ascii("PRI * HTTP/2.0") + [CR, LF, CR, LF] + Ascii("SM") + [CR, LF, CR, LF]

  const PREFACE_LEN := 24

  const METHODS: seq<bytes> := [
    Ascii("GET"), Ascii("POST"), Ascii("PUT"), Ascii("HEAD"), Ascii("PATCH"),
    Ascii("DELETE"), Ascii("OPTIONS"), Ascii("CONNECT"), Ascii("TRACE")]

  const SPACE: byte := 32

  function Ascii(s: string): (b: bytes)
    requires forall i :: 0 <= i < |s| ==> s[i] < 128 as char
    ensures |b| == |s| && forall i :: 0 <= i < |s| ==> b[i] == s[i] as int
  {
    seq(|s|, i requires 0 <= i < |s| => s[i] as int)
  }

  /**
   * Upper-casing of a byte string read as UTF-8, as far as a comparison with ASCII words can tell: ASCII
   * letters are mapped, dotless i (C4 B1) and long s (C5 BF) become I and S, and every other non-ASCII byte
   * stands for itself, which no ASCII word contains.
   */
  function Upper(b: bytes): bytes {
    if b == [] then [] else [UpperHead(b)] + Upper(b[HeadWidth(b)..])
  }

  function HeadWidth(b: bytes): nat
    requires b != []
    ensures HeadWidth(b) <= |b|
  {
    if |b| >= 2 && ((b[0] == 0xC4 && b[1] == 0xB1) || (b[0] == 0xC5 && b[1] == 0xBF)) then 2 else 1
  }

  function UpperHead(b: bytes): byte
    requires b != []
  {
    if HeadWidth(b) == 2 then (if b[0] == 0xC4 then 73 else 83)
    else if 97 <= b[0] <= 122 then b[0] - 32
    else b[0]
  }

  /** One character after the other: ASCII letters, and the two characters whose capitals are ASCII letters. */
  lemma UpperMeaning(b: byte, s: bytes)
    ensures Upper([]) == []
    ensures Upper([0xC4, 0xB1] + s) == Ascii("I") + Upper(s) && Upper([0xC5, 0xBF] + s) == Ascii("S") + Upper(s)
    ensures 97 <= b <= 122 ==> Upper([b] + s) == [b - 32] + Upper(s)
    ensures b < 97 || 122 < b < 0x80 ==> Upper([b] + s) == [b] + Upper(s)
  {
    assert ([0xC4, 0xB1] + s)[2..] == s && ([0xC5, 0xBF] + s)[2..] == s && ([b] + s)[1..] == s;
  }

  function Classify(buf: bytes): Decision {
    ClassifyWith(buf, PREFACE, METHODS)
  }

  function ClassifyWith(buf: bytes, preface: bytes, methods: seq<bytes>): Decision {
    if buf == [] then Undecided
    else if preface <= buf then Http2
    else if buf < preface then Undecided
    else
      var d := ClassifyByMethod(Upper(buf), methods);
      if d != Passthrough then d
      else if |buf| < |preface| then Undecided
      else Passthrough
  }

  /** The loop over the method table; Passthrough when no entry settles the matter. */
  function ClassifyByMethod(upper: bytes, methods: seq<bytes>): Decision {
    if methods == [] then Passthrough
    else if methods[0] + [SPACE] <= upper then Http1
    else if upper <= methods[0] then Undecided
    else ClassifyByMethod(upper, methods[1..])
  }

  /** The buffer starts with one of the methods and a space, in any letter case. */
  ghost predicate StartsWithMethod(buf: bytes, methods: seq<bytes>) {
    exists m :: m in methods && m + [SPACE] <= Upper(buf)
  }

  /** The decision in closed form, which says what it depends on. */
  ghost function Meaning(buf: bytes, preface: bytes, methods: seq<bytes>): Decision {
    if preface <= buf then Http2
    else if StartsWithMethod(buf, methods) then Http1
    else if |buf| < |preface| then Undecided
    else Passthrough
  }

  /**
   * What the closed form needs of the tables: no method holds a space or a non-ASCII byte, is longer than
   * seven letters, or shares its first two letters with the 24-byte preface.
   */
  ghost predicate Tables(preface: bytes, methods: seq<bytes>) {
    && |preface| == PREFACE_LEN
    && (forall i :: 0 <= i < 2 ==> HeadIsPlain(preface[i]))
    && forall m :: m in methods ==>
      && 1 < |m| <= 7
      && (m[0] != preface[0] || m[1] != preface[1])
      && forall i :: 0 <= i < |m| ==> m[i] < 128 && m[i] != SPACE
  }

  /** An ASCII byte that upper-casing leaves alone. */
  predicate HeadIsPlain(b: byte) {
    b < 97
  }

  lemma TablesHold()
    ensures Tables(PREFACE, METHODS)
  {
    assert forall i :: 0 <= i < |METHODS| ==>
      && 1 < |METHODS[i]| <= 7
      && (METHODS[i][0] != PREFACE[0] || METHODS[i][1] != PREFACE[1])
      && forall j :: 0 <= j < |METHODS[i]| ==> METHODS[i][j] < 128 && METHODS[i][j] != SPACE;
  }

  lemma {:induction false} ClassifyByMethodMeaning(upper: bytes, methods: seq<bytes>)
    requires forall m :: m in methods ==> |m| <= 7 && forall i :: 0 <= i < |m| ==> m[i] != SPACE
    ensures ClassifyByMethod(upper, methods) == Http1 <==> exists m :: m in methods && m + [SPACE] <= upper
    ensures ClassifyByMethod(upper, methods) == Undecided ==> |upper| <= 7
    ensures ClassifyByMethod(upper, methods) != Http2
  {
    if methods != [] {
      ClassifyByMethodMeaning(upper, methods[1..]);
      var m0 := methods[0];
      assert methods == [m0] + methods[1..];
      if upper <= m0 {
        forall m | m in methods
          ensures !(m + [SPACE] <= upper)
        {
          assert SPACE == (m + [SPACE])[|m|];
        }
      }
    }
  }

  lemma {:induction false} UpperLength(b: bytes)
    ensures |b| <= 2 * |Upper(b)| && |Upper(b)| <= |b|
  {
    if b != [] {
      UpperLength(b[HeadWidth(b)..]);
    }
  }

  /** A first character that reads as ASCII is complete. */
  lemma HeadExtended(b: bytes, more: bytes)
    requires b != [] && (UpperHead(b) < 128 || |b| >= 2)
    ensures HeadWidth(b + more) == HeadWidth(b) && UpperHead(b + more) == UpperHead(b)
    ensures (b + more)[HeadWidth(b)..] == b[HeadWidth(b)..] + more
  {
  }

  /** What starts with an ASCII word goes on doing so when more input arrives. */
  lemma {:induction false} UpperExtended(b: bytes, more: bytes, word: bytes)
    requires word <= Upper(b)
    requires forall i :: 0 <= i < |word| ==> word[i] < 128
    ensures word <= Upper(b + more)
  {
    hide HeadWidth, UpperHead;
    if word != [] {
      var rest := b[HeadWidth(b)..];
      assert Upper(b) == [UpperHead(b)] + Upper(rest);
      assert word == [word[0]] + word[1..] && word[0] == Upper(b)[0];
      HeadExtended(b, more);
      UpperExtended(rest, more, word[1..]);
      assert Upper(b + more) == [UpperHead(b)] + Upper(rest + more);
    }
  }

  /** A word at most half as long as the buffer is already there, or will never be. */
  lemma {:induction false} UpperRestricted(b: bytes, more: bytes, word: bytes)
    requires word <= Upper(b + more) && 2 * |word| <= |b|
    ensures word <= Upper(b)
  {
    hide HeadWidth, UpperHead;
    if word != [] {
      var rest := b[HeadWidth(b)..];
      HeadExtended(b, more);
      assert Upper(b + more) == [UpperHead(b)] + Upper(rest + more);
      assert word == [word[0]] + word[1..] && word[0] == Upper(b + more)[0];
      HeadIsShort(b);
      UpperRestricted(rest, more, word[1..]);
      assert Upper(b) == [UpperHead(b)] + Upper(rest);
    }
  }

  /** A word that starts the whole starts what comes before the first byte that is in no word. */
  lemma {:induction false} UpperBefore(b: bytes, more: bytes, word: bytes, stop: byte)
    requires word <= Upper(b + more) && stop in b && stop !in word && HeadIsPlain(stop)
    ensures word <= Upper(b)
  {
    hide HeadIsPlain;
    if word != [] {
      assert word == [word[0]] + word[1..] && word[0] == Upper(b + more)[0];
      PlainStays(b, more, stop, word[0]);
      var rest := b[HeadWidth(b)..];
      assert Upper(b + more) == [UpperHead(b)] + Upper(rest + more);
      UpperBefore(rest, more, word[1..], stop);
      assert Upper(b) == [UpperHead(b)] + Upper(rest);
    }
  }

  lemma PlainStays(b: bytes, more: bytes, stop: byte, first: byte)
    requires stop in b && HeadIsPlain(stop) && first != stop && UpperHead(b + more) == first
    ensures HeadWidth(b + more) == HeadWidth(b) && UpperHead(b + more) == UpperHead(b)
    ensures (b + more)[HeadWidth(b)..] == b[HeadWidth(b)..] + more
    ensures stop in b[HeadWidth(b)..]
  {
    assert b[0] != stop;
    var i :| 0 <= i < |b| && b[i] == stop;
    assert i > 0 && (HeadWidth(b) == 2 ==> i > 1);
    assert b[HeadWidth(b)..][i - HeadWidth(b)] == stop;
  }

  lemma HeadIsShort(b: bytes)
    requires b != []
    ensures HeadWidth(b) <= 2
  {
  }

  lemma PlainHead(buf: bytes, preface: bytes, word: bytes)
    requires buf <= preface && |preface| >= 2 && HeadIsPlain(preface[0]) && HeadIsPlain(preface[1])
    requires |word| >= 2 && word <= Upper(buf)
    ensures word[..2] == preface[..2]
  {
    UpperLength(buf);
    UpperLength(buf[1..]);
    assert Upper(buf) == [buf[0]] + Upper(buf[1..]);
    assert Upper(buf[1..]) == [buf[1]] + Upper(buf[2..]);
  }

  lemma MeaningOf(buf: bytes, preface: bytes, methods: seq<bytes>)
    requires Tables(preface, methods)
    ensures ClassifyWith(buf, preface, methods) == Meaning(buf, preface, methods)
  {
    ClassifyByMethodMeaning(Upper(buf), methods);
    UpperLength(buf);
    if 0 < |buf| && buf < preface && StartsWithMethod(buf, methods) {
      var m :| m in methods && m + [SPACE] <= Upper(buf);
      PlainHead(buf, preface, m + [SPACE]);
      assert false;
    }
  }

  lemma MeaningIsFinal(buf: bytes, more: bytes, preface: bytes, methods: seq<bytes>)
    requires Tables(preface, methods) && Meaning(buf, preface, methods) != Undecided
    ensures Meaning(buf + more, preface, methods) == Meaning(buf, preface, methods)
  {
    MeaningOf(buf, preface, methods);
    assert preface <= buf + more ==> preface <= buf || buf < preface;
    if StartsWithMethod(buf, methods) {
      var m :| m in methods && m + [SPACE] <= Upper(buf);
      UpperExtended(buf, more, m + [SPACE]);
    } else if StartsWithMethod(buf + more, methods) && |buf| >= |preface| {
      var m :| m in methods && m + [SPACE] <= Upper(buf + more);
      UpperRestricted(buf, more, m + [SPACE]);
    }
  }

  /** Once a prefix has been classified, every extension of it is classified alike. */
  lemma ClassificationIsFinal(buf: bytes, more: bytes)
    requires Classify(buf) != Undecided
    ensures Classify(buf + more) == Classify(buf)
  {
    TablesHold();
    MeaningOf(buf, PREFACE, METHODS);
    MeaningOf(buf + more, PREFACE, METHODS);
    MeaningIsFinal(buf, more, PREFACE, METHODS);
  }

  /** A stream of HTTP/1 is known as such by the time its first line ends. */
  lemma Http1ByEndOfLine(buf: bytes, more: bytes)
    requires Classify(buf + more) == Http1 && CR in buf
    ensures Classify(buf) == Http1
  {
    hide ClassifyWith, Upper, Tables;
    TablesHold();
    MeaningOf(buf, PREFACE, METHODS);
    MeaningOf(buf + more, PREFACE, METHODS);
    var m :| m in METHODS && m + [SPACE] <= Upper(buf + more);
    assert CR !in m + [SPACE] by {
      NoBreakInMethods(m);
    }
    UpperBefore(buf, more, m + [SPACE], CR);
    assert PREFACE <= buf ==> PREFACE <= buf + more;
  }

  lemma NoBreakInMethods(m: bytes)
    requires m in METHODS
    ensures CR !in m
  {
    assert forall i :: 0 <= i < |METHODS| ==> CR !in METHODS[i];
  }

  /**
   * What each answer means. In particular a decision is always taken by the 24th byte, so the sniffing
   * cut-off of 8192 bytes is never the reason for passing a connection through.
   */
  lemma ClassifyMeaning(buf: bytes)
    ensures Classify(buf) == Http2 <==> PREFACE <= buf
    ensures Classify(buf) == Http1 <==> StartsWithMethod(buf, METHODS) && !(PREFACE <= buf)
    ensures Classify(buf) == Undecided ==> |buf| < PREFACE_LEN
    ensures Classify(buf) == Passthrough ==> |buf| >= PREFACE_LEN
  {
    TablesHold();
    MeaningOf(buf, PREFACE, METHODS);
  }
}
