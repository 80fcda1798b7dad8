/**
 * Where the body of an HTTP/1 request ends: Content-Length counting and the chunked coding of section 7.1 of
 * RFC 9112, byte by byte (processor/watcher/http1_wrapper.go).
 */
module Http1Body {
  import opened Wrappers
  import opened Bytes

  const CRLF: bytes := [CR, LF]
  const SEMICOLON: byte := 59

  // ---------------------------------------------------------------- the chunk-size line

  /** One white-space character of Go's unicode.IsSpace, encoded in UTF-8. */
  predicate IsSpace(r: bytes) {
    match |r|
    case 1 => 9 <= r[0] <= 13 || r[0] == 32
    case 2 => r[0] == 0xC2 && (r[1] == 0x85 || r[1] == 0xA0)
    case 3 =>
      || (r[0] == 0xE1 && r[1] == 0x9A && r[2] == 0x80)
      || (r[0] == 0xE2 && r[1] == 0x80 && (0x80 <= r[2] <= 0x8A || 0xA8 <= r[2] <= 0xA9 || r[2] == 0xAF))
      || (r[0] == 0xE2 && r[1] == 0x81 && r[2] == 0x9F)
      || (r[0] == 0xE3 && r[1] == 0x80 && r[2] == 0x80)
    case _ => false
  }

  function TrimLeft(s: bytes): bytes {
    if |s| >= 1 && IsSpace(s[..1]) then TrimLeft(s[1..])
    else if |s| >= 2 && IsSpace(s[..2]) then TrimLeft(s[2..])
    else if |s| >= 3 && IsSpace(s[..3]) then TrimLeft(s[3..])
    else s
  }

  /** The width of the white-space character at the end, zero if there is none. */
  function TrailingSpace(s: bytes): (k: nat)
    ensures k <= |s| && (k > 0 ==> IsSpace(s[|s| - k..]))
  {
    if |s| >= 1 && IsSpace(s[|s| - 1..]) then 1
    else if |s| >= 2 && IsSpace(s[|s| - 2..]) then 2
    else if |s| >= 3 && IsSpace(s[|s| - 3..]) then 3
    else 0
  }

  function TrimRight(s: bytes): bytes {
    var k := TrailingSpace(s);
    if k == 0 then s else TrimRight(s[..|s| - k])
  }

  function TrimSpace(s: bytes): bytes {
    TrimRight(TrimLeft(s))
  }

  /** White space is that of the code points that count as such. */
  lemma SpaceExactlyWhen(r: bytes)
    ensures IsSpace(r) <==> exists cp: nat :: cp < 0x1_0000 && cp in SPACES && r == Utf8(cp)
  {
    hide Utf8, IsSpace;
    if IsSpace(r) {
      var cp := CodePointOf(r);
    }
    if cp: nat :| cp < 0x1_0000 && cp in SPACES && r == Utf8(cp) {
      CodePointIsSpace(cp);
    }
  }

  lemma CodePointIsSpace(cp: nat)
    requires cp < 0x1_0000 && cp in SPACES
    ensures IsSpace(Utf8(cp))
  {
    if cp >= 0x800 {
      LongCodePoint(cp);
    }
  }

  lemma LongCodePoint(cp: nat)
    requires cp in SPACES && cp >= 0x800
    ensures
      || (cp == 0x1680 && cp / 4096 == 1 && cp / 64 % 64 == 0x1A && cp % 64 == 0)
      || (0x2000 <= cp <= 0x202F && cp / 4096 == 2 && cp / 64 % 64 == 0 && cp % 64 == cp - 0x2000)
      || (cp == 0x205F && cp / 4096 == 2 && cp / 64 % 64 == 1 && cp % 64 == 0x1F)
      || (cp == 0x3000 && cp / 4096 == 3 && cp / 64 % 64 == 0 && cp % 64 == 0)
  {
  }

  lemma CodePointOf(r: bytes) returns (cp: nat)
    requires IsSpace(r)
    ensures cp < 0x1_0000 && cp in SPACES && r == Utf8(cp)
  {
    if |r| == 1 {
      cp := r[0];
    } else if |r| == 2 {
      cp := r[1];
    } else {
      cp := if r[0] == 0xE1 then 0x1680
            else if r[0] == 0xE3 then 0x3000
            else if r[1] == 0x81 then 0x205F
            else 0x2000 + r[2] as int - 0x80;
      LongCodePoint(cp);
    }
  }

  predicate AllSpaces(parts: seq<bytes>) {
    forall i :: 0 <= i < |parts| ==> IsSpace(parts[i])
  }

  function Flat(parts: seq<bytes>): bytes {
    if parts == [] then [] else parts[0] + Flat(parts[1..])
  }

  predicate StartsWithSpace(s: bytes) {
    exists k :: 1 <= k <= |s| && IsSpace(s[..k])
  }

  predicate EndsWithSpace(s: bytes) {
    exists k :: 0 <= k < |s| && IsSpace(s[k..])
  }

  /** What is trimmed off the front first, if anything is. */
  lemma LeadingSpace(s: bytes) returns (k: nat)
    ensures k == 0 ==> TrimLeft(s) == s && !StartsWithSpace(s)
    ensures k > 0 ==> k <= |s| && IsSpace(s[..k]) && TrimLeft(s) == TrimLeft(s[k..])
  {
    hide IsSpace;
    k := if |s| >= 1 && IsSpace(s[..1]) then 1
         else if |s| >= 2 && IsSpace(s[..2]) then 2
         else if |s| >= 3 && IsSpace(s[..3]) then 3
         else 0;
    if k == 0 {
      forall n | 1 <= n <= |s|
        ensures !IsSpace(s[..n])
      {
        SpaceIsShort(s[..n]);
      }
    }
  }

  lemma SpaceIsShort(r: bytes)
    ensures IsSpace(r) ==> 1 <= |r| <= 3
  {
  }

  lemma {:induction false} TrimLeftMeaning(s: bytes) returns (front: seq<bytes>)
    ensures AllSpaces(front) && s == Flat(front) + TrimLeft(s) && !StartsWithSpace(TrimLeft(s))
    decreases |s|
  {
    hide IsSpace, TrimLeft, StartsWithSpace, Flat, AllSpaces;
    var k := LeadingSpace(s);
    front := [];
    NoSpaces(s);
    if k > 0 {
      var more := TrimLeftMeaning(s[k..]);
      front := [s[..k]] + more;
      SpacesAround(s[..k], more);
      assert s == s[..k] + s[k..];
      assert s[..k] + Flat(more) + TrimLeft(s) == s[..k] + (Flat(more) + TrimLeft(s));
    }
  }

  lemma NoSpaces(s: bytes)
    ensures AllSpaces([]) && Flat([]) + s == s && s + Flat([]) == s
  {
  }

  lemma {:induction false} SpacesAround(r: bytes, parts: seq<bytes>)
    requires IsSpace(r) && AllSpaces(parts)
    ensures AllSpaces([r] + parts) && Flat([r] + parts) == r + Flat(parts)
    ensures AllSpaces(parts + [r]) && Flat(parts + [r]) == Flat(parts) + r
    decreases |parts|
  {
    hide IsSpace;
    assert ([r] + parts)[1..] == parts;
    if parts == [] {
      assert [r][1..] == [] && [] + r == r + [];
    } else {
      SpacesAround(r, parts[1..]);
      assert (parts + [r])[1..] == parts[1..] + [r];
    }
  }

  lemma {:induction false} TrimRightMeaning(s: bytes) returns (back: seq<bytes>)
    ensures AllSpaces(back) && s == TrimRight(s) + Flat(back) && !EndsWithSpace(TrimRight(s))
    decreases |s|
  {
    hide IsSpace, TrailingSpace, EndsWithSpace, Flat, AllSpaces, TrimRight;
    var k := TrailingSpace(s);
    back := [];
    NoSpaces(s);
    TrimRightStep(s);
    if k > 0 {
      var more := TrimRightMeaning(s[..|s| - k]);
      back := more + [s[|s| - k..]];
      SpacesAround(s[|s| - k..], more);
      assert s == s[..|s| - k] + s[|s| - k..];
      assert TrimRight(s) + (Flat(more) + s[|s| - k..]) == TrimRight(s) + Flat(more) + s[|s| - k..];
    } else {
      NoTrailingSpace(s);
    }
  }

  lemma TrimRightStep(s: bytes)
    ensures TrimRight(s) == if TrailingSpace(s) == 0 then s else TrimRight(s[..|s| - TrailingSpace(s)])
  {
    hide TrailingSpace;
  }

  lemma NoTrailingSpace(s: bytes)
    requires TrailingSpace(s) == 0
    ensures !EndsWithSpace(s)
  {
    hide IsSpace;
    forall n | 0 <= n < |s|
      ensures !IsSpace(s[n..])
    {
      SpaceIsShort(s[n..]);
    }
  }

  /** Everything before the first semicolon. */
  function CutExtension(s: bytes): bytes {
    if s == [] || s[0] == SEMICOLON then [] else [s[0]] + CutExtension(s[1..])
  }

  predicate IsHexDigit(b: byte) {
    48 <= b <= 57 || 65 <= b <= 70 || 97 <= b <= 102
  }

  function HexDigit(b: byte): (d: nat)
    requires IsHexDigit(b)
    ensures d < 16
  {
    if b <= 57 then b - 48 else if b <= 70 then b - 55 else b - 87
  }

  predicate AllHex(s: bytes) {
    forall i :: 0 <= i < |s| ==> IsHexDigit(s[i])
  }

  function HexValue(s: bytes): nat
    requires AllHex(s)
  {
    if s == [] then 0 else HexValue(s[..|s| - 1]) * 16 + HexDigit(s[|s| - 1])
  }

  /** strconv.ParseInt(token, 16, 64): an optional sign is accepted, so sizes may come out negative. */
  function ParseInt64(token: bytes): Option<int> {
    var negative := token != [] && token[0] == 45;
    var digits := if token != [] && (token[0] == 43 || token[0] == 45) then token[1..] else token;
    if digits == [] || !AllHex(digits) then None
    else
      var n: int := HexValue(digits);
      if negative then (if n <= 0x8000_0000_0000_0000 then Some(-n) else None)
      else (if n < 0x8000_0000_0000_0000 then Some(n) else None)
  }

  /** The part of a line, without its CRLF, that is read as the size. */
  function Token(line: bytes): bytes {
    TrimSpace(CutExtension(TrimSpace(line)))
  }

  function SizeOf(line: bytes): Option<int> {
    ParseInt64(Token(line))
  }

  predicate IsSigned(token: bytes) {
    token != [] && (token[0] == 43 || token[0] == 45)
  }

  /** A sign before hex digits is accepted, and a minus negates the size. */
  lemma SignedTokenIsRead(digits: bytes)
    requires digits != [] && AllHex(digits)
    ensures HexValue(digits) <= 0x8000_0000_0000_0000 ==> ParseInt64([45] + digits) == Some(0 - HexValue(digits))
    ensures HexValue(digits) < 0x8000_0000_0000_0000 ==> ParseInt64([43] + digits) == Some(HexValue(digits))
  {
    hide HexValue;
    assert ([45] + digits)[1..] == digits && ([43] + digits)[1..] == digits;
  }

  /** An accepted token consists of hex digits alone exactly when it carries no sign. */
  lemma TokenIsHexExactlyWhen(token: bytes)
    requires ParseInt64(token).Some?
    ensures token != [] && (AllHex(token) <==> !IsSigned(token))
    ensures IsSigned(token) ==> token[1..] != [] && AllHex(token[1..])
    ensures !IsSigned(token) ==> ParseInt64(token) == Some(HexValue(token)) && HexValue(token) < 0x8000_0000_0000_0000
  {
    hide HexValue;
  }

  // ---------------------------------------------------------------- sizes as they are written

  const LOWER_DIGITS: bytes := [48, 49, 50, 51, 52, 53, 54, 55, 56, 57, 97, 98, 99, 100, 101, 102]
  const UPPER_DIGITS: bytes := [48, 49, 50, 51, 52, 53, 54, 55, 56, 57, 65, 66, 67, 68, 69, 70]

  /** A number in base 16, without leading zeros. */
  function Hex(n: nat, table: bytes): (s: bytes)
    requires |table| == 16
    ensures s != []
  {
    if n < 16 then [table[n]] else Hex(n / 16, table) + [table[n % 16]]
  }

  lemma DigitsReadBack(d: nat)
    requires d < 16
    ensures IsHexDigit(LOWER_DIGITS[d]) && HexDigit(LOWER_DIGITS[d]) == d
    ensures IsHexDigit(UPPER_DIGITS[d]) && HexDigit(UPPER_DIGITS[d]) == d
  {
  }

  lemma {:induction false} HexValueSnoc(s: bytes, b: byte)
    requires AllHex(s) && IsHexDigit(b)
    ensures AllHex(s + [b]) && HexValue(s + [b]) == 16 * HexValue(s) + HexDigit(b)
  {
    assert (s + [b])[..|s|] == s;
  }

  /** A number's digits are read as that number. */
  lemma {:induction false} HexReadsBack(n: nat, table: bytes)
    requires table == LOWER_DIGITS || table == UPPER_DIGITS
    ensures AllHex(Hex(n, table)) && HexValue(Hex(n, table)) == n
    decreases n
  {
    hide HexDigit, HexValue, IsHexDigit;
    DigitsReadBack(n % 16);
    if n < 16 {
      HexValueSnoc([], table[n]);
      NothingIsZero();
      assert [] + [table[n]] == [table[n]];
    } else {
      HexReadsBack(n / 16, table);
      HexValueSnoc(Hex(n / 16, table), table[n % 16]);
    }
  }

  lemma NothingIsZero()
    ensures AllHex([]) && HexValue([]) == 0
  {
  }

  function Zeros(k: nat): bytes {
    seq(k, _ => 48)
  }

  function ToLower(s: bytes): bytes {
    seq(|s|, i requires 0 <= i < |s| => if 65 <= s[i] <= 70 then s[i] + 32 else s[i])
  }

  lemma LowerDigit(b: byte)
    requires IsHexDigit(b)
    ensures ToLower([b]) == [LOWER_DIGITS[HexDigit(b)]]
  {
  }

  lemma LowerSnoc(s: bytes, b: byte)
    ensures ToLower(s + [b]) == ToLower(s) + ToLower([b])
  {
  }

  lemma ZerosSnoc(k: nat)
    ensures Zeros(0) == [] && Zeros(k) + [48] == Zeros(k + 1)
  {
  }

  /** And any digits are, but for case and leading zeros, those of the number they are read as. */
  lemma {:induction false} DigitsAreOfValue(s: bytes) returns (k: nat)
    requires s != [] && AllHex(s)
    ensures ToLower(s) == Zeros(k) + Hex(HexValue(s), LOWER_DIGITS)
    decreases |s|
  {
    hide HexDigit, HexValue, IsHexDigit, ToLower, Zeros;
    var n := |s| - 1;
    var t, b := s[..n], s[n];
    assert s == t + [b];
    LowerSnoc(t, b);
    HexValueSnoc(t, b);
    LowerDigit(b);
    NothingIsZero();
    ZerosSnoc(0);
    k := 0;
    if t == [] {
      assert t + [b] == [b] && [] + ToLower([b]) == ToLower([b]);
    } else {
      k := DigitsAreOfValue(t);
      DigitBehind(k, HexValue(t), HexDigit(b));
      if HexValue(t) == 0 {
        k := k + 1;
      }
    }
  }

  lemma DigitBehind(k: nat, n: nat, d: nat)
    requires d < 16
    ensures var front := if n == 0 then k + 1 else k;
      Zeros(k) + Hex(n, LOWER_DIGITS) + [LOWER_DIGITS[d]] == Zeros(front) + Hex(16 * n + d, LOWER_DIGITS)
  {
    hide Zeros;
    ZerosSnoc(k);
    assert (16 * n + d) / 16 == n && (16 * n + d) % 16 == d;
  }

  // ---------------------------------------------------------------- one byte at a time

  datatype Phase = SizeLine | Data | DataCrlf | Trailers

  /** The chunk parser's fields. */
  datatype ChunkState = ChunkState(phase: Phase, line: bytes, remaining: int, crlf: nat)

  const NEW_CHUNKS := ChunkState(SizeLine, [], 0, 0)

  /** The effect of one byte; a byte that fails as chunk terminator is not counted as consumed. */
  datatype ByteResult = Next(state: ChunkState) | Done(state: ChunkState) | Bad(state: ChunkState, counted: nat)

  predicate EndsLine(line: bytes) {
    |line| >= 2 && line[|line| - 2] == CR && line[|line| - 1] == LF
  }

  function Step(s: ChunkState, b: byte): ByteResult {
    match s.phase
    case SizeLine =>
      var line := s.line + [b];
      if !EndsLine(line) then Next(s.(line := line))
      else
        (match SizeOf(line[..|line| - 2])
         case None => Bad(s.(line := []), 1)
         case Some(size) =>
           if size == 0 then Next(s.(line := [], phase := Trailers))
           else Next(s.(line := [], remaining := size, phase := Data)))
    case Data =>
      if s.remaining <= 0 then StepCrlf(s.(phase := DataCrlf), b)
      else Next(s.(remaining := s.remaining - 1, phase := if s.remaining == 1 then DataCrlf else Data))
    case DataCrlf => StepCrlf(s, b)
    case Trailers =>
      var line := s.line + [b];
      if !EndsLine(line) then Next(s.(line := line))
      else if |line| == 2 then Done(s.(line := []))
      else Next(s.(line := []))
  }

  function StepCrlf(s: ChunkState, b: byte): ByteResult {
    if b != (if s.crlf == 1 then LF else CR) then Bad(s, 0)
    else if s.crlf == 1 then Next(s.(crlf := 0, phase := SizeLine))
    else Next(s.(crlf := s.crlf + 1))
  }

  /** What a call of consume reports, and the parser it leaves behind. */
  datatype Outcome<+T> = Outcome(consumed: nat, done: bool, failed: bool, state: T)

  function After<T>(n: nat, o: Outcome<T>): Outcome<T> {
    o.(consumed := n + o.consumed)
  }

  lemma AfterNothing<T>(o: Outcome<T>)
    ensures After(0, o) == o
  {
  }

  /** The meaning of http1ChunkState.consume: feed bytes until the body ends or is malformed. */
  function Feed(s: ChunkState, data: bytes): (o: Outcome<ChunkState>)
    ensures o.consumed <= |data|
    ensures !o.done && !o.failed ==> o.consumed == |data|
    ensures data != [] && !o.failed ==> o.consumed > 0
    decreases |data|
  {
    if data == [] then Outcome(0, false, false, s)
    else
      match Step(s, data[0])
      case Next(t) => After(1, Feed(t, data[1..]))
      case Done(t) => Outcome(1, true, false, t)
      case Bad(t, counted) => Outcome(if counted == 0 then 0 else 1, false, true, t)
  }

  /** Chunk parsing does not depend on where the input was cut. */
  lemma {:induction false} FeedSplit(s: ChunkState, a: bytes, b: bytes)
    ensures Feed(s, a + b) ==
      if Feed(s, a).done || Feed(s, a).failed then Feed(s, a) else After(|a|, Feed(Feed(s, a).state, b))
    decreases |a|
  {
    if a == [] {
      assert a + b == b;
    } else {
      assert (a + b)[1..] == a[1..] + b;
      if Step(s, a[0]).Next? {
        FeedSplit(Step(s, a[0]).state, a[1..], b);
      }
    }
  }

  /** A run of chunk data is skipped in one go. */
  lemma {:induction false} FeedDataRun(s: ChunkState, data: bytes, k: nat)
    requires s.phase == Data && 0 < k <= |data| && k <= s.remaining
    ensures Feed(s, data) ==
      After(k, Feed(s.(remaining := s.remaining - k, phase := if s.remaining == k then DataCrlf else Data), data[k..]))
    decreases k
  {
    if k > 1 {
      FeedDataRun(s.(remaining := s.remaining - 1), data[1..], k - 1);
      assert data[1..][k - 1..] == data[k..];
    }
  }

  /** A chunk without data left, which a negative size makes, is followed by its terminator. */
  lemma FeedEmptyChunk(s: ChunkState, data: bytes)
    requires s.phase == Data && s.remaining <= 0 && data != []
    ensures Feed(s, data) == Feed(s.(phase := DataCrlf), data)
  {
  }

  lemma FeedNothing(s: ChunkState)
    ensures Feed(s, []) == Outcome(0, false, false, s)
  {
  }

  /** One byte of a chunk's terminator. */
  lemma FeedTerminator(s: ChunkState, data: bytes)
    requires s.phase == DataCrlf && s.crlf < 2 && data != []
    ensures Feed(s, data) ==
      if data[0] != (if s.crlf == 1 then LF else CR) then Outcome(0, false, true, s)
      else After(1, Feed(if s.crlf == 1 then s.(crlf := 0, phase := SizeLine) else s.(crlf := 1), data[1..]))
  {
  }

  lemma FeedLast(s: ChunkState, data: bytes)
    requires data != [] && !Step(s, data[0]).Next?
    ensures Feed(s, data) ==
      var r := Step(s, data[0]);
      Outcome(if r.Bad? && r.counted == 0 then 0 else 1, r.Done?, r.Bad?, r.state)
  {
  }

  lemma FeedNext(s: ChunkState, t: ChunkState, data: bytes)
    requires data != [] && Step(s, data[0]) == Next(t)
    ensures Feed(s, data) == After(1, Feed(t, data[1..]))
  {
  }

  // ---------------------------------------------------------------- round trip

  /** No line break inside; a lone CR or LF is fine. */
  predicate IsLineText(s: bytes) {
    forall i :: 0 < i < |s| ==> !(s[i - 1] == CR && s[i] == LF)
  }

  /** What may follow the hex digits: blanks, then nothing or a semicolon and anything. */
  predicate IsExtension(s: bytes) {
    s == [] || s[0] == SEMICOLON || ((s[0] == 32 || s[0] == 9) && IsExtension(s[1..]))
  }

  predicate IsSizeLine(digits: bytes, ext: bytes, size: nat) {
    && digits != [] && AllHex(digits) && HexValue(digits) == size < 0x8000_0000_0000_0000
    && IsExtension(ext) && IsLineText(ext)
  }

  /** A byte that is neither white space nor part of a longer character. */
  predicate IsVisible(b: byte) {
    32 < b < 127
  }

  lemma {:induction false} TrimLeftKeeps(s: bytes)
    requires s != [] && IsVisible(s[0])
    ensures TrimLeft(s) == s
  {
  }

  /** Longer white-space characters consist of non-ASCII bytes. */
  lemma SpaceBytes(r: bytes)
    requires IsSpace(r)
    ensures |r| == 1 ==> r[0] <= 32
    ensures |r| > 1 ==> forall i :: 0 <= i < |r| ==> r[i] >= 0x80
  {
  }

  /** White space at the end of `s` does not reach back to a visible byte. */
  lemma SpaceStaysBehind(s: bytes, i: nat, k: nat)
    requires i < |s| && IsVisible(s[i])
    requires k <= |s| && IsSpace(s[|s| - k..])
    ensures i < |s| - k
  {
    hide IsSpace;
    var r := s[|s| - k..];
    SpaceBytes(r);
    assert forall j :: |s| - k <= j < |s| ==> s[j] == r[j - (|s| - k)];
  }

  lemma {:induction false} TrimRightIsPrefix(s: bytes)
    ensures TrimRight(s) <= s
    decreases |s|
  {
    hide TrailingSpace;
    var k := TrailingSpace(s);
    if k > 0 {
      TrimRightIsPrefix(s[..|s| - k]);
    }
  }

  /** Trimming on the right stops at a visible byte. */
  lemma {:induction false} TrimRightKeeps(s: bytes, i: nat)
    requires i < |s| && IsVisible(s[i])
    ensures |TrimRight(s)| > i && TrimRight(s) <= s
    decreases |s|
  {
    hide IsSpace, IsVisible, TrailingSpace;
    var k := TrailingSpace(s);
    if k > 0 {
      SpaceStaysBehind(s, i, k);
      TrimRightKeeps(s[..|s| - k], i);
    }
  }

  lemma {:induction false} TrimRightBlanks(token: bytes, blanks: bytes)
    requires token != [] && IsVisible(token[|token| - 1]) && AreBlanks(blanks)
    ensures TrimRight(token + blanks) == token
    decreases |blanks|
  {
    var s := token + blanks;
    if blanks != [] {
      assert TrailingSpace(s) == 1;
      assert s[..|s| - 1] == token + blanks[..|blanks| - 1];
      TrimRightBlanks(token, blanks[..|blanks| - 1]);
    } else {
      assert s == token;
      TrimRightKeeps(s, |s| - 1);
    }
  }

  predicate AreBlanks(s: bytes) {
    forall i :: 0 <= i < |s| ==> s[i] == 32 || s[i] == 9
  }

  /** How many blanks an extension starts with. */
  function Blanks(ext: bytes): (n: nat)
    requires IsExtension(ext)
    ensures n <= |ext|
    ensures AreBlanks(ext[..n])
    ensures n < |ext| ==> ext[n] == SEMICOLON
  {
    if ext == [] || ext[0] == SEMICOLON then 0
    else
      var n := Blanks(ext[1..]);
      assert ext[..1 + n] == [ext[0]] + ext[1..][..n];
      1 + n
  }

  lemma {:induction false} CutExtensionAt(s: bytes, n: nat)
    requires n <= |s| && (forall i :: 0 <= i < n ==> s[i] != SEMICOLON) && (n < |s| ==> s[n] == SEMICOLON)
    ensures CutExtension(s) == s[..n]
    decreases n
  {
    if n > 0 {
      CutExtensionAt(s[1..], n - 1);
    }
  }

  /** Visible bytes up to the blanks of an extension are the token. */
  lemma TokenReadsBack(token: bytes, ext: bytes)
    requires token != [] && (forall i :: 0 <= i < |token| ==> IsVisible(token[i]) && token[i] != SEMICOLON)
    requires IsExtension(ext)
    ensures Token(token + ext) == token
    ensures CutExtension(token + ext) == token + ext[..Blanks(ext)]
  {
    hide IsSpace, TrimLeft, TrimRight, CutExtension, AreBlanks;
    var line := token + ext;
    TrimLeftKeeps(line);
    var b := Blanks(ext);
    var n := |token| + b;
    BlanksHideNothing(ext[..b]);
    assert forall i :: |token| <= i < n ==> line[i] == ext[..b][i - |token|];
    CutExtensionAt(line, n);
    if n < |line| {
      TrimRightKeeps(line, n);
      assert TrimRight(line)[n] == line[n] == ext[b] == SEMICOLON;
    } else {
      assert line == token + ext[..b];
      TrimRightBlanks(token, ext[..b]);
      n := |token|;
    }
    var trimmed := TrimSpace(line);
    CutExtensionAt(trimmed, n);
    var cut := trimmed[..n];
    assert cut == token + ext[..n - |token|];
    TrimLeftKeeps(cut);
    if n == |token| {
      assert token + [] == token;
    }
    NoBlanks();
    TrimRightBlanks(token, ext[..n - |token|]);
  }

  lemma NoBlanks()
    ensures AreBlanks([])
  {
  }

  lemma BlanksHideNothing(blanks: bytes)
    requires AreBlanks(blanks)
    ensures forall i :: 0 <= i < |blanks| ==> blanks[i] != SEMICOLON
  {
  }

  /** The size line's digits are found again whatever extension follows them. */
  lemma SizeLineReadsBack(digits: bytes, ext: bytes, size: nat)
    requires IsSizeLine(digits, ext, size)
    ensures Token(digits + ext) == digits && SizeOf(digits + ext) == Some(size)
    ensures CutExtension(digits + ext) == digits + ext[..Blanks(ext)]
  {
    hide Token, HexValue, CutExtension;
    TokenReadsBack(digits, ext);
  }

  /** A sign in front of them is found too. */
  lemma SignedSizeLineReadsBack(sign: byte, digits: bytes, ext: bytes)
    requires IsSigned([sign]) && digits != [] && AllHex(digits) && IsExtension(ext)
    requires HexValue(digits) < 0x8000_0000_0000_0000
    ensures SizeOf([sign] + digits + ext) == Some(if sign == 45 then 0 - HexValue(digits) else HexValue(digits))
  {
    hide Token, HexValue;
    TokenReadsBack([sign] + digits, ext);
    SignedTokenIsRead(digits);
  }

  /** A size written in base 16 is read as it is, whatever extension follows, below 2^63; from there on it is refused. */
  lemma SizeReadsBack(n: nat, table: bytes, ext: bytes)
    requires table == LOWER_DIGITS || table == UPPER_DIGITS
    requires IsExtension(ext)
    ensures SizeOf(Hex(n, table) + ext) == if n < 9_223_372_036_854_775_808 then Some(n) else None
  {
    hide Token, HexValue;
    HexReadsBack(n, table);
    TokenReadsBack(Hex(n, table), ext);
  }

  /** The line "10" announces sixteen bytes. */
  lemma TenIsSixteen()
    ensures SizeOf([49, 48]) == Some(16)
  {
    hide Token;
    assert HexValue([49]) == 1 && [49, 48][..1] == [49];
    assert HexValue([49, 48]) == 16;
    TokenReadsBack([49, 48], []);
    assert [49, 48] + [] == [49, 48];
  }

  // ---------------------------------------------------------------- which size lines conform

  /**
   * A size line in outline: hex digits, then blanks, then nothing or a semicolon and any text. Section 7.1 has
   * further rules for that text, which ChunkGrammar adds.
   */
  ghost predicate Conforms(line: bytes) {
    exists n :: 0 < n <= |line| && AllHex(line[..n]) && IsExtension(line[n..])
  }

  /** The white space between the token and the extension, if the line starts with the token. */
  function Gap(line: bytes): bytes {
    From(CutExtension(line), |Token(line)|)
  }

  function From(s: bytes, n: nat): bytes {
    if n <= |s| then s[n..] else []
  }

  lemma {:induction false} CutExtensionPrefix(line: bytes, prefix: bytes)
    requires prefix <= line
    ensures CutExtension(prefix) <= CutExtension(line) <= line
    ensures |CutExtension(line)| < |line| ==> line[|CutExtension(line)|] == SEMICOLON
    ensures line != [] && line[0] != SEMICOLON && prefix != [] ==> CutExtension(prefix) != []
    decreases |line|
  {
    if line != [] && line[0] != SEMICOLON {
      if prefix == [] {
        CutExtensionPrefix(line[1..], []);
      } else {
        CutExtensionPrefix(line[1..], prefix[1..]);
      }
    }
  }

  lemma {:induction false} ExtensionAfterBlanks(blanks: bytes, rest: bytes)
    requires AreBlanks(blanks) && (rest == [] || rest[0] == SEMICOLON)
    ensures IsExtension(blanks + rest)
    decreases |blanks|
  {
    if blanks == [] {
      assert blanks + rest == rest;
    } else {
      assert (blanks + rest)[1..] == blanks[1..] + rest;
      ExtensionAfterBlanks(blanks[1..], rest);
    }
  }

  /** A line that starts with a visible byte other than the semicolon starts with its token. */
  lemma TokenInFront(line: bytes)
    requires line != [] && IsVisible(line[0]) && line[0] != SEMICOLON
    ensures Token(line) <= CutExtension(line) <= line
    ensures |CutExtension(line)| < |line| ==> line[|CutExtension(line)|] == SEMICOLON
  {
    hide IsSpace, TrimLeft, TrimRight, CutExtension;
    TrimLeftKeeps(line);
    TrimRightKeeps(line, 0);
    var trimmed := TrimRight(line);
    CutExtensionPrefix(line, trimmed);
    var cut := CutExtension(trimmed);
    assert cut[0] == line[0];
    TrimLeftKeeps(cut);
    TrimRightIsPrefix(cut);
  }

  lemma ConformingStartsWithSize(line: bytes, n: nat)
    requires 0 < n <= |line| && AllHex(line[..n]) && IsExtension(line[n..]) && SizeOf(line).Some?
    ensures n == |Token(line)| && StartsWithSize(line, n)
    ensures IsHexDigit(line[0]) && AreBlanks(Gap(line))
  {
    hide Token, CutExtension, IsExtension, HexValue, AreBlanks;
    var digits, ext := line[..n], line[n..];
    assert line == digits + ext;
    TokenReadsBack(digits, ext);
    assert (digits + ext[..Blanks(ext)])[n..] == ext[..Blanks(ext)];
    TokenIsHexExactlyWhen(digits);
    assert line[0] == digits[0];
  }

  lemma HexInFrontConforms(line: bytes)
    requires SizeOf(line).Some? && line != [] && IsHexDigit(line[0]) && AreBlanks(Gap(line))
    ensures Conforms(line)
  {
    hide Token, CutExtension, IsExtension, HexValue, AreBlanks;
    TokenInFront(line);
    TokenIsHexExactlyWhen(Token(line));
    var n, c := |Token(line)|, |CutExtension(line)|;
    assert Token(line)[0] == line[0];
    ExtensionAfterBlanks(Gap(line), line[c..]);
    assert line[n..] == Gap(line) + line[c..];
    assert line[..n] == Token(line);
  }

  /**
   * Which accepted size lines have this outline: those that start with a hex digit, so carry
   * neither sign nor white space in front, and have nothing but blanks as white space behind the digits.
   */
  lemma ConformsExactlyWhen(line: bytes)
    requires SizeOf(line).Some?
    ensures Conforms(line) <==> line != [] && IsHexDigit(line[0]) && AreBlanks(Gap(line))
    ensures Conforms(line) ==> StartsWithSize(line, |Token(line)|)
  {
    hide SizeOf, IsExtension, AreBlanks, Gap, StartsWithSize;
    if Conforms(line) {
      var n :| 0 < n <= |line| && AllHex(line[..n]) && IsExtension(line[n..]);
      ConformingStartsWithSize(line, n);
    } else if line != [] && IsHexDigit(line[0]) && AreBlanks(Gap(line)) {
      HexInFrontConforms(line);
    }
  }

  /** The digits of a conforming line are its token. */
  predicate StartsWithSize(line: bytes, n: nat) {
    && 0 < n <= |line| && AllHex(line[..n]) && IsExtension(line[n..])
    && SizeOf(line) == Some(HexValue(line[..n])) && HexValue(line[..n]) < 0x8000_0000_0000_0000
  }

  /** At the level of the token: it is all hex digits exactly when it carries no sign. */
  lemma SizeIsHexExactlyWhen(line: bytes)
    requires SizeOf(line).Some?
    ensures AllHex(Token(line)) <==> !IsSigned(Token(line))
    ensures SizeOf(line).value < 0 ==> IsSigned(Token(line)) && !Conforms(line)
  {
    hide Token, HexValue, Conforms;
    TokenIsHexExactlyWhen(Token(line));
    ConformsExactlyWhen(line);
    if Conforms(line) {
      assert StartsWithSize(line, |Token(line)|);
    }
  }

  // ---------------------------------------------------------------- every body that is accepted

  /** A chunk as the parser takes it: any line with a size that is not zero, and no data if that is negative. */
  datatype AnyChunk = AnyChunk(line: bytes, data: bytes) {
    predicate Accepted() {
      && IsLineText(line) && SizeOf(line).Some? && SizeOf(line).value != 0
      && |data| == if SizeOf(line).value < 0 then 0 else SizeOf(line).value
    }
  }

  datatype AnyBody = AnyBody(chunks: seq<AnyChunk>, last: bytes, trailers: seq<bytes>) {
    predicate Accepted() {
      && (forall c :: c in chunks ==> c.Accepted())
      && IsLineText(last) && SizeOf(last) == Some(0)
      && AreTrailers(trailers)
    }

    function Encode(): bytes {
      EncodeChunks(chunks) + (last + CRLF) + EncodeTrailers(trailers)
    }

    predicate IsLine(line: bytes) {
      line == last || exists i :: 0 <= i < |chunks| && chunks[i].line == line
    }
  }

  predicate AreTrailers(trailers: seq<bytes>) {
    forall t :: t in trailers ==> t != [] && IsLineText(t)
  }

  function EncodeChunks(chunks: seq<AnyChunk>): bytes {
    if chunks == [] then []
    else (chunks[0].line + CRLF) + (chunks[0].data + CRLF) + EncodeChunks(chunks[1..])
  }

  function EncodeTrailers(trailers: seq<bytes>): bytes {
    if trailers == [] then CRLF else trailers[0] + CRLF + EncodeTrailers(trailers[1..])
  }

  /** Reading a line to its end: whatever was buffered, the first CRLF ends it. */
  lemma {:induction false} FeedLine(s: ChunkState, text: bytes, rest: bytes)
    requires s.phase == SizeLine || s.phase == Trailers
    requires IsLineText(s.line + text)
    ensures var full := s.(line := s.line + text + [CR]);
      Feed(s, text + CRLF + rest) == After(|text| + 1, Feed(full, [LF] + rest))
    decreases |text|
  {
    hide SizeOf;
    var all := text + CRLF + rest;
    if text == [] {
      assert s.line + text == s.line;
      assert all[1..] == [LF] + rest;
      FeedNext(s, s.(line := s.line + [CR]), all);
    } else {
      var t := s.(line := s.line + [text[0]]);
      assert t.line + text[1..] == s.line + text;
      StillText(s.line + text, |t.line|);
      assert t.line == (s.line + text)[..|t.line|];
      FeedNext(s, t, all);
      assert all[1..] == text[1..] + CRLF + rest;
      FeedLine(t, text[1..], rest);
      assert t.line + text[1..] + [CR] == s.line + text + [CR];
    }
  }

  lemma StillText(text: bytes, n: nat)
    requires IsLineText(text) && n <= |text|
    ensures !EndsLine(text[..n])
  {
  }

  /** Without a CRLF the line goes on. */
  lemma {:induction false} FeedText(s: ChunkState, text: bytes)
    requires s.phase == SizeLine || s.phase == Trailers
    requires IsLineText(s.line + text)
    ensures !Feed(s, text).done && !Feed(s, text).failed
    decreases |text|
  {
    hide SizeOf;
    if text != [] {
      var t := s.(line := s.line + [text[0]]);
      assert t.line + text[1..] == s.line + text;
      StillText(s.line + text, |t.line|);
      assert t.line == (s.line + text)[..|t.line|];
      FeedNext(s, t, text);
      FeedText(t, text[1..]);
    }
  }

  /** A whole size line at once. */
  lemma FeedSizeLine(s: ChunkState, line: bytes, rest: bytes)
    requires s.phase == SizeLine && s.line == [] && IsLineText(line)
    ensures Feed(s, (line + CRLF) + rest) == After(|line| + 1,
      match SizeOf(line)
      case None => Outcome(1, false, true, s)
      case Some(size) =>
        After(1, Feed(if size == 0 then s.(phase := Trailers) else s.(remaining := size, phase := Data), rest)))
  {
    hide SizeOf, Feed;
    assert s.line + line == line;
    assert (line + CRLF) + rest == line + CRLF + rest;
    FeedLine(s, line, rest);
    var full := line + [CR];
    assert (full + [LF])[..|full + [LF]| - 2] == line;
    assert ([LF] + rest)[1..] == rest;
    var t := s.(line := full);
    if SizeOf(line).None? {
      FeedLast(t, [LF] + rest);
    } else {
      FeedNext(t, Step(t, LF).state, [LF] + rest);
    }
  }

  lemma FeedCrlf(s: ChunkState, rest: bytes)
    requires s.phase == DataCrlf && s.crlf == 0
    ensures Feed(s, CRLF + rest) == After(2, Feed(s.(phase := SizeLine), rest))
  {
    hide SizeOf, Feed;
    FeedNext(s, s.(crlf := 1), CRLF + rest);
    assert (CRLF + rest)[1..] == [LF] + rest;
    FeedNext(s.(crlf := 1), s.(phase := SizeLine), [LF] + rest);
    assert ([LF] + rest)[1..] == rest;
  }

  lemma FeedChunkData(s: ChunkState, data: bytes, rest: bytes)
    requires s.phase == Data && s.crlf == 0 && |data| == if s.remaining < 0 then 0 else s.remaining
    ensures Feed(s, (data + CRLF) + rest) ==
      After(|data| + 2, Feed(s.(remaining := s.remaining - |data|, phase := SizeLine), rest))
  {
    hide SizeOf, Feed;
    var all := (data + CRLF) + rest;
    var t := s.(remaining := s.remaining - |data|, phase := DataCrlf);
    assert all[|data|..] == CRLF + rest;
    FeedCrlf(t, rest);
    if s.remaining > 0 {
      FeedDataRun(s, all, |data|);
    } else {
      assert all == CRLF + rest;
      FeedEmptyChunk(s, all);
    }
  }

  lemma {:induction false} FeedChunks(s: ChunkState, chunks: seq<AnyChunk>, rest: bytes)
    requires s.phase == SizeLine && s.line == [] && s.crlf == 0
    requires forall c :: c in chunks ==> c.Accepted()
    ensures exists left ::
      Feed(s, EncodeChunks(chunks) + rest) == After(|EncodeChunks(chunks)|, Feed(s.(remaining := left), rest))
    decreases |chunks|
  {
    hide SizeOf, Feed, IsLineText;
    if chunks == [] {
      assert [] + rest == rest;
      assert s.(remaining := s.remaining) == s;
      AfterNothing(Feed(s, rest));
    } else {
      var c := chunks[0];
      assert c in chunks && c.Accepted();
      var tail := EncodeChunks(chunks[1..]) + rest;
      assert EncodeChunks(chunks) + rest == (c.line + CRLF) + ((c.data + CRLF) + tail);
      FeedSizeLine(s, c.line, (c.data + CRLF) + tail);
      var t := s.(remaining := SizeOf(c.line).value, phase := Data);
      FeedChunkData(t, c.data, tail);
      FeedChunks(s.(remaining := t.remaining - |c.data|), chunks[1..], rest);
    }
  }

  /** A trailer line, or the empty line that ends the body. */
  lemma FeedTrailer(s: ChunkState, text: bytes, rest: bytes)
    requires s.phase == Trailers && s.line == [] && IsLineText(text)
    ensures Feed(s, text + CRLF + rest) ==
      if text == [] then Outcome(2, true, false, s) else After(|text| + 2, Feed(s, rest))
  {
    hide SizeOf, Feed;
    assert s.line + text == text;
    FeedLine(s, text, rest);
    assert ([LF] + rest)[1..] == rest;
    var t := s.(line := text + [CR]);
    if text == [] {
      FeedLast(t, [LF] + rest);
    } else {
      FeedNext(t, s, [LF] + rest);
    }
  }

  lemma NothingIsText()
    ensures IsLineText([])
  {
  }

  lemma {:induction false} FeedTrailers(s: ChunkState, trailers: seq<bytes>, rest: bytes)
    requires s.phase == Trailers && s.line == [] && AreTrailers(trailers)
    ensures Feed(s, EncodeTrailers(trailers) + rest) == Outcome(|EncodeTrailers(trailers)|, true, false, s)
    decreases |trailers|
  {
    hide Feed, IsLineText;
    if trailers == [] {
      NothingIsText();
      FeedTrailer(s, [], rest);
      assert [] + CRLF + rest == CRLF + rest;
    } else {
      var tail := EncodeTrailers(trailers[1..]) + rest;
      assert EncodeTrailers(trailers) + rest == trailers[0] + CRLF + tail;
      assert trailers[0] in trailers && forall t :: t in trailers[1..] ==> t in trailers;
      FeedTrailer(s, trailers[0], tail);
      FeedTrailers(s, trailers[1..], rest);
    }
  }

  /** Every such body is accepted: exactly its bytes are consumed and its end is reported. */
  lemma AnyBodyIsAccepted(body: AnyBody, rest: bytes)
    requires body.Accepted()
    ensures var o := Feed(NEW_CHUNKS, body.Encode() + rest);
      o.consumed == |body.Encode()| && o.done && !o.failed
  {
    hide SizeOf, Feed, IsLineText, AreTrailers;
    var trailers := EncodeTrailers(body.trailers) + rest;
    var last := (body.last + CRLF) + trailers;
    assert body.Encode() + rest == EncodeChunks(body.chunks) + last;
    FeedChunks(NEW_CHUNKS, body.chunks, last);
    var left :| Feed(NEW_CHUNKS, EncodeChunks(body.chunks) + last)
      == After(|EncodeChunks(body.chunks)|, Feed(NEW_CHUNKS.(remaining := left), last));
    var s := NEW_CHUNKS.(remaining := left);
    FeedSizeLine(s, body.last, trailers);
    FeedTrailers(s.(phase := Trailers), body.trailers, rest);
  }

  lemma PairOccurs(data: bytes, j: nat)
    ensures OccursAt(data, CRLF, j) <==> j + 1 < |data| && data[j] == CR && data[j + 1] == LF
  {
    if j + 2 <= |data| {
      assert data[j..j + 2] == [data[j], data[j + 1]];
    }
  }

  /** A line at the front of the data, if there is one. */
  lemma SplitLine(data: bytes) returns (text: bytes, rest: bytes)
    requires IndexOf(data, CRLF).Some?
    ensures data == text + CRLF + rest && IsLineText(text)
  {
    hide IndexOf, OccursAt;
    var i := IndexOf(data, CRLF).value;
    PairOccurs(data, i);
    text, rest := data[..i], data[i + 2..];
    forall j | 0 < j < i
      ensures !(text[j - 1] == CR && text[j] == LF)
    {
      assert !OccursAt(data, CRLF, j - 1);
      PairOccurs(data, j - 1);
    }
  }

  lemma NoLine(data: bytes)
    requires IndexOf(data, CRLF).None?
    ensures IsLineText(data)
  {
    hide IndexOf, OccursAt;
    forall j | 0 < j < |data|
      ensures !(data[j - 1] == CR && data[j] == LF)
    {
      if data[j - 1] == CR && data[j] == LF {
        PairOccurs(data, j - 1);
      }
    }
  }

  lemma {:induction false} TrailersOf(s: ChunkState, data: bytes) returns (trailers: seq<bytes>)
    requires s.phase == Trailers && s.line == [] && Feed(s, data).done
    ensures AreTrailers(trailers)
    ensures |EncodeTrailers(trailers)| == Feed(s, data).consumed && EncodeTrailers(trailers) <= data
    decreases |data|
  {
    hide Feed, IsLineText;
    if IndexOf(data, CRLF).None? {
      NoLine(data);
      assert s.line + data == data;
      FeedText(s, data);
      assert false;
    }
    var text, rest := SplitLine(data);
    FeedTrailer(s, text, rest);
    trailers := [];
    if text == [] {
      assert EncodeTrailers(trailers) == CRLF;
    } else {
      var later := TrailersOf(s, rest);
      trailers := [text] + later;
      assert trailers[1..] == later;
    }
  }

  lemma DataGoesOn(s: ChunkState, data: bytes)
    requires s.phase == Data && s.remaining > |data|
    ensures !Feed(s, data).done && !Feed(s, data).failed
  {
    hide Feed;
    FeedNothing(s);
    if data != [] {
      FeedDataRun(s, data, |data|);
      FeedNothing(s.(remaining := s.remaining - |data|));
      assert data[|data|..] == [];
    }
  }

  /** The data of a chunk and its CRLF, when the body goes on to its end. */
  lemma ChunkDataOf(s: ChunkState, data: bytes) returns (chunk: bytes, rest: bytes)
    requires s.phase == Data && s.crlf == 0 && s.remaining != 0 && Feed(s, data).done
    ensures data == (chunk + CRLF) + rest && |chunk| == if s.remaining < 0 then 0 else s.remaining
  {
    hide Feed;
    var n := if s.remaining < 0 then 0 else s.remaining;
    FeedNothing(s);
    if n > |data| {
      DataGoesOn(s, data);
      assert false;
    }
    var t := s.(remaining := s.remaining - n, phase := DataCrlf);
    if n > 0 {
      FeedDataRun(s, data, n);
    } else {
      assert data[0..] == data;
      FeedEmptyChunk(s, data);
    }
    CrlfOf(t, data[n..]);
    chunk, rest := data[..n], data[n + 2..];
    assert data[n..][..2] == CRLF;
    assert data == (chunk + data[n..][..2]) + rest;
  }

  lemma CrlfOf(s: ChunkState, data: bytes)
    requires s.phase == DataCrlf && s.crlf == 0 && Feed(s, data).done
    ensures |data| >= 2 && data[..2] == CRLF
  {
    hide Feed, SizeOf;
    FeedNothing(s);
    FeedNothing(s.(crlf := 1));
    if data[0] != CR {
      FeedLast(s, data);
      assert false;
    }
    FeedNext(s, s.(crlf := 1), data);
    if data[1..] != [] && data[1] != LF {
      FeedLast(s.(crlf := 1), data[1..]);
      assert false;
    }
  }

  lemma LastLineAlone(line: bytes, trailers: seq<bytes>)
    ensures AnyBody([], line, trailers).Encode() == (line + CRLF) + EncodeTrailers(trailers)
  {
    assert [] + (line + CRLF) == line + CRLF;
  }

  /** One more chunk in front. */
  function WithChunk(line: bytes, chunk: bytes, later: AnyBody): AnyBody {
    later.(chunks := [AnyChunk(line, chunk)] + later.chunks)
  }

  lemma ChunkInFront(line: bytes, chunk: bytes, later: AnyBody)
    requires later.Accepted() && AnyChunk(line, chunk).Accepted()
    ensures WithChunk(line, chunk, later).Accepted()
    ensures WithChunk(line, chunk, later).Encode() == (line + CRLF) + ((chunk + CRLF) + later.Encode())
  {
    hide SizeOf, IsLineText, AreTrailers;
    var body := WithChunk(line, chunk, later);
    assert body.chunks[1..] == later.chunks;
  }

  lemma {:induction false} BodyOf(s: ChunkState, data: bytes) returns (body: AnyBody)
    requires s.phase == SizeLine && s.line == [] && s.crlf == 0 && Feed(s, data).done
    ensures body.Accepted()
    ensures |body.Encode()| == Feed(s, data).consumed && body.Encode() <= data
    decreases |data|
  {
    hide Feed, IsLineText, SizeOf, AreTrailers, AnyBody.Encode;
    if IndexOf(data, CRLF).None? {
      NoLine(data);
      assert s.line + data == data;
      FeedText(s, data);
      assert false;
    }
    var line, rest := SplitLine(data);
    assert data == (line + CRLF) + rest;
    FeedSizeLine(s, line, rest);
    var size := SizeOf(line).value;
    if size == 0 {
      var trailers := TrailersOf(s.(phase := Trailers), rest);
      body := AnyBody([], line, trailers);
      LastLineAlone(line, trailers);
    } else {
      var chunk, tail := ChunkDataOf(s.(remaining := size, phase := Data), rest);
      FeedChunkData(s.(remaining := size, phase := Data), chunk, tail);
      var later := BodyOf(s.(remaining := size - |chunk|), tail);
      body := WithChunk(line, chunk, later);
      ChunkInFront(line, chunk, later);
    }
  }

  /** And nothing else is accepted: what a new parser consumed when it reports the end is such a body. */
  lemma AcceptedIsAnyBody(data: bytes) returns (body: AnyBody)
    requires Feed(NEW_CHUNKS, data).done
    ensures body.Accepted() && body.Encode() == data[..Feed(NEW_CHUNKS, data).consumed]
  {
    hide Feed;
    body := BodyOf(NEW_CHUNKS, data);
  }

  // ---------------------------------------------------------------- every stream that is refused

  predicate AllAccepted(chunks: seq<AnyChunk>) {
    forall c :: c in chunks ==> c.Accepted()
  }

  /** How many bytes of data a size announces; none if it is negative. */
  function Room(size: int): nat {
    if size < 0 then 0 else size
  }

  /** What stands where a chunk's line break should is something else. */
  predicate BreaksOff(tail: bytes, n: nat, k: nat) {
    || (k == n < |tail| && tail[n] != CR)
    || (k == n + 1 < |tail| && tail[n] == CR && tail[n + 1] != LF)
  }

  /**
   * The bytes start with a chunk that is refused once `k` of them are consumed: with a line that is no size, or
   * with a chunk whose data is not followed by a line break.
   */
  ghost predicate IsRefused(rest: bytes, k: nat) {
    exists line: bytes, tail: bytes ::
      && rest == (line + CRLF) + tail && IsLineText(line)
      && match SizeOf(line)
         case None => k == |line| + 2
         case Some(size) => size != 0 && k >= |line| + 2 && BreaksOff(tail, Room(size), k - |line| - 2)
  }

  lemma RefusedLine(line: bytes, tail: bytes, k: nat)
    requires IsLineText(line)
    requires SizeOf(line).None? ==> k == |line| + 2
    requires SizeOf(line).Some? ==>
      SizeOf(line).value != 0 && k >= |line| + 2 && BreaksOff(tail, Room(SizeOf(line).value), k - |line| - 2)
    ensures IsRefused((line + CRLF) + tail, k)
  {
    hide SizeOf, IsLineText, BreaksOff;
  }

  /** A chunk's data with something other than a line break behind it fails there. */
  lemma BrokenOffFails(s: ChunkState, tail: bytes, k: nat)
    requires s.phase == Data && s.crlf == 0 && s.remaining != 0 && BreaksOff(tail, Room(s.remaining), k)
    ensures Feed(s, tail).failed && Feed(s, tail).consumed == k
  {
    hide Feed, SizeOf;
    var n := Room(s.remaining);
    var t := s.(remaining := s.remaining - n, phase := DataCrlf);
    if n > 0 {
      FeedDataRun(s, tail, n);
    } else {
      assert tail[0..] == tail;
      FeedEmptyChunk(s, tail);
    }
    if tail[n] != CR {
      FeedLast(t, tail[n..]);
    } else {
      FeedNext(t, t.(crlf := 1), tail[n..]);
      assert tail[n..][1..] == tail[n + 1..];
      FeedLast(t.(crlf := 1), tail[n + 1..]);
    }
  }

  lemma RefusedFails(s: ChunkState, rest: bytes, k: nat)
    requires s.phase == SizeLine && s.line == [] && s.crlf == 0 && IsRefused(rest, k)
    ensures Feed(s, rest).failed && Feed(s, rest).consumed == k
  {
    hide Feed, SizeOf, IsLineText, BreaksOff;
    var line: bytes, tail: bytes :|
      && rest == (line + CRLF) + tail && IsLineText(line)
      && match SizeOf(line)
         case None => k == |line| + 2
         case Some(size) => size != 0 && k >= |line| + 2 && BreaksOff(tail, Room(size), k - |line| - 2);
    FeedSizeLine(s, line, tail);
    if SizeOf(line).Some? {
      BrokenOffFails(s.(remaining := SizeOf(line).value, phase := Data), tail, k - |line| - 2);
    }
  }

  lemma {:induction false} TrailersNeverFail(s: ChunkState, data: bytes)
    requires s.phase == Trailers
    ensures !Feed(s, data).failed
    decreases |data|
  {
    hide SizeOf;
    if data != [] && Step(s, data[0]).Next? {
      TrailersNeverFail(Step(s, data[0]).state, data[1..]);
    }
  }

  /** Where chunk data fails, it breaks off; or else the data is complete with its line break. */
  lemma FailingData(s: ChunkState, tail: bytes) returns (whole: bool, k: nat)
    requires s.phase == Data && s.crlf == 0 && s.remaining != 0 && Feed(s, tail).failed
    ensures !whole ==> BreaksOff(tail, Room(s.remaining), k)
    ensures whole ==> Room(s.remaining) + 2 <= |tail| && tail[Room(s.remaining)..][..2] == CRLF
  {
    hide Feed, SizeOf;
    var n := Room(s.remaining);
    FeedNothing(s);
    if n > |tail| {
      DataGoesOn(s, tail);
      assert false;
    }
    var t := s.(remaining := s.remaining - n, phase := DataCrlf);
    FeedNothing(t);
    FeedNothing(t.(crlf := 1));
    if n > 0 {
      FeedDataRun(s, tail, n);
    } else {
      assert tail[0..] == tail;
      FeedEmptyChunk(s, tail);
    }
    whole, k := false, n;
    if tail[n] == CR {
      FeedNext(t, t.(crlf := 1), tail[n..]);
      assert tail[n..][1..] == tail[n + 1..];
      k := n + 1;
      whole := tail[n + 1] == LF;
    }
  }

  lemma NoChunks(data: bytes)
    ensures AllAccepted([]) && EncodeChunks([]) + data == data
  {
  }

  lemma ChunkBefore(line: bytes, chunk: bytes, later: seq<AnyChunk>, rest: bytes)
    requires IsLineText(line) && SizeOf(line).Some? && SizeOf(line).value != 0
    requires |chunk| == Room(SizeOf(line).value) && AllAccepted(later)
    ensures AllAccepted([AnyChunk(line, chunk)] + later)
    ensures EncodeChunks([AnyChunk(line, chunk)] + later) + rest
         == (line + CRLF) + ((chunk + CRLF) + (EncodeChunks(later) + rest))
  {
    hide SizeOf, IsLineText;
    var chunks := [AnyChunk(line, chunk)] + later;
    assert chunks[1..] == later;
  }

  lemma {:induction false} FailedOf(s: ChunkState, data: bytes) returns (chunks: seq<AnyChunk>, rest: bytes, k: nat)
    requires s.phase == SizeLine && s.line == [] && s.crlf == 0 && Feed(s, data).failed
    ensures AllAccepted(chunks) && data == EncodeChunks(chunks) + rest && IsRefused(rest, k)
    decreases |data|
  {
    hide Feed, IsLineText, SizeOf, IsRefused, BreaksOff, AllAccepted, IndexOf, EncodeChunks;
    NoChunks(data);
    if IndexOf(data, CRLF).None? {
      NoLine(data);
      assert s.line + data == data;
      FeedText(s, data);
      assert false;
    }
    var line, tail := SplitLine(data);
    assert data == (line + CRLF) + tail;
    FeedSizeLine(s, line, tail);
    chunks, rest := [], data;
    if SizeOf(line).None? {
      k := |line| + 2;
      RefusedLine(line, tail, k);
    } else if SizeOf(line).value == 0 {
      TrailersNeverFail(s.(phase := Trailers), tail);
      assert false;
    } else {
      var size := SizeOf(line).value;
      var t := s.(remaining := size, phase := Data);
      var whole;
      whole, k := FailingData(t, tail);
      if whole {
        var n := Room(size);
        var chunk, behind := tail[..n], tail[n + 2..];
        assert tail == (chunk + tail[n..][..2]) + behind;
        FeedChunkData(t, chunk, behind);
        var later;
        later, rest, k := FailedOf(s.(remaining := size - |chunk|), behind);
        chunks := [AnyChunk(line, chunk)] + later;
        ChunkBefore(line, chunk, later, rest);
      } else {
        k := k + |line| + 2;
        RefusedLine(line, tail, k);
      }
    }
  }

  /** The parser stops with an error behind accepted chunks where a chunk is refused, and nowhere else. */
  lemma FailsExactlyWhen(data: bytes)
    ensures Feed(NEW_CHUNKS, data).failed <==>
      exists chunks, rest, k :: AllAccepted(chunks) && data == EncodeChunks(chunks) + rest && IsRefused(rest, k)
    ensures forall chunks, rest, k :: AllAccepted(chunks) && data == EncodeChunks(chunks) + rest && IsRefused(rest, k) ==>
      Feed(NEW_CHUNKS, data).consumed == |EncodeChunks(chunks)| + k
  {
    hide Feed, IsRefused, EncodeChunks, AnyChunk.Accepted;
    if Feed(NEW_CHUNKS, data).failed {
      var chunks, rest, k := FailedOf(NEW_CHUNKS, data);
    }
    forall chunks, rest, k | AllAccepted(chunks) && data == EncodeChunks(chunks) + rest && IsRefused(rest, k)
      ensures Feed(NEW_CHUNKS, data).failed && Feed(NEW_CHUNKS, data).consumed == |EncodeChunks(chunks)| + k
    {
      FeedChunks(NEW_CHUNKS, chunks, rest);
      var left :| Feed(NEW_CHUNKS, EncodeChunks(chunks) + rest)
        == After(|EncodeChunks(chunks)|, Feed(NEW_CHUNKS.(remaining := left), rest));
      RefusedFails(NEW_CHUNKS.(remaining := left), rest, k);
    }
  }

  lemma NoBreakInside(text: bytes, rest: bytes, i: nat)
    requires IsLineText(text) && i < |text|
    ensures var s := text + CRLF + rest; !(s[i] == CR && s[i + 1] == LF)
  {
    var s := text + CRLF + rest;
    assert s[i] == text[i] && s[i + 1] == if i + 1 < |text| then text[i + 1] else CR;
  }

  lemma SameLine(a: bytes, b: bytes, restA: bytes, restB: bytes)
    requires IsLineText(a) && IsLineText(b) && a + CRLF + restA == b + CRLF + restB
    ensures a == b && restA == restB
  {
    hide IsLineText;
    var s := a + CRLF + restA;
    assert s[|a|] == s[|b|] == CR && s[|a| + 1] == s[|b| + 1] == LF;
    if |a| < |b| {
      NoBreakInside(b, restB, |a|);
    } else if |b| < |a| {
      NoBreakInside(a, restA, |b|);
    }
    assert a == s[..|a|] && b == s[..|b|] && restA == s[|a| + 2..] && restB == s[|b| + 2..];
  }

  lemma {:induction false} SameTrailers(a: seq<bytes>, b: seq<bytes>)
    requires AreTrailers(a) && AreTrailers(b) && EncodeTrailers(a) == EncodeTrailers(b)
    ensures a == b
    decreases |a|
  {
    hide IsLineText;
    var x, restA := FirstTrailer(a);
    var y, restB := FirstTrailer(b);
    SameLine(x, y, restA, restB);
    if a != [] {
      SameTrailers(a[1..], b[1..]);
      assert a == [a[0]] + a[1..] && b == [b[0]] + b[1..];
    }
  }

  /** The first line of a trailer section; empty at its end. */
  lemma FirstTrailer(trailers: seq<bytes>) returns (text: bytes, rest: bytes)
    requires AreTrailers(trailers)
    ensures EncodeTrailers(trailers) == text + CRLF + rest && IsLineText(text)
    ensures trailers == [] <==> text == []
    ensures trailers != [] ==>
      text == trailers[0] && rest == EncodeTrailers(trailers[1..]) && AreTrailers(trailers[1..])
  {
    if trailers == [] {
      text, rest := [], [];
      assert [] + CRLF + [] == CRLF;
    } else {
      text, rest := trailers[0], EncodeTrailers(trailers[1..]);
      assert trailers[0] in trailers && forall t :: t in trailers[1..] ==> t in trailers;
    }
  }

  /** The first line of a body: a chunk's, with the rest of the body after it, or the last. */
  lemma FirstLine(body: AnyBody) returns (line: bytes, rest: bytes, later: AnyBody)
    requires body.Accepted()
    ensures body.Encode() == line + CRLF + rest && IsLineText(line) && SizeOf(line).Some?
    ensures body.chunks == [] <==> SizeOf(line).value == 0
    ensures body.chunks == [] ==> line == body.last && rest == EncodeTrailers(body.trailers)
    ensures body.chunks != [] ==>
      && line == body.chunks[0].line && body.chunks[0].Accepted()
      && later == body.(chunks := body.chunks[1..]) && later.Accepted()
      && rest == (body.chunks[0].data + CRLF) + later.Encode()
  {
    hide SizeOf, IsLineText;
    later := body;
    if body.chunks == [] {
      line, rest := body.last, EncodeTrailers(body.trailers);
      assert body.Encode() == line + CRLF + rest;
    } else {
      var c := body.chunks[0];
      later := body.(chunks := body.chunks[1..]);
      assert c in body.chunks && forall d :: d in later.chunks ==> d in body.chunks;
      line, rest := c.line, (c.data + CRLF) + later.Encode();
      assert body.Encode() == line + CRLF + rest;
    }
  }

  /** A body can be read in one way only. */
  lemma {:induction false} SameBody(a: AnyBody, b: AnyBody)
    requires a.Accepted() && b.Accepted() && a.Encode() == b.Encode()
    ensures a == b
    decreases |a.chunks|
  {
    hide SizeOf, IsLineText, AreTrailers, AnyBody.Encode;
    var x, restA, laterA := FirstLine(a);
    var y, restB, laterB := FirstLine(b);
    SameLine(x, y, restA, restB);
    if a.chunks == [] {
      SameTrailers(a.trailers, b.trailers);
    } else {
      var c, d := a.chunks[0], b.chunks[0];
      assert restA[..|c.data|] == c.data && restB[..|d.data|] == d.data;
      assert restA[|c.data| + 2..] == laterA.Encode() && restB[|d.data| + 2..] == laterB.Encode();
      SameBody(laterA, laterB);
      assert a.chunks == [c] + laterA.chunks && b.chunks == [d] + laterB.chunks;
    }
  }

  // ---------------------------------------------------------------- bodies in outline

  datatype Chunk = Chunk(digits: bytes, ext: bytes, data: bytes) {
    predicate Valid() {
      data != [] && IsSizeLine(digits, ext, |data|)
    }
  }

  /**
   * A chunked body in outline: chunks, the last chunk of size zero, trailer lines. The text of extensions and
   * of trailers is any; every body of section 7.1 is one of these.
   */
  datatype ChunkedBody = ChunkedBody(chunks: seq<Chunk>, zero: bytes, lastExt: bytes, trailers: seq<bytes>) {
    predicate Valid() {
      && (forall c :: c in chunks ==> c.Valid())
      && IsSizeLine(zero, lastExt, 0)
      && AreTrailers(trailers)
    }

    /** The same body with its size lines as they are sent. */
    function AsAny(): AnyBody {
      AnyBody(seq(|chunks|, i requires 0 <= i < |chunks| => AnyChunk(chunks[i].digits + chunks[i].ext, chunks[i].data)),
              zero + lastExt, trailers)
    }

    function Encode(): bytes {
      AsAny().Encode()
    }
  }

  lemma SizeLineIsAccepted(digits: bytes, ext: bytes, size: nat)
    requires IsSizeLine(digits, ext, size)
    ensures IsLineText(digits + ext) && SizeOf(digits + ext) == Some(size) && Conforms(digits + ext)
  {
    hide SizeOf, IsExtension, HexValue;
    SizeLineReadsBack(digits, ext, size);
    var line := digits + ext;
    assert forall i :: 0 <= i < |digits| ==> line[i] == digits[i];
    assert line[..|digits|] == digits && line[|digits|..] == ext;
  }

  lemma ValidIsAccepted(body: ChunkedBody)
    requires body.Valid()
    ensures body.AsAny().Accepted()
    ensures forall line :: body.AsAny().IsLine(line) ==> Conforms(line)
  {
    hide SizeOf, IsSizeLine, IsLineText, Conforms, AreTrailers;
    SizeLineIsAccepted(body.zero, body.lastExt, 0);
    var any := body.AsAny();
    forall i | 0 <= i < |any.chunks|
      ensures any.chunks[i].Accepted() && Conforms(any.chunks[i].line)
    {
      var c := body.chunks[i];
      assert c in body.chunks;
      SizeLineIsAccepted(c.digits, c.ext, |c.data|);
    }
  }

  lemma OutlineIsConsumed(body: ChunkedBody, rest: bytes)
    requires body.Valid()
    ensures var o := Feed(NEW_CHUNKS, body.Encode() + rest);
      o.consumed == |body.Encode()| && o.done && !o.failed
  {
    hide Feed, AnyBody.Encode;
    ValidIsAccepted(body);
    AnyBodyIsAccepted(body.AsAny(), rest);
  }

  /** A chunk as it is sent: its data, the extension on its size line, and the case of the size's digits. */
  datatype SentChunk = SentChunk(data: bytes, ext: bytes, table: bytes) {
    predicate Valid() {
      && data != [] && |data| < 9_223_372_036_854_775_808 && IsExtension(ext) && IsLineText(ext)
      && (table == LOWER_DIGITS || table == UPPER_DIGITS)
    }

    function Encode(): bytes
      requires Valid()
    {
      Hex(|data|, table) + ext + [13, 10] + data + [13, 10]
    }
  }

  predicate AllValid(chunks: seq<SentChunk>) {
    forall i :: 0 <= i < |chunks| ==> chunks[i].Valid()
  }

  /** A body as it is sent: for each chunk the number of its bytes and the bytes, zero, the trailer lines. */
  function SentBody(chunks: seq<SentChunk>, ext: bytes, trailers: seq<bytes>): bytes
    requires AllValid(chunks)
  {
    if chunks == [] then [48] + ext + [13, 10] + SentTrailers(trailers)
    else chunks[0].Encode() + SentBody(chunks[1..], ext, trailers)
  }

  function SentTrailers(trailers: seq<bytes>): bytes {
    if trailers == [] then [13, 10] else trailers[0] + [13, 10] + SentTrailers(trailers[1..])
  }

  lemma {:induction false} SentTrailersAre(trailers: seq<bytes>)
    ensures SentTrailers(trailers) == EncodeTrailers(trailers)
    decreases |trailers|
  {
    if trailers != [] {
      SentTrailersAre(trailers[1..]);
    }
  }

  /** A body as it is sent has the outline. */
  lemma {:induction false} SentIsOutlined(chunks: seq<SentChunk>, ext: bytes, trailers: seq<bytes>) returns (b: ChunkedBody)
    requires AllValid(chunks) && IsExtension(ext) && IsLineText(ext) && AreTrailers(trailers)
    ensures b.Valid() && b.Encode() == SentBody(chunks, ext, trailers)
    decreases |chunks|
  {
    hide HexValue, IsHexDigit, IsExtension, IsLineText, AreTrailers, Hex, AnyBody.Encode, ChunkedBody.AsAny;
    if chunks == [] {
      b := ChunkedBody([], [48], ext, trailers);
      HexReadsBack(0, LOWER_DIGITS);
      ZeroDigits();
      SentTrailersAre(trailers);
      OutlineWithout(b);
    } else {
      var c := chunks[0];
      var later := SentIsOutlined(chunks[1..], ext, trailers);
      var first := Chunk(Hex(|c.data|, c.table), c.ext, c.data);
      HexReadsBack(|c.data|, c.table);
      b := later.(chunks := [first] + later.chunks);
      OutlineWith(first, later);
    }
  }

  lemma ZeroDigits()
    ensures Hex(0, LOWER_DIGITS) == [48]
  {
  }

  lemma OutlineWithout(b: ChunkedBody)
    requires b.chunks == []
    ensures b.Encode() == b.zero + b.lastExt + [13, 10] + EncodeTrailers(b.trailers)
  {
    assert b.AsAny().chunks == [];
  }

  lemma OutlineWith(first: Chunk, later: ChunkedBody)
    ensures later.(chunks := [first] + later.chunks).Encode()
         == first.digits + first.ext + [13, 10] + first.data + [13, 10] + later.Encode()
  {
    var b := later.(chunks := [first] + later.chunks);
    assert b.AsAny().chunks[0] == AnyChunk(first.digits + first.ext, first.data);
    assert b.AsAny().chunks[1..] == later.AsAny().chunks;
  }

  /**
   * Chunked round trip: fed a body as it is sent, each chunk behind the number of its bytes, and any bytes after it,
   * a new chunk parser consumes exactly the body and reports the end, so the next pipelined request is left alone.
   */
  lemma ChunkedRoundTrip(chunks: seq<SentChunk>, ext: bytes, trailers: seq<bytes>, rest: bytes)
    requires AllValid(chunks) && IsExtension(ext) && IsLineText(ext) && AreTrailers(trailers)
    ensures var o := Feed(NEW_CHUNKS, SentBody(chunks, ext, trailers) + rest);
      o.consumed == |SentBody(chunks, ext, trailers)| && o.done && !o.failed
  {
    hide Feed, AnyBody.Encode, IsExtension, IsLineText, AreTrailers, SentBody;
    var b := SentIsOutlined(chunks, ext, trailers);
    OutlineIsConsumed(b, rest);
  }

  /** A conforming line as digits and extension. */
  function DigitsOf(line: bytes): bytes {
    if |Token(line)| <= |line| then line[..|Token(line)|] else []
  }

  lemma LineIsSizeLine(line: bytes)
    requires IsLineText(line) && SizeOf(line).Some? && Conforms(line)
    ensures line == DigitsOf(line) + From(line, |DigitsOf(line)|)
    ensures SizeOf(line).value >= 0
    ensures IsSizeLine(DigitsOf(line), From(line, |DigitsOf(line)|), SizeOf(line).value)
  {
    hide Token, HexValue, IsExtension, Conforms;
    ConformsExactlyWhen(line);
    var n := |Token(line)|;
    assert forall i :: 0 <= i < |line| - n ==> line[n..][i] == line[n + i];
  }

  /**
   * Which accepted bodies have the outline: those all of whose size lines have it. A line with a sign has not,
   * so "-5", whose chunk is taken to have no data, makes a body that section 7.1 does not allow.
   */
  lemma BodyConformsExactlyWhen(body: AnyBody)
    requires body.Accepted()
    ensures (exists b: ChunkedBody :: b.Valid() && b.Encode() == body.Encode()) <==>
      forall line :: body.IsLine(line) ==> Conforms(line)
  {
    hide SizeOf, IsSizeLine, IsLineText, Conforms, AreTrailers, AnyBody.Encode;
    if b: ChunkedBody :| b.Valid() && b.Encode() == body.Encode() {
      ValidIsAccepted(b);
      SameBody(b.AsAny(), body);
    }
    if forall line :: body.IsLine(line) ==> Conforms(line) {
      var b := Conforming(body);
      assert b.Valid() && b.Encode() == body.Encode();
    }
  }

  lemma Conforming(body: AnyBody) returns (b: ChunkedBody)
    requires body.Accepted() && forall line :: body.IsLine(line) ==> Conforms(line)
    ensures b.Valid() && b.AsAny() == body
  {
    hide SizeOf, IsSizeLine, IsLineText, Conforms, AreTrailers, DigitsOf;
    assert body.IsLine(body.last);
    LineIsSizeLine(body.last);
    var chunks := seq(|body.chunks|, i requires 0 <= i < |body.chunks| =>
      var c := body.chunks[i]; Chunk(DigitsOf(c.line), From(c.line, |DigitsOf(c.line)|), c.data));
    b := ChunkedBody(chunks, DigitsOf(body.last), From(body.last, |DigitsOf(body.last)|), body.trailers);
    forall i | 0 <= i < |chunks|
      ensures chunks[i].Valid() && AnyChunk(chunks[i].digits + chunks[i].ext, chunks[i].data) == body.chunks[i]
    {
      var c := body.chunks[i];
      assert c in body.chunks && body.IsLine(c.line);
      LineIsSizeLine(c.line);
    }
  }

  /** White space stands only where the outline has it: not in front, and blanks behind the size. */
  predicate IsSpacedWell(line: bytes) {
    line != [] && IsVisible(line[0]) && AreBlanks(Gap(line))
  }

  /** A line that is accepted does not start with its extension. */
  lemma SizeStartsVisibly(line: bytes)
    requires SizeOf(line).Some? && line != [] && IsVisible(line[0])
    ensures line[0] != SEMICOLON
  {
    hide IsSpace, TrimLeft, TrimRight, ParseInt64;
    if line[0] == SEMICOLON {
      TrimLeftKeeps(line);
      TrimRightKeeps(line, 0);
      NothingIsNoSize();
    }
  }

  lemma SpacedWellConformsExactlyWhen(line: bytes)
    requires SizeOf(line).Some? && IsSpacedWell(line)
    ensures Conforms(line) <==> !IsSigned(Token(line))
  {
    hide Token, IsExtension, HexValue, Gap;
    ConformsExactlyWhen(line);
    SizeStartsVisibly(line);
    TokenInFront(line);
    TokenIsHexExactlyWhen(Token(line));
    assert Token(line)[0] == line[0];
  }

  lemma NothingIsNoSize()
    ensures ParseInt64(TrimSpace([])).None?
  {
  }

  /** So of the bodies without white space elsewhere, those with the outline are those without a sign. */
  lemma UnsignedExactlyWhen(body: AnyBody)
    requires body.Accepted() && forall line :: body.IsLine(line) ==> IsSpacedWell(line)
    ensures (exists b: ChunkedBody :: b.Valid() && b.Encode() == body.Encode()) <==>
      forall line :: body.IsLine(line) ==> !IsSigned(Token(line))
  {
    hide SizeOf, IsSpacedWell, Conforms, AnyBody.Encode, ChunkedBody.Valid, ChunkedBody.Encode, Token, IsSigned;
    BodyConformsExactlyWhen(body);
    forall line | body.IsLine(line)
      ensures Conforms(line) <==> !IsSigned(Token(line))
    {
      assert SizeOf(line).Some? by {
        LinesHaveSizes(body, line);
      }
      SpacedWellConformsExactlyWhen(line);
    }
  }

  lemma LinesHaveSizes(body: AnyBody, line: bytes)
    requires body.Accepted() && body.IsLine(line)
    ensures SizeOf(line).Some?
  {
    hide SizeOf;
    if line != body.last {
      var i :| 0 <= i < |body.chunks| && body.chunks[i].line == line;
      assert body.chunks[i] in body.chunks;
    }
  }

  /** A body with one chunk whose size carries a minus: what follows its line is taken to be its end. */
  function Negative(digits: bytes, ext: bytes): AnyBody {
    AnyBody([AnyChunk([45] + digits + ext, [])], [48], [])
  }

  lemma NegativeLine(digits: bytes, ext: bytes)
    requires digits != [] && AllHex(digits) && 0 < HexValue(digits) < 0x8000_0000_0000_0000
    requires IsExtension(ext) && IsLineText(ext)
    ensures var line := [45] + digits + ext;
      IsLineText(line) && SizeOf(line).Some? && SizeOf(line).value < 0 && !Conforms(line)
  {
    hide SizeOf, HexValue, Conforms, Token;
    var line := [45] + digits + ext;
    SignedSizeLineReadsBack(45, digits, ext);
    SizeIsHexExactlyWhen(line);
    assert line[0] == 45 && forall i :: 0 <= i < |digits| ==> line[1 + i] == digits[i];
    assert forall i :: 0 <= i < |ext| ==> line[1 + |digits| + i] == ext[i];
  }

  /**
   * It is accepted, without data for the chunk, though no body with the outline, so none of section 7.1, reads
   * like it.
   */
  lemma NegativeChunkIsAccepted(digits: bytes, ext: bytes, rest: bytes)
    requires digits != [] && AllHex(digits) && 0 < HexValue(digits) < 0x8000_0000_0000_0000
    requires IsExtension(ext) && IsLineText(ext)
    ensures var body := Negative(digits, ext);
      && body.Accepted()
      && Feed(NEW_CHUNKS, body.Encode() + rest).done
      && Feed(NEW_CHUNKS, body.Encode() + rest).consumed == |body.Encode()|
      && !exists b: ChunkedBody :: b.Valid() && b.Encode() == body.Encode()
  {
    hide SizeOf, Feed, AnyBody.Encode, HexValue, Conforms, IsLineText, ChunkedBody.Valid, ChunkedBody.Encode;
    NegativeLine(digits, ext);
    ZeroIsSize();
    NothingIsText();
    var body := Negative(digits, ext);
    AnyBodyIsAccepted(body, rest);
    assert body.IsLine(body.chunks[0].line);
    BodyConformsExactlyWhen(body);
  }

  lemma ZeroIsSize()
    ensures SizeOf([48]) == Some(0) && IsLineText([48])
  {
    assert HexValue([48]) == 0;
    SizeLineReadsBack([48], [], 0);
    assert [48] + [] == [48];
  }

  // ---------------------------------------------------------------- the tracker object

  datatype Mode = ModeNone | ModeContentLength | ModeChunked

  /** The tracker's fields as a value. */
  datatype Tracking = Tracking(mode: Mode, left: int, chunks: ChunkState)

  /** The meaning of http1BodyTracker.consume on a non-nil tracker. */
  function Track(t: Tracking, data: bytes): (o: Outcome<Tracking>)
    ensures o.consumed <= |data|
    ensures !o.done && !o.failed ==> o.consumed == |data|
    ensures o.consumed == 0 && !o.failed ==> o.state == t
    ensures data == [] ==> o == Outcome(0, false, false, t)
  {
    if data == [] then Outcome(0, false, false, t)
    else
      match t.mode
      case ModeContentLength =>
        if t.left <= 0 then Outcome(0, true, false, t)
        else
          var n := if |data| > t.left then t.left else |data|;
          Outcome(n, n == t.left, false, t.(left := t.left - n))
      case ModeChunked =>
        var o := Feed(t.chunks, data);
        Outcome(o.consumed, o.done, o.failed, t.(chunks := o.state))
      case ModeNone => Outcome(0, true, false, t)
  }

  /**
   * Split invariance in every mode: either the first part already settles the matter, or all of it was
   * consumed and the second part is treated as if it had come along.
   */
  lemma TrackSplit(t: Tracking, a: bytes, b: bytes)
    ensures Track(t, a).done || Track(t, a).failed ==> Track(t, a + b) == Track(t, a)
    ensures !Track(t, a).done && !Track(t, a).failed ==>
      Track(t, a).consumed == |a| && Track(t, a + b) == After(|a|, Track(Track(t, a).state, b))
  {
    hide Feed, Step;
    if a == [] {
      assert a + b == b;
    } else if b == [] {
      assert a + b == a;
      FeedSplit(t.chunks, a, b);
    } else {
      FeedSplit(t.chunks, a, b);
    }
  }

  class BodyTracker {
    var mode: Mode
    var remaining: int
    var phase: Phase
    var lineBuf: bytes
    var chunkRemaining: int
    var crlfProgress: nat

    constructor (mode: Mode, remaining: int)
      ensures Value() == Tracking(mode, remaining, NEW_CHUNKS)
      ensures Valid()
    {
      this.mode, this.remaining := mode, remaining;
      phase, lineBuf, chunkRemaining, crlfProgress := SizeLine, [], 0, 0;
    }

    /** At most one byte of a chunk terminator is remembered between calls. */
    predicate Valid()
      reads this
    {
      crlfProgress < 2
    }

    function Chunks(): ChunkState
      reads this
    {
      ChunkState(phase, lineBuf, chunkRemaining, crlfProgress)
    }

    function Value(): Tracking
      reads this
    {
      Tracking(mode, remaining, Chunks())
    }

    method Consume(data: bytes) returns (consumed: nat, done: bool, failed: bool)
      requires Valid()
      modifies this
      ensures Valid()
      ensures Outcome(consumed, done, failed, Value()) == Track(old(Value()), data)
    {
      if |data| == 0 {
        return 0, false, false;
      }
      match mode {
        case ModeContentLength =>
          if remaining <= 0 {
            return 0, true, false;
          }
          var n := |data|;
          if n > remaining {
            n := remaining;
          }
          remaining := remaining - n;
          return n, remaining == 0, false;
        case ModeChunked =>
          consumed, done, failed := ConsumeChunks(data);
        case ModeNone =>
          return 0, true, false;
      }
    }

    /** The inner loop over the two bytes that end a chunk's data. */
    method ConsumeTerminator(data: bytes, from: nat) returns (idx: nat, ok: bool)
      requires Valid() && phase == DataCrlf && from < |data|
      modifies `crlfProgress
      ensures from <= idx <= |data| && crlfProgress <= 2
      ensures !ok ==> crlfProgress < 2
      ensures !ok ==> old(Feed(Chunks(), data[from..])) == After(idx - from, Outcome(0, false, true, Chunks()))
      ensures ok && crlfProgress < 2 ==>
        old(Feed(Chunks(), data[from..])) == After(idx - from, Outcome(0, false, false, Chunks()))
      ensures ok && crlfProgress == 2 ==> from < idx
      ensures ok && crlfProgress == 2 ==>
        old(Feed(Chunks(), data[from..])) == After(idx - from, Feed(Chunks().(crlf := 0, phase := SizeLine), data[idx..]))
    {
      hide Feed, Step;
      idx := from;
      ghost var all := Feed(Chunks(), data[from..]);
      while crlfProgress < 2 && idx < |data|
        invariant from <= idx <= |data| && crlfProgress <= 2
        invariant from == idx ==> crlfProgress < 2
        invariant crlfProgress < 2 ==> all == After(idx - from, Feed(Chunks(), data[idx..]))
        invariant crlfProgress == 2 ==>
          all == After(idx - from, Feed(Chunks().(crlf := 0, phase := SizeLine), data[idx..]))
      {
        assert data[idx..][0] == data[idx] && data[idx..][1..] == data[idx + 1..];
        FeedTerminator(Chunks(), data[idx..]);
        var expected := if crlfProgress == 1 then LF else CR;
        if data[idx] != expected {
          return idx, false;
        }
        crlfProgress := crlfProgress + 1;
        idx := idx + 1;
      }
      FeedNothing(Chunks());
      return idx, true;
    }

    /** One byte of a chunk-size line. */
    method SizeLineByte(b: byte) returns (failed: bool)
      requires phase == SizeLine
      modifies `phase, `lineBuf, `chunkRemaining
      ensures Step(old(Chunks()), b) == if failed then Bad(Chunks(), 1) else Next(Chunks())
    {
      hide ParseInt64, TrimSpace, CutExtension;
      lineBuf := lineBuf + [b];
      var line := lineBuf;
      if !EndsLine(line) {
        return false;
      }
      var sizeLine := TrimSpace(line[..|line| - 2]);
      lineBuf := [];
      var size := ParseInt64(TrimSpace(CutExtension(sizeLine)));
      if size.None? {
        return true;
      }
      if size.value == 0 {
        phase := Trailers;
        return false;
      }
      chunkRemaining := size.value;
      phase := Data;
      return false;
    }

    /** One byte of the trailer section. */
    method TrailerByte(b: byte) returns (done: bool)
      requires phase == Trailers
      modifies `lineBuf
      ensures Step(old(Chunks()), b) == if done then Done(Chunks()) else Next(Chunks())
    {
      lineBuf := lineBuf + [b];
      var line := lineBuf;
      if !EndsLine(line) {
        return false;
      }
      lineBuf := [];
      return |line| == 2;
    }

    /** As much of a chunk's data as there is. */
    method ConsumeData(data: bytes, from: nat) returns (idx: nat)
      requires phase == Data && from < |data|
      modifies `phase, `chunkRemaining
      ensures from <= idx <= |data| && (phase == Data ==> from < idx)
      ensures phase == Data || phase == DataCrlf
      ensures old(Feed(Chunks(), data[from..])) == After(idx - from, Feed(Chunks(), data[idx..]))
    {
      hide Feed;
      if chunkRemaining <= 0 {
        FeedEmptyChunk(Chunks(), data[from..]);
        phase := DataCrlf;
        AfterNothing(Feed(Chunks(), data[from..]));
        return from;
      }
      var toConsume := |data| - from;
      if toConsume > chunkRemaining {
        toConsume := chunkRemaining;
      }
      FeedDataRun(Chunks(), data[from..], toConsume);
      assert data[from..][toConsume..] == data[from + toConsume..];
      idx := from + toConsume;
      chunkRemaining := chunkRemaining - toConsume;
      if chunkRemaining == 0 {
        phase := DataCrlf;
      }
    }

    method ConsumeChunks(data: bytes) returns (idx: nat, done: bool, failed: bool)
      requires Valid()
      modifies `phase, `lineBuf, `chunkRemaining, `crlfProgress
      ensures Valid()
      ensures Outcome(idx, done, failed, Chunks()) == Feed(old(Chunks()), data)
    {
      hide Step, Feed;
      idx := 0;
      ghost var all := Feed(Chunks(), data);
      while idx < |data|
        invariant idx <= |data| && Valid()
        invariant all == After(idx, Feed(Chunks(), data[idx..]))
        decreases |data| - idx, phase == Data
      {
        assert data[idx..][0] == data[idx] && data[idx..][1..] == data[idx + 1..];
        match phase {
          case SizeLine =>
            ghost var s := Chunks();
            failed := SizeLineByte(data[idx]);
            idx := idx + 1;
            if failed {
              FeedLast(s, data[idx - 1..]);
              return idx, false, true;
            }
            FeedNext(s, Chunks(), data[idx - 1..]);
          case Data =>
            idx := ConsumeData(data, idx);
          case DataCrlf =>
            var ok: bool;
            idx, ok := ConsumeTerminator(data, idx);
            if !ok {
              return idx, false, true;
            }
            if crlfProgress < 2 {
              return idx, false, false;
            }
            crlfProgress := 0;
            phase := SizeLine;
          case Trailers =>
            ghost var s := Chunks();
            done := TrailerByte(data[idx]);
            idx := idx + 1;
            if done {
              FeedLast(s, data[idx - 1..]);
              return idx, true, false;
            }
            FeedNext(s, Chunks(), data[idx - 1..]);
        }
      }
      FeedNothing(Chunks());
      return idx, false, false;
    }
  }
}
