/**
 * The text that the chunk parser does not look at: chunk extensions and trailer fields by the grammar of section
 * 7.1 of RFC 9112 (with tokens, quoted strings and field lines as in section 5.6 of RFC 9110), and so which of
 * the bodies it accepts that grammar allows.
 */
module ChunkGrammar {
  import opened Wrappers
  import opened Bytes
  import opened Http1Body

  const QUOTE: byte := 34
  const BACKSLASH: byte := 92
  const EQUALS: byte := 61
  const COLON: byte := 58

  predicate IsTokenChar(b: byte) {
    || 48 <= b <= 57 || 65 <= b <= 90 || 97 <= b <= 122
    || b == 33 || 35 <= b <= 39 || b == 42 || b == 43 || b == 45 || b == 46 || 94 <= b <= 96 || b == 124 || b == 126
  }

  predicate IsToken(s: bytes) {
    s != [] && forall i :: 0 <= i < |s| ==> IsTokenChar(s[i])
  }

  /** A blank, a visible character or a byte of 128 or more. */
  predicate IsText(b: byte) {
    b == 9 || 32 <= b <= 126 || b >= 128
  }

  /** Between the quotes: text without quotes and backslashes, or a backslash and any text byte. */
  predicate IsQuotedText(s: bytes) {
    || s == []
    || (IsText(s[0]) && s[0] != QUOTE && s[0] != BACKSLASH && IsQuotedText(s[1..]))
    || (s[0] == BACKSLASH && |s| >= 2 && IsText(s[1]) && IsQuotedText(s[2..]))
  }

  predicate IsQuoted(s: bytes) {
    |s| >= 2 && s[0] == QUOTE && s[|s| - 1] == QUOTE && IsQuotedText(s[1..|s| - 1])
  }

  /** An equals sign between blanks, and a token or quoted string. */
  datatype ExtensionValue = ExtensionValue(before: bytes, after: bytes, text: bytes) {
    predicate Valid() {
      AreBlanks(before) && AreBlanks(after) && (IsToken(text) || IsQuoted(text))
    }

    function Encode(): bytes {
      before + [EQUALS] + after + text
    }
  }

  /** A semicolon between blanks, a name, and perhaps a value. */
  datatype ExtensionItem = ExtensionItem(before: bytes, after: bytes, name: bytes, value: Option<ExtensionValue>) {
    predicate Valid() {
      AreBlanks(before) && AreBlanks(after) && IsToken(name) && (value.Some? ==> value.value.Valid())
    }

    function Encode(): bytes {
      before + ([SEMICOLON] + (after + (name + if value.Some? then value.value.Encode() else [])))
    }
  }

  function EncodeItems(items: seq<ExtensionItem>): bytes {
    if items == [] then [] else items[0].Encode() + EncodeItems(items[1..])
  }

  ghost predicate IsChunkExt(s: bytes) {
    exists items: seq<ExtensionItem> :: (forall i :: 0 <= i < |items| ==> items[i].Valid()) && EncodeItems(items) == s
  }

  /** A name, a colon and text. */
  predicate IsFieldLine(t: bytes) {
    exists n :: 0 < n < |t| && t[n] == COLON && IsToken(t[..n]) && forall i :: n < i < |t| ==> IsText(t[i])
  }

  /** A body that the grammar allows. */
  ghost predicate IsGrammatical(b: ChunkedBody) {
    && b.Valid()
    && (forall i :: 0 <= i < |b.chunks| ==> IsChunkExt(b.chunks[i].ext))
    && IsChunkExt(b.lastExt)
    && forall i :: 0 <= i < |b.trailers| ==> IsFieldLine(b.trailers[i])
  }

  /** What follows the size on its line. */
  function Behind(line: bytes): bytes {
    From(line, |Token(line)|)
  }

  ghost predicate IsStrictLine(line: bytes) {
    line != [] && IsHexDigit(line[0]) && IsChunkExt(Behind(line))
  }

  lemma ExtIsExtension(s: bytes)
    requires IsChunkExt(s)
    ensures IsExtension(s)
  {
    hide IsChunkExt, IsExtension;
    if s == [] {
      NothingIsExtension();
    } else {
      var i, j := NameComesFirst(s);
      assert s == s[..i] + s[i..];
      ExtensionAfterBlanks(s[..i], s[i..]);
    }
  }

  lemma NothingIsExtension()
    ensures IsExtension([])
  {
  }

  /** An accepted line that starts with a hex digit starts with its token, all hex. */
  lemma TokenOfStrictLine(line: bytes)
    requires SizeOf(line).Some? && line != [] && IsHexDigit(line[0])
    ensures line == Token(line) + Behind(line) && Token(line) != [] && AllHex(Token(line))
    ensures |Token(line)| <= |line|
  {
    hide Token, HexValue, CutExtension;
    TokenInFront(line);
    TokenIsHexExactlyWhen(Token(line));
    assert Token(line)[0] == line[0];
  }

  lemma StrictLineConforms(line: bytes)
    requires SizeOf(line).Some? && IsStrictLine(line)
    ensures Conforms(line)
  {
    hide SizeOf, Token, IsChunkExt, IsExtension;
    TokenOfStrictLine(line);
    ExtIsExtension(Behind(line));
    var n := |Token(line)|;
    assert line[..n] == Token(line) && line[n..] == Behind(line);
  }

  lemma GrammaticalLineIsStrict(digits: bytes, ext: bytes, size: nat)
    requires IsSizeLine(digits, ext, size) && IsChunkExt(ext)
    ensures IsStrictLine(digits + ext)
  {
    hide Token, IsChunkExt, IsExtension, HexValue;
    SizeLineReadsBack(digits, ext, size);
    assert (digits + ext)[|digits|..] == ext && (digits + ext)[0] == digits[0];
  }

  ghost predicate AllStrict(body: AnyBody) {
    && (forall line :: body.IsLine(line) ==> IsStrictLine(line))
    && forall i :: 0 <= i < |body.trailers| ==> IsFieldLine(body.trailers[i])
  }

  lemma GrammaticalIsStrict(b: ChunkedBody)
    requires IsGrammatical(b)
    ensures AllStrict(b.AsAny())
  {
    hide IsSizeLine, IsStrictLine, IsChunkExt, IsFieldLine, AreTrailers;
    GrammaticalLineIsStrict(b.zero, b.lastExt, 0);
    forall line | b.AsAny().IsLine(line)
      ensures IsStrictLine(line)
    {
      if line != b.zero + b.lastExt {
        var i :| 0 <= i < |b.chunks| && b.AsAny().chunks[i].line == line;
        var c := b.chunks[i];
        assert c in b.chunks;
        GrammaticalLineIsStrict(c.digits, c.ext, |c.data|);
      }
    }
  }

  lemma StrictIsGrammatical(body: AnyBody) returns (b: ChunkedBody)
    requires body.Accepted() && AllStrict(body)
    ensures IsGrammatical(b) && b.AsAny() == body
  {
    hide SizeOf, IsSizeLine, Conforms, IsStrictLine, IsChunkExt, IsFieldLine, AreTrailers, Token, DigitsOf, Behind,
         IsLineText;
    forall line | body.IsLine(line)
      ensures Conforms(line)
    {
      LinesHaveSizes(body, line);
      StrictLineConforms(line);
    }
    b := Conforming(body);
    forall i | 0 <= i < |b.chunks|
      ensures IsChunkExt(b.chunks[i].ext)
    {
      var c := b.chunks[i];
      assert c in b.chunks;
      assert body.chunks[i] == AnyChunk(c.digits + c.ext, c.data);
      assert body.IsLine(body.chunks[i].line);
      ExtIsBehind(c.digits, c.ext, |c.data|);
    }
    assert body.last == b.zero + b.lastExt && body.IsLine(body.last);
    ExtIsBehind(b.zero, b.lastExt, 0);
  }

  lemma ExtIsBehind(digits: bytes, ext: bytes, size: nat)
    requires IsSizeLine(digits, ext, size)
    ensures Behind(digits + ext) == ext
    ensures IsStrictLine(digits + ext) ==> IsChunkExt(ext)
  {
    hide Token, IsChunkExt, IsExtension, HexValue;
    SizeLineReadsBack(digits, ext, size);
    assert (digits + ext)[|digits|..] == ext;
  }

  /**
   * Which of the accepted bodies section 7.1 of RFC 9112 allows: those whose size lines start with a hex digit,
   * so carry neither sign nor white space in front, with chunk extensions of its grammar behind the size, and
   * whose trailer lines are fields. None of the three is checked by the parser.
   */
  lemma GrammaticalExactlyWhen(body: AnyBody)
    requires body.Accepted()
    ensures (exists b: ChunkedBody :: IsGrammatical(b) && b.Encode() == body.Encode()) <==> AllStrict(body)
  {
    hide AllStrict, IsGrammatical, AnyBody.Encode, AnyBody.Accepted;
    if b: ChunkedBody :| IsGrammatical(b) && b.Encode() == body.Encode() {
      assert b.Valid() by {
        GrammaticalIsValid(b);
      }
      ValidIsAccepted(b);
      SameBody(b.AsAny(), body);
      GrammaticalIsStrict(b);
    }
    if AllStrict(body) {
      var b := StrictIsGrammatical(body);
      assert b.Encode() == body.Encode();
    }
  }

  lemma GrammaticalIsValid(b: ChunkedBody)
    requires IsGrammatical(b)
    ensures b.Valid()
  {
  }

  /** Only the sign can be at fault: visible in front, extensions behind the size, fields as trailers. */
  ghost predicate IsOtherwiseGrammatical(body: AnyBody) {
    && (forall line :: body.IsLine(line) ==> line != [] && IsVisible(line[0]) && IsChunkExt(Behind(line)))
    && forall i :: 0 <= i < |body.trailers| ==> IsFieldLine(body.trailers[i])
  }

  /** Of the accepted bodies that are grammatical otherwise, section 7.1 allows exactly those without a sign. */
  lemma UnsignedIsGrammaticalExactlyWhen(body: AnyBody)
    requires body.Accepted() && IsOtherwiseGrammatical(body)
    ensures (exists b: ChunkedBody :: IsGrammatical(b) && b.Encode() == body.Encode()) <==>
      forall line :: body.IsLine(line) ==> !IsSigned(Token(line))
  {
    hide SizeOf, Token, IsChunkExt, IsFieldLine, AnyBody.Encode, IsGrammatical, IsSigned, Behind;
    GrammaticalExactlyWhen(body);
    forall line | body.IsLine(line)
      ensures IsHexDigit(line[0]) <==> !IsSigned(Token(line))
    {
      LinesHaveSizes(body, line);
      HexInFrontExactlyWhen(line);
    }
  }

  lemma HexInFrontExactlyWhen(line: bytes)
    requires SizeOf(line).Some? && line != [] && IsVisible(line[0])
    ensures IsHexDigit(line[0]) <==> !IsSigned(Token(line))
  {
    hide Token, HexValue, CutExtension;
    SizeStartsVisibly(line);
    TokenInFront(line);
    TokenIsHexExactlyWhen(Token(line));
    assert Token(line)[0] == line[0];
  }

  /** Extension text is not looked at: this line has size 5, though its extension has no name. */
  lemma AnyExtensionTextIsAccepted()
    ensures SizeOf([53, SEMICOLON, EQUALS, QUOTE]) == Some(5)
    ensures !IsChunkExt([SEMICOLON, EQUALS, QUOTE])
    ensures !IsStrictLine([53, SEMICOLON, EQUALS, QUOTE])
  {
    hide Token, SizeOf;
    var ext: bytes := [SEMICOLON, EQUALS, QUOTE];
    assert HexValue([53]) == HexValue([]) * 16 + 5;
    assert [53] + ext == [53, SEMICOLON, EQUALS, QUOTE];
    SizeLineReadsBack([53], ext, 5);
    assert Token([53, SEMICOLON, EQUALS, QUOTE]) == [53];
    assert Behind([53, SEMICOLON, EQUALS, QUOTE]) == ext;
    NamelessExtension();
  }

  /** An extension that is not empty has a semicolon behind blanks, and a name behind blanks after it. */
  lemma NameComesFirst(s: bytes) returns (i: nat, j: nat)
    requires IsChunkExt(s) && s != []
    ensures i < j < |s| && s[i] == SEMICOLON && IsTokenChar(s[j])
    ensures forall k :: 0 <= k < j && k != i ==> s[k] == 32 || s[k] == 9
  {
    var items: seq<ExtensionItem> :| (forall k :: 0 <= k < |items| ==> items[k].Valid()) && EncodeItems(items) == s;
    var it := items[0];
    assert it.Valid();
    var value := if it.value.Some? then it.value.value.Encode() else [];
    i, j := |it.before|, |it.before| + 1 + |it.after|;
    Positions(it.before, it.after, it.name, value, EncodeItems(items[1..]));
  }

  lemma Positions(before: bytes, after: bytes, name: bytes, value: bytes, more: bytes)
    requires name != []
    ensures var s := before + ([SEMICOLON] + (after + (name + value))) + more;
      var n := |before|;
      && |s| > n + 1 + |after| && s[n] == SEMICOLON && s[n + 1 + |after|] == name[0]
      && (forall k :: 0 <= k < n ==> s[k] == before[k])
      && forall k :: n < k < n + 1 + |after| ==> s[k] == after[k - n - 1]
  {
  }

  lemma NamelessExtension()
    ensures !IsChunkExt([SEMICOLON, EQUALS, QUOTE])
  {
    hide IsChunkExt;
    var ext: bytes := [SEMICOLON, EQUALS, QUOTE];
    if IsChunkExt(ext) {
      var i, j := NameComesFirst(ext);
    }
  }
}
