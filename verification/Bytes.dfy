/** Byte strings and the big-endian integers that every wire format of the program uses. */
module Bytes {
  import opened Wrappers

  type byte = x: int | 0 <= x < 256

  type bytes = seq<byte>

  const CR: byte := 13
  const LF: byte := 10

  function U16(b: bytes): (n: nat)
    requires |b| >= 2
    ensures n < 0x1_0000
  {
    (b[0] as int) * 256 + b[1] as int
  }

  function U24(b: bytes): (n: nat)
    requires |b| >= 3
    ensures n < 0x100_0000
  {
    (b[0] as int) * 0x1_0000 + (b[1] as int) * 256 + b[2] as int
  }

  function U32(b: bytes): (n: nat)
    requires |b| >= 4
    ensures n < 0x1_0000_0000
  {
    U16(b) * 0x1_0000 + U16(b[2..])
  }

  function Put16(n: nat): (b: bytes)
    requires n < 0x1_0000
    ensures |b| == 2 && U16(b) == n
  {
    [n / 256, n % 256]
  }

  function Put24(n: nat): (b: bytes)
    requires n < 0x100_0000
    ensures |b| == 3 && U24(b) == n
  {
    [n / 0x1_0000, (n / 256) % 256, n % 256]
  }

  function Put32(n: nat): (b: bytes)
    requires n < 0x1_0000_0000
    ensures |b| == 4 && U32(b) == n
  {
    var b := Put16(n / 0x1_0000) + Put16(n % 0x1_0000);
    assert b[2..] == Put16(n % 0x1_0000);
    b
  }

  /** `pattern` occurs in `s` at position `i`. */
  predicate OccursAt(s: bytes, pattern: bytes, i: int) {
    0 <= i && i + |pattern| <= |s| && s[i..i + |pattern|] == pattern
  }

  lemma OccursBehindFirst(s: bytes, pattern: bytes)
    requires s != []
    ensures forall j :: 1 <= j ==> (OccursAt(s, pattern, j) <==> OccursAt(s[1..], pattern, j - 1))
  {
    forall j | 1 <= j
      ensures OccursAt(s, pattern, j) <==> OccursAt(s[1..], pattern, j - 1)
    {
      if j + |pattern| <= |s| {
        var a, b := s[j..j + |pattern|], s[1..][j - 1..j - 1 + |pattern|];
        assert |a| == |b| && forall k :: 0 <= k < |a| ==> a[k] == s[j + k] == b[k];
        assert a == b;
      }
    }
  }

  /** Where `pattern` first occurs in `s`, if it does. */
  function IndexOf(s: bytes, pattern: bytes): (r: Option<nat>)
    ensures r.Some? ==> OccursAt(s, pattern, r.value)
    ensures r.Some? ==> forall j :: 0 <= j < r.value ==> !OccursAt(s, pattern, j)
    ensures r.None? ==> forall j :: !OccursAt(s, pattern, j)
  {
    if |s| < |pattern| then None
    else if s[..|pattern|] == pattern then Some(0)
    else
      var r := IndexOf(s[1..], pattern);
      OccursBehindFirst(s, pattern);
      if r.Some? then Some(r.value + 1) else None
  }

  /** Reading more input never moves an occurrence that was already there. */
  lemma IndexOfExtended(s: bytes, pattern: bytes, more: bytes)
    requires IndexOf(s, pattern).Some?
    ensures IndexOf(s + more, pattern) == IndexOf(s, pattern)
  {
    forall j | 0 <= j && j + |pattern| <= |s|
      ensures OccursAt(s + more, pattern, j) == OccursAt(s, pattern, j)
    {
      assert (s + more)[j..j + |pattern|] == s[j..j + |pattern|];
    }
    var i := IndexOf(s, pattern).value;
    assert OccursAt(s + more, pattern, i);
    var k := IndexOf(s + more, pattern).value;
    assert k <= i;
    assert OccursAt(s, pattern, k);
  }

  lemma OccurrenceIsFound(s: bytes, pattern: bytes, i: int)
    requires OccursAt(s, pattern, i)
    ensures IndexOf(s, pattern).Some?
  {
  }

  lemma OccursInPrefix(s: bytes, pattern: bytes, i: int, n: nat)
    requires OccursAt(s, pattern, i) && i + |pattern| <= n <= |s|
    ensures OccursAt(s[..n], pattern, i)
  {
    var a, b := s[..n][i..i + |pattern|], s[i..i + |pattern|];
    assert |a| == |b| && forall k :: 0 <= k < |a| ==> a[k] == s[i + k] == b[k];
    assert a == b;
  }

  /** Nor does cutting off what follows it. */
  lemma IndexOfTruncated(s: bytes, pattern: bytes, n: nat)
    requires IndexOf(s, pattern).Some? && IndexOf(s, pattern).value + |pattern| <= n <= |s|
    ensures IndexOf(s[..n], pattern) == IndexOf(s, pattern)
  {
    OccursInPrefix(s, pattern, IndexOf(s, pattern).value, n);
    OccurrenceIsFound(s[..n], pattern, IndexOf(s, pattern).value);
    hide IndexOf, OccursAt;
    IndexOfExtended(s[..n], pattern, s[n..]);
    assert s[..n] + s[n..] == s;
  }

  /** The code points of white space, from the tab to the ideographic space. */
  const SPACES: set<nat> := {
    0x9, 0xA, 0xB, 0xC, 0xD, 0x20, 0x85, 0xA0, 0x1680, 0x2000, 0x2001, 0x2002, 0x2003, 0x2004, 0x2005, 0x2006, 0x2007,
    0x2008, 0x2009, 0x200A, 0x2028, 0x2029, 0x202F, 0x205F, 0x3000}

  /** A code point of the basic plane in UTF-8. */
  function Utf8(cp: nat): bytes
    requires cp < 0x1_0000
  {
    if cp < 0x80 then [cp]
    else if cp < 0x800 then [0xC0 + cp / 64, 0x80 + cp % 64]
    else [0xE0 + cp / 4096, 0x80 + cp / 64 % 64, 0x80 + cp % 64]
  }
}
