/** Strings and domain patterns as the routing code normalises and matches them. */
module RoutingRules {
  import opened Bytes

  /** White space of unicode.IsSpace. */
  predicate IsSpace(c: char) {
    || 9 as char <= c <= 13 as char || c == ' '
    || c as int in {0x85, 0xA0, 0x1680, 0x2028, 0x2029, 0x202F, 0x205F, 0x3000}
    || 0x2000 <= c as int <= 0x200A
  }

  function TrimLeft(s: string): string {
    if s != [] && IsSpace(s[0]) then TrimLeft(s[1..]) else s
  }

  function TrimRight(s: string): string {
    if s != [] && IsSpace(s[|s| - 1]) then TrimRight(s[..|s| - 1]) else s
  }

  function TrimSpace(s: string): string {
    TrimRight(TrimLeft(s))
  }

  function LowerChar(c: char): char {
    if 'A' <= c <= 'Z' then c + 32 as char else c
  }

  function ToLower(s: string): string {
    seq(|s|, i requires 0 <= i < |s| => LowerChar(s[i]))
  }

  function Normalized(s: string): string {
    ToLower(TrimSpace(s))
  }

  predicate IsTrimmed(s: string) {
    s != [] ==> !IsSpace(s[0]) && !IsSpace(s[|s| - 1])
  }

  lemma {:induction false} TrimmedAlready(s: string)
    requires IsTrimmed(s)
    ensures TrimSpace(s) == s
  {
  }

  lemma {:induction false} TrimLeftTrims(s: string)
    ensures TrimLeft(s) != [] ==> !IsSpace(TrimLeft(s)[0])
  {
    if s != [] && IsSpace(s[0]) {
      TrimLeftTrims(s[1..]);
    }
  }

  lemma {:induction false} TrimRightTrims(s: string)
    ensures TrimRight(s) <= s
    ensures TrimRight(s) != [] ==> !IsSpace(TrimRight(s)[|TrimRight(s)| - 1])
  {
    if s != [] && IsSpace(s[|s| - 1]) {
      TrimRightTrims(s[..|s| - 1]);
    }
  }

  /** Normalising twice is normalising once. */
  lemma NormalizedIsIdempotent(s: string)
    ensures Normalized(Normalized(s)) == Normalized(s)
  {
    hide TrimLeft, TrimRight;
    TrimLeftTrims(s);
    TrimRightTrims(TrimLeft(s));
    var n := Normalized(s);
    assert forall c :: IsSpace(LowerChar(c)) <==> IsSpace(c);
    TrimmedAlready(n);
    assert ToLower(n) == n;
  }

  const CAPITALS := "ABCDEFGHIJKLMNOPQRSTUVWXYZ"
  const SMALL := "abcdefghijklmnopqrstuvwxyz"

  lemma CharactersMeaning(c: char, i: nat)
    ensures IsSpace(c) <==> c as int in SPACES
    ensures i < 26 ==> LowerChar(CAPITALS[i]) == SMALL[i]
    ensures c !in CAPITALS ==> LowerChar(c) == c
  {
    if 'A' <= c <= 'Z' {
      assert CAPITALS[c as int - 65] == c;
    }
  }

  predicate AllSpaces(s: string) {
    forall i :: 0 <= i < |s| ==> IsSpace(s[i])
  }

  /** A normal form is what stands between the outer blanks, with its capitals made small. */
  lemma NormalFormMeaning(s: string) returns (front: string, back: string)
    ensures s == front + TrimSpace(s) + back && AllSpaces(front) && AllSpaces(back) && IsTrimmed(TrimSpace(s))
    ensures |Normalized(s)| == |TrimSpace(s)|
    ensures forall i :: 0 <= i < |Normalized(s)| ==> Normalized(s)[i] == LowerChar(TrimSpace(s)[i])
  {
    hide TrimLeft, TrimRight, IsSpace, LowerChar;
    front := TrimmedFront(s);
    back := TrimmedBack(TrimLeft(s));
    TrimLeftTrims(s);
    TrimRightTrims(TrimLeft(s));
    assert s == front + (TrimSpace(s) + back);
  }

  lemma {:induction false} TrimmedFront(s: string) returns (front: string)
    ensures s == front + TrimLeft(s) && AllSpaces(front)
  {
    hide IsSpace;
    front := "";
    if s != [] && IsSpace(s[0]) {
      var more := TrimmedFront(s[1..]);
      front := [s[0]] + more;
    }
  }

  lemma {:induction false} TrimmedBack(s: string) returns (back: string)
    ensures s == TrimRight(s) + back && AllSpaces(back)
  {
    hide IsSpace;
    back := "";
    if s != [] && IsSpace(s[|s| - 1]) {
      var more := TrimmedBack(s[..|s| - 1]);
      back := more + [s[|s| - 1]];
    }
  }

  // ---------------------------------------------------------------- domain patterns

  /** An exact name, or "*." and a suffix that anything non-empty may precede. */
  predicate MatchDomain(pattern: string, domain: string) {
    if pattern == "" || domain == "" then false
    else if pattern == domain then true
    else if |pattern| > 2 && pattern[0] == '*' && pattern[1] == '.' then
      var suffix := pattern[1..];
      |domain| > |suffix| && domain[|domain| - |suffix|..] == suffix
    else false
  }

  /** Some non-empty prefix and the suffix make up the domain. */
  ghost predicate IsSubdomain(domain: string, suffix: string) {
    exists prefix: string :: prefix != "" && domain == prefix + suffix
  }

  lemma MatchDomainMeaning(pattern: string, domain: string)
    ensures MatchDomain(pattern, domain) <==>
      && pattern != "" && domain != ""
      && (pattern == domain || (|pattern| > 2 && pattern[..2] == "*." && IsSubdomain(domain, pattern[1..])))
  {
    if |pattern| > 2 {
      var suffix := pattern[1..];
      assert pattern[..2] == "*." <==> pattern[0] == '*' && pattern[1] == '.';
      if |domain| > |suffix| && domain[|domain| - |suffix|..] == suffix {
        assert domain == domain[..|domain| - |suffix|] + suffix;
      }
      if IsSubdomain(domain, suffix) {
        var prefix: string :| prefix != "" && domain == prefix + suffix;
        assert domain[|domain| - |suffix|..] == suffix;
      }
    }
  }

  // ---------------------------------------------------------------- lists without repetition

  /** The normalised, non-blank members of a list that are not in `seen`, each where it first occurs. */
  function DedupeFrom(domains: seq<string>, seen: set<string>): seq<string>
    decreases |domains|
  {
    if domains == [] then []
    else
      var n := Normalized(domains[0]);
      if n == "" || n in seen then DedupeFrom(domains[1..], seen)
      else [n] + DedupeFrom(domains[1..], seen + {n})
  }

  function Dedupe(domains: seq<string>): seq<string> {
    DedupeFrom(domains, {})
  }

  method DedupeNormalizedDomains(domains: seq<string>) returns (out: seq<string>)
    ensures out == Dedupe(domains)
  {
    hide Normalized;
    out := [];
    var seen: set<string> := {};
    for i := 0 to |domains|
      invariant Dedupe(domains) == out + DedupeFrom(domains[i..], seen)
    {
      assert domains[i..][0] == domains[i] && domains[i..][1..] == domains[i + 1..];
      var normalized := Normalized(domains[i]);
      if normalized == "" || normalized in seen {
        continue;
      }
      assert out + ([normalized] + DedupeFrom(domains[i + 1..], seen + {normalized}))
        == (out + [normalized]) + DedupeFrom(domains[i + 1..], seen + {normalized});
      seen := seen + {normalized};
      out := out + [normalized];
    }
  }

  /** `d` is the normal form of some member, and not blank. */
  ghost predicate Occurs(d: string, domains: seq<string>) {
    d != "" && exists i :: 0 <= i < |domains| && Normalized(domains[i]) == d
  }

  lemma {:induction false} DedupeFromMembers(domains: seq<string>, seen: set<string>, d: string)
    ensures d in DedupeFrom(domains, seen) <==> d !in seen && Occurs(d, domains)
    decreases |domains|
  {
    hide Normalized;
    if domains != [] {
      var n := Normalized(domains[0]);
      DedupeFromMembers(domains[1..], seen, d);
      DedupeFromMembers(domains[1..], seen + {n}, d);
      assert Occurs(d, domains) <==> (d != "" && n == d) || Occurs(d, domains[1..]) by {
        if Occurs(d, domains) && n != d {
          var i :| 0 <= i < |domains| && Normalized(domains[i]) == d;
          assert domains[1..][i - 1] == domains[i];
        }
        if Occurs(d, domains[1..]) {
          var i :| 0 <= i < |domains[1..]| && Normalized(domains[1..][i]) == d;
          assert domains[i + 1] == domains[1..][i];
        }
      }
    }
  }

  lemma {:induction false} DedupeFromSnoc(domains: seq<string>, d: string, seen: set<string>)
    ensures DedupeFrom(domains + [d], seen) == DedupeFrom(domains, seen)
      + (if Normalized(d) == "" || Normalized(d) in seen || Normalized(d) in DedupeFrom(domains, seen) then [] else [Normalized(d)])
    decreases |domains|
  {
    hide Normalized;
    if domains == [] {
      assert [] + [d] == [d] && [d][1..] == [];
    } else {
      var n := Normalized(domains[0]);
      assert (domains + [d])[1..] == domains[1..] + [d];
      DedupeFromSnoc(domains[1..], d, if n == "" || n in seen then seen else seen + {n});
    }
  }

  /** One more entry is listed behind the others, unless it is blank or its normal form is there. */
  lemma DedupeSnoc(domains: seq<string>, d: string)
    ensures Dedupe([]) == []
    ensures Dedupe(domains + [d]) ==
      Dedupe(domains) + (if Normalized(d) == "" || Occurs(Normalized(d), domains) then [] else [Normalized(d)])
  {
    hide Normalized;
    DedupeFromSnoc(domains, d, {});
    DedupeFromMembers(domains, {}, Normalized(d));
  }

  /** Appending what has been listed already changes nothing. */
  lemma {:induction false} DedupeAppended(a: seq<string>, b: seq<string>, seen: set<string>)
    requires forall j :: 0 <= j < |b| ==>
      Normalized(b[j]) == "" || Normalized(b[j]) in seen || Normalized(b[j]) in DedupeFrom(a, seen)
    ensures DedupeFrom(a + b, seen) == DedupeFrom(a, seen)
    decreases |a|, |b|
  {
    hide Normalized;
    if a == [] {
      assert a + b == b;
      if b != [] {
        DedupeAppended(a, b[1..], seen);
        assert [] + b[1..] == b[1..];
      }
    } else {
      assert (a + b)[1..] == a[1..] + b;
      var n := Normalized(a[0]);
      if n == "" || n in seen {
        DedupeAppended(a[1..], b, seen);
      } else {
        DedupeAppended(a[1..], b, seen + {n});
      }
    }
  }

  /** Listing a list and its own normal form is listing it once. */
  lemma DedupeWithOwnNormalForm(a: seq<string>)
    ensures Dedupe(a + Dedupe(a)) == Dedupe(a)
  {
    hide Normalized;
    var b := Dedupe(a);
    forall j | 0 <= j < |b|
      ensures Normalized(b[j]) in b
    {
      assert b[j] in b;
      DedupeFromMembers(a, {}, b[j]);
      var i :| 0 <= i < |a| && Normalized(a[i]) == b[j];
      NormalizedIsIdempotent(a[i]);
    }
    DedupeAppended(a, b, {});
  }
}
