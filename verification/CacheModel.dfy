/**
 * The IP-domain cache as a plain map with a recency sequence and a reverse index, and what holds of every run
 * of it (processor/cache/ipdomain.go, processor/cache/types.go).
 */
module CacheModel {

  datatype Route = ToAliang | ToSocks | Direct | Deny

  /** A cached decision; one object may be stored under several keys. */
  class CacheEntry {
    const domain: string
    const ip: string
    const route: Route
    var expiresAt: int
    var createdAt: int
    var hitCount: nat

    constructor (domain: string, ip: string, route: Route)
      ensures this.domain == domain && this.ip == ip && this.route == route
      ensures expiresAt == 0 && createdAt == 0 && hitCount == 0
    {
      this.domain, this.ip, this.route := domain, ip, route;
      expiresAt, createdAt, hitCount := 0, 0, 0;
    }

    predicate IsExpired(now: int)
      reads this
    {
      now > expiresAt
    }
  }

  type Index = map<string, seq<CacheEntry>>

  /** `order` lists the keys, the most recently used first. */
  datatype Cache = Cache(
    max: int, order: seq<string>, entries: map<string, CacheEntry>, index: Index,
    hits: nat, misses: nat, evictions: nat)

  function Empty(max: int): Cache {
    Cache(max, [], map[], map[], 0, 0, 0)
  }

  // ---------------------------------------------------------------- operations

  function Without(order: seq<string>, dead: set<string>): (r: seq<string>)
    ensures forall k :: k in r <==> k in order && k !in dead
    ensures |r| <= |order|
  {
    if order == [] then []
    else (if order[0] in dead then [] else [order[0]]) + Without(order[1..], dead)
  }

  /** The entries of a bucket that belong to other domains. */
  function OthersOf(bucket: seq<CacheEntry>, domain: string): seq<CacheEntry> {
    if bucket == [] then []
    else if bucket[0].domain != domain then [bucket[0]] + OthersOf(bucket[1..], domain)
    else OthersOf(bucket[1..], domain)
  }

  lemma {:induction false} OthersOfMembers(bucket: seq<CacheEntry>, domain: string)
    ensures forall e :: e in OthersOf(bucket, domain) ==> e in bucket && e.domain != domain
    ensures forall e :: e in bucket && e.domain != domain ==> e in OthersOf(bucket, domain)
  {
    if bucket != [] {
      OthersOfMembers(bucket[1..], domain);
      assert bucket == [bucket[0]] + bucket[1..];
    }
  }

  function Bucket(index: Index, ip: string): seq<CacheEntry> {
    if ip in index then index[ip] else []
  }

  function AddToIndex(index: Index, e: CacheEntry): Index {
    index[e.ip := OthersOf(Bucket(index, e.ip), e.domain) + [e]]
  }

  function RemoveFromIndex(index: Index, e: CacheEntry): Index {
    var others := OthersOf(Bucket(index, e.ip), e.domain);
    if others == [] then index - {e.ip} else index[e.ip := others]
  }

  /** Drops keys without touching the reverse index. */
  function Forget(c: Cache, dead: set<string>): Cache {
    c.(order := Without(c.order, dead), entries := c.entries - dead)
  }

  /** A lookup; `expired` says what the clock says of the entry found. */
  function Get(c: Cache, key: string, expired: bool): Cache {
    if key !in c.entries then c.(misses := c.misses + 1)
    else if expired then Forget(c, {key}).(misses := c.misses + 1)
    else c.(order := [key] + Without(c.order, {key}), hits := c.hits + 1)
  }

  function Remove(c: Cache, key: string): Cache
    requires key in c.entries
  {
    Forget(c, {key}).(index := RemoveFromIndex(c.index, c.entries[key]))
  }

  function Delete(c: Cache, key: string): Cache {
    if key in c.entries then Remove(c, key) else c
  }

  /** The key that goes when room is needed. */
  function Oldest(c: Cache): string
    requires c.order != []
  {
    c.order[|c.order| - 1]
  }

  function EvictOldest(c: Cache): Cache {
    if c.order == [] || Oldest(c) !in c.entries then c
    else Remove(c, Oldest(c)).(evictions := c.evictions + 1)
  }

  function Set(c: Cache, key: string, e: CacheEntry): Cache {
    var room := if key in c.entries || |c.order| < c.max then c else EvictOldest(c);
    room.(order := [key] + Without(room.order, {key}),
          entries := room.entries[key := e],
          index := AddToIndex(room.index, e))
  }

  function Clear(c: Cache): Cache {
    Empty(c.max)
  }

  // ---------------------------------------------------------------- invariants

  ghost predicate Distinct<T>(s: seq<T>) {
    forall i, j :: 0 <= i < j < |s| ==> s[i] != s[j]
  }

  ghost predicate GoodBucket(ip: string, bucket: seq<CacheEntry>) {
    && bucket != []
    && (forall i :: 0 <= i < |bucket| ==> bucket[i].ip == ip)
    && forall i, j :: 0 <= i < j < |bucket| ==> bucket[i].domain != bucket[j].domain
  }

  /** Keys and list in bijection, size bounded, buckets non-empty, of one IP and without repeated domains. */
  ghost predicate Inv(c: Cache) {
    && Distinct(c.order)
    && (forall k :: k in c.order <==> k in c.entries)
    && |c.order| <= (if c.max < 1 then 1 else c.max)
    && forall ip :: ip in c.index ==> GoodBucket(ip, c.index[ip])
  }

  /** Every forward entry is found by its IP. */
  ghost predicate Indexed(c: Cache) {
    forall k :: k in c.entries ==> c.entries[k] in Bucket(c.index, c.entries[k].ip)
  }

  ghost predicate KeyedByDomain(c: Cache) {
    forall k :: k in c.entries ==> c.entries[k].domain == k
  }

  lemma {:induction false} WithoutKeepsDistinct(order: seq<string>, dead: set<string>)
    requires Distinct(order)
    ensures Distinct(Without(order, dead))
    ensures (exists k :: k in order && k in dead) ==> |Without(order, dead)| < |order|
  {
    if order != [] {
      WithoutKeepsDistinct(order[1..], dead);
      var rest := Without(order[1..], dead);
      assert order[0] !in order[1..];
      assert order == [order[0]] + order[1..];
    }
  }

  lemma {:induction false} OthersOfIsGood(ip: string, bucket: seq<CacheEntry>, domain: string)
    requires bucket == [] || GoodBucket(ip, bucket)
    ensures OthersOf(bucket, domain) == [] || GoodBucket(ip, OthersOf(bucket, domain))
  {
    if bucket != [] {
      assert |bucket| > 1 ==> GoodBucket(ip, bucket[1..]);
      OthersOfIsGood(ip, bucket[1..], domain);
      OthersOfMembers(bucket[1..], domain);
      var rest := OthersOf(bucket[1..], domain);
      assert forall e :: e in rest ==> e in bucket[1..] && e.domain != bucket[0].domain;
    }
  }

  lemma IndexStaysGood(index: Index, e: CacheEntry)
    requires forall ip :: ip in index ==> GoodBucket(ip, index[ip])
    ensures forall ip :: ip in AddToIndex(index, e) ==> GoodBucket(ip, AddToIndex(index, e)[ip])
    ensures forall ip :: ip in RemoveFromIndex(index, e) ==> GoodBucket(ip, RemoveFromIndex(index, e)[ip])
  {
    OthersOfIsGood(e.ip, Bucket(index, e.ip), e.domain);
    OthersOfMembers(Bucket(index, e.ip), e.domain);
    var others := OthersOf(Bucket(index, e.ip), e.domain);
    assert forall i :: 0 <= i < |others| ==> others[i] in others;
    assert GoodBucket(e.ip, others + [e]);
  }

  /** Moving or putting a key to the front. */
  lemma FrontKeepsDistinct(order: seq<string>, key: string)
    requires Distinct(order)
    ensures Distinct([key] + Without(order, {key}))
    ensures |[key] + Without(order, {key})| == if key in order then |order| else |order| + 1
  {
    WithoutKeepsDistinct(order, {key});
    WithoutOneCounts(order, key);
    assert key !in Without(order, {key});
  }

  lemma {:induction false} WithoutOneCounts(order: seq<string>, key: string)
    requires Distinct(order)
    ensures |Without(order, {key})| == if key in order then |order| - 1 else |order|
  {
    if order != [] {
      assert order == [order[0]] + order[1..] && order[0] !in order[1..];
      WithoutOneCounts(order[1..], key);
    }
  }

  lemma RemoveKeepsInv(c: Cache, key: string)
    requires Inv(c) && key in c.entries
    ensures Inv(Remove(c, key)) && |Remove(c, key).order| == |c.order| - 1
  {
    WithoutKeepsDistinct(c.order, {key});
    WithoutOneCounts(c.order, key);
    IndexStaysGood(c.index, c.entries[key]);
  }

  lemma RoomIsMade(c: Cache, key: string)
    requires Inv(c)
    ensures var room := if key in c.entries || |c.order| < c.max then c else EvictOldest(c);
      Inv(room) && (key in room.entries <==> key in c.entries)
      && (key !in c.entries ==> |room.order| + 1 <= (if c.max < 1 then 1 else c.max))
  {
    if key !in c.entries && |c.order| >= c.max && c.order != [] {
      assert Oldest(c) in c.order;
      RemoveKeepsInv(c, Oldest(c));
    }
  }

  lemma SetKeepsInv(c: Cache, key: string, e: CacheEntry)
    requires Inv(c)
    ensures Inv(Set(c, key, e))
  {
    RoomIsMade(c, key);
    var room := if key in c.entries || |c.order| < c.max then c else EvictOldest(c);
    FrontKeepsDistinct(room.order, key);
    IndexStaysGood(room.index, e);
  }

  lemma ForgetKeepsInv(c: Cache, dead: set<string>)
    requires Inv(c)
    ensures Inv(Forget(c, dead))
  {
    WithoutKeepsDistinct(c.order, dead);
  }

  // ---------------------------------------------------------------- runs

  /** An operation, with what the clock makes of it: which entry is expired, which keys a cleanup finds. */
  datatype Op =
    | OpGet(key: string, expired: bool)
    | OpSet(key: string, entry: CacheEntry)
    | OpDelete(key: string)
    | OpCleanup(dead: set<string>)
    | OpClear

  function Step(c: Cache, op: Op): Cache {
    match op
    case OpGet(key, expired) => Get(c, key, expired)
    case OpSet(key, e) => Set(c, key, e)
    case OpDelete(key) => Delete(c, key)
    case OpCleanup(dead) => Forget(c, dead)
    case OpClear => Clear(c)
  }

  function Run(max: int, ops: seq<Op>): Cache {
    if ops == [] then Empty(max) else Step(Run(max, ops[..|ops| - 1]), ops[|ops| - 1])
  }

  lemma StepKeepsInv(c: Cache, op: Op)
    requires Inv(c)
    ensures Inv(Step(c, op)) && Step(c, op).max == c.max
  {
    match op {
      case OpGet(key, expired) =>
        FrontKeepsDistinct(c.order, key);
        ForgetKeepsInv(c, {key});
      case OpSet(key, e) => SetKeepsInv(c, key, e);
      case OpDelete(key) => if key in c.entries { RemoveKeepsInv(c, key); }
      case OpCleanup(dead) => ForgetKeepsInv(c, dead);
      case OpClear =>
    }
  }

  /** In every reachable state the invariant holds, for any capacity, even none. */
  lemma {:induction false} ReachableInv(max: int, ops: seq<Op>)
    ensures Inv(Run(max, ops)) && Run(max, ops).max == max
    decreases |ops|
  {
    if ops != [] {
      ReachableInv(max, ops[..|ops| - 1]);
      StepKeepsInv(Run(max, ops[..|ops| - 1]), ops[|ops| - 1]);
    }
  }

  // ---------------------------------------------------------------- the reverse index

  /** What removing one key does to the reverse entry of another: it goes exactly when it shares IP and domain. */
  lemma RemovalUnindexesExactly(c: Cache, gone: string, key: string)
    requires gone in c.entries && key in c.entries && gone != key
    requires c.entries[key] in Bucket(c.index, c.entries[key].ip)
    ensures var e, f := c.entries[gone], c.entries[key];
      f in Bucket(Remove(c, gone).index, f.ip) <==> !(f.ip == e.ip && f.domain == e.domain)
  {
    var e := c.entries[gone];
    OthersOfMembers(Bucket(c.index, e.ip), e.domain);
  }

  /** The entries take the same place in the reverse index. */
  predicate SharePlace(e: CacheEntry, f: CacheEntry) {
    e.ip == f.ip && e.domain == f.domain
  }

  /** And what storing an entry does: others go from the index exactly when they share its IP and domain. */
  lemma AddingUnindexesExactly(index: Index, e: CacheEntry, f: CacheEntry)
    ensures f in Bucket(AddToIndex(index, e), f.ip) <==> f == e || (f in Bucket(index, f.ip) && !SharePlace(e, f))
  {
    OthersOfMembers(Bucket(index, e.ip), e.domain);
  }

  /**
   * A store takes the reverse entry of a key it keeps exactly when the stored entry is another one of the same IP
   * and domain, or when the entry it evicts is of that IP and domain and the stored one is not that entry itself.
   */
  lemma StoringUnindexesExactly(c: Cache, stored: string, e: CacheEntry, key: string)
    requires Inv(c) && key in c.entries && key != stored && key in Set(c, stored, e).entries
    requires c.entries[key] in Bucket(c.index, c.entries[key].ip)
    ensures var f := c.entries[key];
      var evicts := stored !in c.entries && |c.order| >= c.max && c.order != [];
      f in Bucket(Set(c, stored, e).index, f.ip) <==>
        f == e || !(SharePlace(e, f) || (evicts && SharePlace(c.entries[Oldest(c)], f)))
  {
    hide Without, AddToIndex, RemoveFromIndex, SharePlace;
    var f := c.entries[key];
    var room := if stored in c.entries || |c.order| < c.max then c else EvictOldest(c);
    if room != c {
      assert Oldest(c) in c.order;
      EvictedIsAnother(c, stored, e, key);
      assert SharePlace(c.entries[Oldest(c)], f) <==> !(f in Bucket(Remove(c, Oldest(c)).index, f.ip)) by {
        RemovalUnindexesExactly(c, Oldest(c), key);
        SharingPlaces(c.entries[Oldest(c)], f);
      }
    }
    AddingUnindexesExactly(room.index, e, f);
  }

  lemma SharingPlaces(e: CacheEntry, f: CacheEntry)
    ensures SharePlace(e, f) <==> f.ip == e.ip && f.domain == e.domain
  {
  }

  lemma EvictedIsAnother(c: Cache, stored: string, e: CacheEntry, key: string)
    requires Inv(c) && key != stored && key in Set(c, stored, e).entries
    requires stored !in c.entries && |c.order| >= c.max && c.order != []
    ensures Oldest(c) in c.entries && Oldest(c) != key
  {
    hide AddToIndex, RemoveFromIndex, Without;
    assert Oldest(c) in c.order;
  }

  /** So two entries of one IP and domain under different keys are enough to lose the first. */
  lemma StoringAgainUnindexes(e: CacheEntry, f: CacheEntry, a: string, b: string)
    requires a != b && e != f && SharePlace(e, f)
    ensures var c := Run(2, [OpSet(a, e), OpSet(b, f)]);
      c.entries == map[a := e, b := f] && e !in Bucket(c.index, e.ip)
  {
    hide Run, AddToIndex, RemoveFromIndex;
    RunSnoc(2, [], OpSet(a, e));
    RunSnoc(2, [OpSet(a, e)], OpSet(b, f));
    assert [] + [OpSet(a, e)] == [OpSet(a, e)] && [OpSet(a, e)] + [OpSet(b, f)] == [OpSet(a, e), OpSet(b, f)];
    NothingRun(2);
    AddingUnindexesExactly(Run(2, [OpSet(a, e)]).index, f, e);
  }

  /** So an entry stored under two keys is lost to lookups by IP as soon as one of them is removed. */
  lemma AliasedEntryIsUnindexed(c: Cache, gone: string, key: string)
    requires gone in c.entries && key in c.entries && gone != key && c.entries[gone] == c.entries[key]
    ensures key in Remove(c, gone).entries
    ensures c.entries[key] !in Bucket(Remove(c, gone).index, c.entries[key].ip)
  {
    var e := c.entries[gone];
    OthersOfMembers(Bucket(c.index, e.ip), e.domain);
  }

  lemma RunSnoc(max: int, ops: seq<Op>, op: Op)
    ensures Run(max, ops + [op]) == Step(Run(max, ops), op)
  {
    hide Step;
    assert (ops + [op])[..|ops|] == ops;
  }

  /** It takes three operations to get there. */
  lemma AliasedEntryIsReached(e: CacheEntry, domain: string, ip: string)
    requires domain != ip
    ensures var c := Run(2, [OpSet(domain, e), OpSet(ip, e), OpDelete(domain)]);
      && c.entries == map[ip := e] && c.order == [ip]
      && e !in Bucket(c.index, e.ip)
  {
    hide Run, RemoveFromIndex, AddToIndex, Bucket;
    var a, b, d := OpSet(domain, e), OpSet(ip, e), OpDelete(domain);
    RunSnoc(2, [], a);
    RunSnoc(2, [a], b);
    RunSnoc(2, [a, b], d);
    assert [] + [a] == [a] && [a] + [b] == [a, b] && [a, b] + [d] == [a, b, d];
    NothingRun(2);
    var one, two := Run(2, [a]), Run(2, [a, b]);
    TwoSets(e, domain, ip);
    AliasedEntryIsUnindexed(two, domain, ip);
  }

  lemma TwoSets(e: CacheEntry, domain: string, ip: string)
    requires domain != ip
    ensures var two := Set(Set(Empty(2), domain, e), ip, e);
      && two.entries == map[domain := e, ip := e]
      && Remove(two, domain).entries == map[ip := e] && Remove(two, domain).order == [ip]
  {
    hide RemoveFromIndex, AddToIndex, Bucket;
    var one := Set(Empty(2), domain, e);
    assert one.order == [domain];
    assert [domain][1..] == [] && Without([domain], {ip}) == [domain] + Without([], {ip});
    var two := Set(one, ip, e);
    assert two.order == [ip, domain];
    assert two.order[1..] == [domain] && Without([domain], {domain}) == [] + Without([], {domain});
  }

  lemma NothingRun(max: int)
    ensures Run(max, []) == Empty(max)
  {
  }

  lemma RemoveKeepsIndexed(c: Cache, gone: string)
    requires Indexed(c) && KeyedByDomain(c) && gone in c.entries
    ensures Indexed(Remove(c, gone)) && KeyedByDomain(Remove(c, gone))
  {
    forall key | key in c.entries && key != gone
      ensures c.entries[key] in Bucket(Remove(c, gone).index, c.entries[key].ip)
    {
      RemovalUnindexesExactly(c, gone, key);
    }
  }

  lemma SetKeepsIndexed(c: Cache, key: string, e: CacheEntry)
    requires Inv(c) && Indexed(c) && KeyedByDomain(c) && e.domain == key
    ensures Indexed(Set(c, key, e)) && KeyedByDomain(Set(c, key, e))
  {
    hide RemoveFromIndex, Forget, AddToIndex, Bucket, Without;
    var room := if key in c.entries || |c.order| < c.max then c else EvictOldest(c);
    if room != c {
      RemoveKeepsIndexed(c, Oldest(c));
    }
    AddKeepsIndexed(room, key, e);
  }

  lemma AddKeepsIndexed(c: Cache, key: string, e: CacheEntry)
    requires Indexed(c) && KeyedByDomain(c) && e.domain == key
    ensures forall k :: k in c.entries && k != key ==> c.entries[k] in Bucket(AddToIndex(c.index, e), c.entries[k].ip)
    ensures e in Bucket(AddToIndex(c.index, e), e.ip)
  {
    OthersOfMembers(Bucket(c.index, e.ip), e.domain);
    forall k | k in c.entries && k != key
      ensures c.entries[k] in Bucket(AddToIndex(c.index, e), c.entries[k].ip)
    {
      assert c.entries[k].domain != e.domain;
    }
  }

  lemma StepKeepsIndexed(c: Cache, op: Op)
    requires Inv(c) && Indexed(c) && KeyedByDomain(c)
    requires op.OpSet? ==> op.entry.domain == op.key
    ensures Indexed(Step(c, op)) && KeyedByDomain(Step(c, op))
  {
    match op {
      case OpSet(key, e) => SetKeepsIndexed(c, key, e);
      case OpDelete(key) => if key in c.entries { RemoveKeepsIndexed(c, key); }
      case _ =>
    }
  }

  /** In runs where each key is its entry's own domain, every forward entry can be found by its IP. */
  lemma {:induction false} ReachableIndexed(max: int, ops: seq<Op>)
    requires forall i :: 0 <= i < |ops| && ops[i].OpSet? ==> ops[i].entry.domain == ops[i].key
    ensures Indexed(Run(max, ops)) && KeyedByDomain(Run(max, ops))
    decreases |ops|
  {
    if ops != [] {
      var before := ops[..|ops| - 1];
      ReachableIndexed(max, before);
      ReachableInv(max, before);
      StepKeepsIndexed(Run(max, before), ops[|ops| - 1]);
    }
  }

  // ---------------------------------------------------------------- recency

  /** Operation `i` of the run uses the key: it stores it, or looks it up with success. */
  predicate Uses(max: int, ops: seq<Op>, i: nat, key: string)
    requires i < |ops|
  {
    match ops[i]
    case OpSet(k, _) => k == key
    case OpGet(k, expired) => k == key && !expired && key in Run(max, ops[..i]).entries
    case _ => false
  }

  /** When the key was last used, or -1. */
  function LastUse(max: int, ops: seq<Op>, key: string): (r: int)
    ensures -1 <= r < |ops|
    ensures r >= 0 ==> Uses(max, ops, r, key)
    ensures forall i :: r < i < |ops| ==> !Uses(max, ops, i, key)
    decreases |ops|
  {
    if ops == [] then -1
    else
      var n := |ops| - 1;
      if Uses(max, ops, n, key) then n
      else
        var r := LastUse(max, ops[..n], key);
        assert forall i :: 0 <= i < n ==> Uses(max, ops[..n], i, key) == Uses(max, ops, i, key) by {
          forall i | 0 <= i < n
            ensures Uses(max, ops[..n], i, key) == Uses(max, ops, i, key)
          {
            assert ops[..n][..i] == ops[..i];
          }
        }
        r
  }

  ghost predicate SortedByUse(max: int, ops: seq<Op>, order: seq<string>) {
    && (forall i :: 0 <= i < |order| ==> LastUse(max, ops, order[i]) >= 0)
    && forall i, j :: 0 <= i < j < |order| ==> LastUse(max, ops, order[i]) > LastUse(max, ops, order[j])
  }

  lemma {:induction false} WithoutKeepsSorted(max: int, ops: seq<Op>, order: seq<string>, dead: set<string>)
    requires SortedByUse(max, ops, order)
    ensures SortedByUse(max, ops, Without(order, dead))
    decreases |order|
  {
    hide LastUse;
    if order != [] {
      assert SortedByUse(max, ops, order[1..]);
      WithoutKeepsSorted(max, ops, order[1..], dead);
      forall k | k in order[1..]
        ensures LastUse(max, ops, order[0]) > LastUse(max, ops, k)
      {
        var j :| 0 <= j < |order[1..]| && order[1..][j] == k;
        assert order[j + 1] == k;
      }
      FrontIsSorted(max, ops, order[0], Without(order[1..], dead));
      assert [] + Without(order[1..], dead) == Without(order[1..], dead);
    }
  }

  lemma FrontIsSorted(max: int, ops: seq<Op>, key: string, rest: seq<string>)
    requires SortedByUse(max, ops, rest) && LastUse(max, ops, key) >= 0
    requires forall k :: k in rest ==> LastUse(max, ops, key) > LastUse(max, ops, k)
    ensures SortedByUse(max, ops, [key] + rest)
  {
    hide LastUse;
    assert forall i :: 0 <= i < |rest| ==> rest[i] in rest;
  }

  /** Keys that the last operation does not use keep their place in the order of use. */
  lemma SortedAfter(max: int, ops: seq<Op>, order: seq<string>)
    requires ops != [] && SortedByUse(max, ops[..|ops| - 1], order)
    requires forall k :: k in order ==> !Uses(max, ops, |ops| - 1, k)
    ensures SortedByUse(max, ops, order)
  {
    assert forall i :: 0 <= i < |order| ==> order[i] in order;
  }

  lemma NothingIsSorted(max: int, ops: seq<Op>)
    ensures SortedByUse(max, ops, [])
  {
  }

  /** List order is recency: keys come in the order of their last store or successful lookup, latest first. */
  lemma {:induction false} OrderIsRecency(max: int, ops: seq<Op>)
    ensures SortedByUse(max, ops, Run(max, ops).order)
    decreases |ops|
  {
    hide LastUse, RemoveFromIndex, AddToIndex, Without, SortedByUse, Distinct, GoodBucket;
    if ops == [] {
      assert SortedByUse(max, ops, []) by {
        NothingIsSorted(max, ops);
      }
    } else {
      var n := |ops| - 1;
      var before := ops[..n];
      var c := Run(max, before);
      OrderIsRecency(max, before);
      ReachableInv(max, before);
      var after := Run(max, ops).order;
      match ops[n] {
        case OpGet(key, expired) =>
          if key !in c.entries {
            SortedAfter(max, ops, after);
          } else if expired {
            WithoutKeepsSorted(max, before, c.order, {key});
            SortedAfter(max, ops, after);
          } else {
            FrontIsLatest(max, ops, c.order, key);
          }
        case OpSet(key, e) =>
          var room := if key in c.entries || |c.order| < c.max then c else EvictOldest(c);
          WithoutKeepsSorted(max, before, c.order, if c.order == [] then {} else {Oldest(c)});
          FrontIsLatest(max, ops, room.order, key);
        case OpDelete(key) =>
          WithoutKeepsSorted(max, before, c.order, {key});
          SortedAfter(max, ops, after);
        case OpCleanup(dead) =>
          WithoutKeepsSorted(max, before, c.order, dead);
          SortedAfter(max, ops, after);
        case OpClear => NothingIsSorted(max, ops);
      }
    }
  }

  lemma FrontIsLatest(max: int, ops: seq<Op>, order: seq<string>, key: string)
    requires ops != [] && SortedByUse(max, ops[..|ops| - 1], order)
    requires Uses(max, ops, |ops| - 1, key)
    requires forall k :: k in order && k != key ==> !Uses(max, ops, |ops| - 1, k)
    ensures SortedByUse(max, ops, [key] + Without(order, {key}))
  {
    WithoutKeepsSorted(max, ops[..|ops| - 1], order, {key});
    var rest := Without(order, {key});
    SortedAfter(max, ops, rest);
    assert LastUse(max, ops, key) == |ops| - 1;
    FrontIsSorted(max, ops, key, rest);
  }

  lemma LastIsLeastRecent(max: int, ops: seq<Op>, k: string)
    requires Run(max, ops).order != [] && k in Run(max, ops).entries && k != Oldest(Run(max, ops))
    ensures LastUse(max, ops, k) > LastUse(max, ops, Oldest(Run(max, ops)))
  {
    hide LastUse, Run, Distinct, GoodBucket;
    ReachableInv(max, ops);
    OrderIsRecency(max, ops);
    var order := Run(max, ops).order;
    assert k in order;
    var i :| 0 <= i < |order| && order[i] == k;
  }

  lemma StoreEvicts(c: Cache, key: string, e: CacheEntry)
    requires Inv(c) && key !in c.entries && c.order != [] && |c.order| >= c.max
    ensures Set(c, key, e).entries.Keys == c.entries.Keys - {Oldest(c)} + {key}
    ensures Set(c, key, e).evictions == c.evictions + 1
  {
    hide Without, AddToIndex, RemoveFromIndex, Distinct, GoodBucket;
    assert Oldest(c) in c.order;
  }

  /** When a store needs room, exactly the least recently used key goes. */
  lemma EvictedIsLeastRecent(max: int, ops: seq<Op>, key: string, e: CacheEntry)
    requires key !in Run(max, ops).entries && Run(max, ops).order != [] && |Run(max, ops).order| >= max
    ensures var c := Run(max, ops);
      && Set(c, key, e).entries.Keys == c.entries.Keys - {Oldest(c)} + {key}
      && Set(c, key, e).evictions == c.evictions + 1
      && forall k :: k in c.entries && k != Oldest(c) ==> LastUse(max, ops, k) > LastUse(max, ops, Oldest(c))
  {
    hide LastUse, Run, Set, Inv;
    ReachableInv(max, ops);
    StoreEvicts(Run(max, ops), key, e);
    forall k | k in Run(max, ops).entries && k != Oldest(Run(max, ops))
      ensures LastUse(max, ops, k) > LastUse(max, ops, Oldest(Run(max, ops)))
    {
      LastIsLeastRecent(max, ops, k);
    }
  }

  /** The operation drops the key or stores something else under it. */
  predicate Ends(op: Op, key: string) {
    match op
    case OpGet(k, expired) => k == key && expired
    case OpSet(k, _) => k == key
    case OpDelete(k) => k == key
    case OpCleanup(dead) => key in dead
    case OpClear => true
  }

  lemma StillFound(c: Cache, op: Op, key: string)
    requires key in Step(c, op).entries && op != OpSet(key, Step(c, op).entries[key])
    ensures key in c.entries && Step(c, op).entries[key] == c.entries[key] && !Ends(op, key)
  {
    hide RemoveFromIndex, AddToIndex, Without;
  }

  /** What is found under a key is what was last stored there, and nothing has ended that since. */
  lemma {:induction false} FoundIsLastStored(max: int, ops: seq<Op>, key: string) returns (at: nat)
    requires key in Run(max, ops).entries
    ensures at < |ops| && ops[at] == OpSet(key, Run(max, ops).entries[key])
    ensures forall i :: at < i < |ops| ==> !Ends(ops[i], key)
    decreases |ops|
  {
    hide Step, Ends;
    var n := |ops| - 1;
    if ops[n] == OpSet(key, Run(max, ops).entries[key]) {
      at := n;
    } else {
      StillFound(Run(max, ops[..n]), ops[n], key);
      at := FoundIsLastStored(max, ops[..n], key);
    }
  }

  /** The keys other than `key` that have been used after operation `i`. */
  function OthersUsed(max: int, ops: seq<Op>, i: nat, key: string): set<string>
    decreases |ops|
  {
    if |ops| <= i + 1 then {}
    else
      var n := |ops| - 1;
      OthersUsed(max, ops[..n], i, key)
      + (if (ops[n].OpSet? || ops[n].OpGet?) && ops[n].key != key && Uses(max, ops, n, ops[n].key) then {ops[n].key} else {})
  }

  lemma {:induction false} UsedLaterIsOther(max: int, ops: seq<Op>, i: nat, key: string, k: string)
    requires k != key && LastUse(max, ops, k) > i
    ensures k in OthersUsed(max, ops, i, key)
    decreases |ops|
  {
    var n := |ops| - 1;
    if LastUse(max, ops, k) < n {
      UsedLaterIsOther(max, ops[..n], i, key, k);
    }
  }

  /** What stands before a key in the list has been used after it. */
  lemma OthersInFront(max: int, ops: seq<Op>, i: nat, key: string, p: nat)
    requires i <= LastUse(max, ops, key) && p < |Run(max, ops).order| && Run(max, ops).order[p] == key
    ensures forall j :: 0 <= j < p ==> Run(max, ops).order[j] in OthersUsed(max, ops, i, key)
  {
    hide LastUse, Run, OthersUsed;
    OrderIsRecency(max, ops);
    ReachableInv(max, ops);
    var order := Run(max, ops).order;
    forall j | 0 <= j < p
      ensures order[j] in OthersUsed(max, ops, i, key)
    {
      UsedLaterIsOther(max, ops, i, key, order[j]);
    }
  }

  lemma {:induction false} DistinctFit(s: seq<string>, elements: set<string>)
    requires Distinct(s) && forall k :: k in s ==> k in elements
    ensures |s| <= |elements|
  {
    if s != [] {
      assert s == [s[0]] + s[1..];
      assert s[0] in s;
      DistinctFit(s[1..], elements - {s[0]});
    }
  }

  /** An eviction of a key: as many others as the cache holds have been used since, the new one among them. */
  lemma EvictedAfterOthers(max: int, ops: seq<Op>, i: nat, key: string)
    requires ops != [] && i < |ops| - 1
    requires var c := Run(max, ops[..|ops| - 1]);
      && c.order != [] && Oldest(c) == key && i <= LastUse(max, ops[..|ops| - 1], key)
      && ops[|ops| - 1].OpSet? && ops[|ops| - 1].key !in c.entries
    ensures |OthersUsed(max, ops, i, key)| >= |Run(max, ops[..|ops| - 1]).order|
  {
    hide LastUse, Run;
    var n := |ops| - 1;
    var c := Run(max, ops[..n]);
    var p := |c.order| - 1;
    ReachableInv(max, ops[..n]);
    OthersInFront(max, ops[..n], i, key, p);
    var others := [ops[n].key] + c.order[..p];
    assert c.order[p] in c.order;
    forall k | k in others
      ensures k in OthersUsed(max, ops, i, key)
    {
      if k != ops[n].key {
        assert k in c.order[..p];
      }
    }
    assert forall j :: 0 <= j < p ==> c.order[j] in c.order;
    DistinctFit(others, OthersUsed(max, ops, i, key));
  }

  /** Nothing but making room can take a key away that no operation ends. */
  lemma GoneOnlyByEviction(c: Cache, op: Op, key: string)
    requires Inv(c) && key in c.entries && key !in Step(c, op).entries && !(Ends(op, key) && !op.OpSet?)
    ensures op.OpSet? && op.key !in c.entries && c.order != [] && |c.order| >= c.max && Oldest(c) == key
  {
    hide RemoveFromIndex, AddToIndex, Without;
  }

  /**
   * What the cache keeps: a key stored or found at operation `i`, not dropped since, is still there as long as
   * fewer other keys than the cache holds have been used.
   */
  lemma {:induction false} RecentlyUsedIsKept(max: int, ops: seq<Op>, i: nat, key: string)
    requires i < |ops| && Uses(max, ops, i, key)
    requires forall j :: i < j < |ops| && Ends(ops[j], key) ==> ops[j].OpSet?
    requires |OthersUsed(max, ops, i, key)| < max
    ensures key in Run(max, ops).entries
    ensures LastUse(max, ops, key) >= i
    decreases |ops|
  {
    hide Ends;
    var n := |ops| - 1;
    assert LastUse(max, ops, key) >= i;
    if i < n {
      var before := ops[..n];
      assert before[..i] == ops[..i];
      OthersGrow(max, ops, i, key);
      RecentlyUsedIsKept(max, before, i, key);
      ReachableInv(max, before);
      if key !in Run(max, ops).entries {
        GoneOnlyByEviction(Run(max, before), ops[n], key);
        EvictedAfterOthers(max, ops, i, key);
      }
    } else {
      UsedIsThere(max, ops, key);
    }
  }

  lemma OthersGrow(max: int, ops: seq<Op>, i: nat, key: string)
    requires |ops| > i + 1
    ensures |OthersUsed(max, ops[..|ops| - 1], i, key)| <= |OthersUsed(max, ops, i, key)|
  {
    hide Uses;
    var a, b := OthersUsed(max, ops[..|ops| - 1], i, key), OthersUsed(max, ops, i, key);
    assert a <= b;
    SubsetCounts(a, b);
  }

  lemma SubsetCounts(a: set<string>, b: set<string>)
    requires a <= b
    ensures |a| <= |b|
  {
    assert b == a + (b - a);
  }

  lemma UsedIsThere(max: int, ops: seq<Op>, key: string)
    requires ops != [] && Uses(max, ops, |ops| - 1, key)
    ensures key in Run(max, ops).entries
  {
    hide RemoveFromIndex, AddToIndex, Without, EvictOldest;
  }

  /** Lookups since the statistics were last cleared. */
  function GetsSinceClear(ops: seq<Op>): nat {
    if ops == [] || ops[|ops| - 1].OpClear? then 0
    else GetsSinceClear(ops[..|ops| - 1]) + (if ops[|ops| - 1].OpGet? then 1 else 0)
  }

  /** Every lookup is counted once, as hit or as miss. */
  lemma {:induction false} HitsAndMissesCountGets(max: int, ops: seq<Op>)
    ensures Run(max, ops).hits + Run(max, ops).misses == GetsSinceClear(ops)
    decreases |ops|
  {
    if ops != [] {
      HitsAndMissesCountGets(max, ops[..|ops| - 1]);
    }
  }

  datatype Tally = Tally(hits: nat, misses: nat, evictions: nat)

  /** What an operation is counted as. */
  function Counted(c: Cache, op: Op): Tally {
    match op
    case OpGet(key, expired) => if key in c.entries && !expired then Tally(1, 0, 0) else Tally(0, 1, 0)
    case OpSet(key, _) =>
      Tally(0, 0, if key !in c.entries && |c.entries| >= c.max && c.entries != map[] then 1 else 0)
    case _ => Tally(0, 0, 0)
  }

  /** The counts since the statistics were last cleared. */
  function TallyOf(max: int, ops: seq<Op>): Tally {
    if ops == [] || ops[|ops| - 1].OpClear? then Tally(0, 0, 0)
    else
      var n := |ops| - 1;
      var t, u := TallyOf(max, ops[..n]), Counted(Run(max, ops[..n]), ops[n]);
      Tally(t.hits + u.hits, t.misses + u.misses, t.evictions + u.evictions)
  }

  /** A live entry found is a hit, any other lookup a miss, a store without room for its new key an eviction. */
  lemma {:induction false} StatisticsMeaning(max: int, ops: seq<Op>)
    ensures var c := Run(max, ops); Tally(c.hits, c.misses, c.evictions) == TallyOf(max, ops)
    decreases |ops|
  {
    hide Step, Counted, Inv;
    if ops != [] {
      var n := |ops| - 1;
      StatisticsMeaning(max, ops[..n]);
      ReachableInv(max, ops[..n]);
      StepCounts(Run(max, ops[..n]), ops[n]);
    }
  }

  lemma StepCounts(c: Cache, op: Op)
    requires Inv(c)
    ensures var d := Step(c, op);
      Tally(d.hits, d.misses, d.evictions) ==
        if op.OpClear? then Tally(0, 0, 0)
        else
          var t := Counted(c, op);
          Tally(c.hits + t.hits, c.misses + t.misses, c.evictions + t.evictions)
  {
    hide Without, AddToIndex, RemoveFromIndex;
    EntriesCount(c);
    if c.order != [] {
      assert Oldest(c) in c.order;
    }
  }

  lemma EntriesCount(c: Cache)
    requires Inv(c)
    ensures |c.entries| == |c.order| && (c.entries == map[] <==> c.order == [])
  {
    assert |c.entries| == |c.entries.Keys|;
    DistinctCount(c.order, c.entries.Keys);
    if c.order != [] {
      assert c.order[0] in c.entries;
    }
  }

  lemma {:induction false} DistinctCount(order: seq<string>, keys: set<string>)
    requires Distinct(order) && forall k :: k in order <==> k in keys
    ensures |order| == |keys|
    decreases |order|
  {
    if order == [] {
      assert keys == {};
    } else {
      assert order == [order[0]] + order[1..];
      assert forall k :: k in order[1..] <==> k in keys - {order[0]};
      DistinctCount(order[1..], keys - {order[0]});
    }
  }
}
