/**
 * The cache object (processor/cache/ipdomain.go): a map of list elements, the list in order of recency, and
 * the reverse index, changed in place and proved to do what the plain cache of CacheModel does.
 */
module IpDomainCache {
  import opened CacheModel

  /** A list element: its entry is replaced in place when its key is stored again. */
  class CacheItem {
    const key: string
    var entry: CacheEntry

    constructor (key: string, entry: CacheEntry)
      ensures this.key == key && this.entry == entry
    {
      this.key, this.entry := key, entry;
    }
  }

  function Keys(items: seq<CacheItem>): seq<string> {
    seq(|items|, i requires 0 <= i < |items| => items[i].key)
  }

  /** The list without one element. */
  function Unlinked(items: seq<CacheItem>, item: CacheItem): seq<CacheItem> {
    if items == [] then []
    else if items[0] == item then items[1..]
    else [items[0]] + Unlinked(items[1..], item)
  }

  lemma KeysSplit(items: seq<CacheItem>)
    requires items != [] && Distinct(Keys(items))
    ensures Keys(items) == [items[0].key] + Keys(items[1..]) && Keys(items)[1..] == Keys(items[1..])
    ensures Distinct(Keys(items[1..])) && items[0].key !in Keys(items[1..])
    ensures forall item :: item in items[1..] ==> item.key in Keys(items[1..])
  {
    var keys := Keys(items);
    assert keys[1..] == Keys(items[1..]);
    assert forall i :: 0 < i < |keys| ==> keys[0] != keys[i];
    forall item | item in items[1..]
      ensures item.key in Keys(items[1..])
    {
      var i :| 0 <= i < |items[1..]| && items[1..][i] == item;
      assert Keys(items[1..])[i] == item.key;
    }
  }

  lemma {:induction false} UnlinkedIsWithout(items: seq<CacheItem>, item: CacheItem)
    requires Distinct(Keys(items)) && item in items
    ensures Keys(Unlinked(items, item)) == Without(Keys(items), {item.key})
    ensures forall i :: i in Unlinked(items, item) ==> i in items && i != item
    ensures forall i :: i in items && i != item ==> i in Unlinked(items, item)
  {
    hide Keys, Distinct;
    KeysSplit(items);
    assert items == [items[0]] + items[1..];
    if items[0] == item {
      WithoutNothing(Keys(items[1..]), {item.key});
    } else {
      UnlinkedIsWithout(items[1..], item);
      KeysInFront(items[0], Unlinked(items[1..], item));
    }
  }

  lemma KeysInFront(item: CacheItem, items: seq<CacheItem>)
    ensures Keys([item] + items) == [item.key] + Keys(items)
  {
  }

  lemma {:induction false} WithoutNothing(order: seq<string>, dead: set<string>)
    requires forall k :: k in order ==> k !in dead
    ensures Without(order, dead) == order
  {
    if order != [] {
      assert order == [order[0]] + order[1..];
      WithoutNothing(order[1..], dead);
    }
  }

  /** The map and the list hold the same elements, each under its own key. */
  ghost predicate Linked(entries: map<string, CacheItem>, lru: seq<CacheItem>) {
    && Distinct(Keys(lru))
    && (forall k :: k in entries ==> entries[k] in lru && entries[k].key == k)
    && forall item :: item in lru ==> item.key in entries && entries[item.key] == item
  }

  lemma UnlinkKeepsLinked(entries: map<string, CacheItem>, lru: seq<CacheItem>, item: CacheItem)
    requires Linked(entries, lru) && item in lru
    ensures Linked(entries - {item.key}, Unlinked(lru, item))
    ensures Keys(Unlinked(lru, item)) == Without(Keys(lru), {item.key})
  {
    hide Distinct, Without, Unlinked, Keys;
    UnlinkedIsWithout(lru, item);
    WithoutKeepsDistinct(Keys(lru), {item.key});
    forall i | i in Unlinked(lru, item)
      ensures i.key != item.key && i.key in entries && entries[i.key] == i
    {
      assert i in lru;
    }
  }

  lemma FrontKeepsLinked(entries: map<string, CacheItem>, lru: seq<CacheItem>, item: CacheItem)
    requires Linked(entries, lru) && item in lru
    ensures Linked(entries, [item] + Unlinked(lru, item))
    ensures Keys([item] + Unlinked(lru, item)) == [item.key] + Without(Keys(lru), {item.key})
  {
    hide Without;
    UnlinkedIsWithout(lru, item);
    FrontKeepsDistinct(Keys(lru), item.key);
    assert Keys([item] + Unlinked(lru, item)) == [item.key] + Keys(Unlinked(lru, item));
  }

  lemma PushKeepsLinked(entries: map<string, CacheItem>, lru: seq<CacheItem>, item: CacheItem)
    requires Linked(entries, lru) && item.key !in entries
    ensures Linked(entries[item.key := item], [item] + lru)
    ensures Keys([item] + lru) == [item.key] + Keys(lru)
  {
    assert Keys([item] + lru) == [item.key] + Keys(lru);
    forall i | 0 <= i < |lru|
      ensures Keys(lru)[i] != item.key
    {
      assert lru[i] in lru;
    }
  }

  lemma LastIsLinked(entries: map<string, CacheItem>, lru: seq<CacheItem>)
    requires Linked(entries, lru)
    ensures |Keys(lru)| == |lru|
    ensures lru != [] ==>
      var item := lru[|lru| - 1];
      item in lru && Keys(lru)[|lru| - 1] == item.key && item.key in entries && entries[item.key] == item
  {
  }

  lemma StoredIsLinked(entries: map<string, CacheItem>, lru: seq<CacheItem>, key: string)
    requires Linked(entries, lru) && key in entries
    ensures entries[key] in lru && entries[key].key == key
    ensures forall k :: k in entries && entries[k] == entries[key] ==> k == key
  {
  }

  class IPDomainCache {
    var entries: map<string, CacheItem>
    var ipIndex: Index
    var lru: seq<CacheItem>
    const maxEntries: int
    var defaultTTL: int
    var hits: nat
    var misses: nat
    var evictions: nat

    constructor (maxEntries: int, ttl: int)
      ensures Valid() && Value() == Empty(maxEntries)
      ensures lru == [] && defaultTTL == ttl
    {
      this.maxEntries, defaultTTL := maxEntries, ttl;
      entries, ipIndex, lru := map[], map[], [];
      hits, misses, evictions := 0, 0, 0;
    }

    /** What is stored, as a plain map. */
    ghost function Stored(): map<string, CacheEntry>
      reads `entries, entries.Values
    {
      map k | k in entries :: entries[k].entry
    }

    ghost function Value(): Cache
      reads this, entries.Values
    {
      Cache(maxEntries, Keys(lru), Stored(), ipIndex, hits, misses, evictions)
    }

    ghost predicate Valid()
      reads this, entries.Values
    {
      Linked(entries, lru) && Inv(Value())
    }

    // -------------------------------------------------------------- list and map together

    /** Drops an element from the list and the map. */
    method Unlink(item: CacheItem)
      requires Valid() && item in lru
      modifies `lru, `entries
      ensures Valid() && Value() == Forget(old(Value()), {item.key})
      ensures entries == old(entries) - {item.key}
    {
      hide Linked, Distinct, Inv, Without, Unlinked, Keys;
      ghost var c := Value();
      UnlinkKeepsLinked(entries, lru, item);
      ForgetKeepsInv(c, {item.key});
      lru := Unlinked(lru, item);
      entries := entries - {item.key};
      assert Stored() == c.entries - {item.key};
    }

    /** Moves an element to the front of the list. */
    method MoveToFront(item: CacheItem)
      requires Valid() && item in lru
      modifies `lru
      ensures Valid()
      ensures Value() == old(Value()).(order := [item.key] + Without(old(Value()).order, {item.key}))
    {
      hide Linked, Distinct, Without, Unlinked, Keys, GoodBucket;
      LinkedCounts(entries, lru, item);
      FrontKeepsLinked(entries, lru, item);
      FrontKeepsDistinct(Keys(lru), item.key);
      lru := [item] + Unlinked(lru, item);
      assert Keys(lru) == [item.key] + Without(old(Value()).order, {item.key});
    }

    static lemma LinkedCounts(entries: map<string, CacheItem>, lru: seq<CacheItem>, item: CacheItem)
      requires Linked(entries, lru) && item in lru
      ensures Distinct(Keys(lru)) && item.key in Keys(lru)
    {
      var i :| 0 <= i < |lru| && lru[i] == item;
      assert Keys(lru)[i] == item.key;
    }

    /** Puts a new element at the front of the list and into the map. */
    method PushFront(key: string, entry: CacheEntry)
      requires Linked(entries, lru) && key !in entries
      modifies `lru, `entries
      ensures Linked(entries, lru) && fresh(entries.Values - old(entries.Values))
      ensures Value() == old(Value()).(order := [key] + old(Value()).order, entries := old(Value()).entries[key := entry])
    {
      hide Linked, Distinct, Keys;
      var item := new CacheItem(key, entry);
      ghost var c := Value();
      PushKeepsLinked(entries, lru, item);
      lru := [item] + lru;
      entries := entries[key := item];
      assert Stored() == c.entries[key := entry];
    }

    // -------------------------------------------------------------- reverse index

    /** The loop that keeps the bucket's entries of other domains. */
    static method KeepOthers(bucket: seq<CacheEntry>, domain: string) returns (others: seq<CacheEntry>)
      ensures others == OthersOf(bucket, domain)
    {
      hide OthersOf;
      others := [];
      for i := 0 to |bucket|
        invariant OthersOf(bucket, domain) == others + OthersOf(bucket[i..], domain)
      {
        OthersOfStep(bucket[i..], domain, others);
        assert bucket[i..][1..] == bucket[i + 1..];
        if bucket[i].domain != domain {
          others := others + [bucket[i]];
        }
      }
      OthersOfNone(domain);
      assert bucket[|bucket|..] == [] && others + [] == others;
    }

    static lemma OthersOfStep(bucket: seq<CacheEntry>, domain: string, others: seq<CacheEntry>)
      requires bucket != []
      ensures others + OthersOf(bucket, domain) ==
        (if bucket[0].domain != domain then others + [bucket[0]] else others) + OthersOf(bucket[1..], domain)
    {
    }

    static lemma OthersOfNone(domain: string)
      ensures OthersOf([], domain) == []
    {
    }

    method UpdateIPIndex(entry: CacheEntry)
      modifies `ipIndex
      ensures ipIndex == AddToIndex(old(ipIndex), entry)
    {
      var oldEntries := if entry.ip in ipIndex then ipIndex[entry.ip] else [];
      var newEntries := KeepOthers(oldEntries, entry.domain);
      ipIndex := ipIndex[entry.ip := newEntries + [entry]];
    }

    method RemoveFromIPIndex(entry: CacheEntry)
      modifies `ipIndex
      ensures ipIndex == RemoveFromIndex(old(ipIndex), entry)
    {
      var oldEntries := if entry.ip in ipIndex then ipIndex[entry.ip] else [];
      var newEntries := KeepOthers(oldEntries, entry.domain);
      if |newEntries| == 0 {
        ipIndex := ipIndex - {entry.ip};
      } else {
        ipIndex := ipIndex[entry.ip := newEntries];
      }
    }

    // -------------------------------------------------------------- operations

    method Get(key: string, now: int) returns (r: CacheEntry?)
      requires Valid()
      modifies this, if key in entries then {entries[key].entry} else {}
      ensures Valid()
      ensures Value() == CacheModel.Get(old(Value()), key, old(key in entries && entries[key].entry.expiresAt < now))
      ensures r == if old(key in entries && now <= entries[key].entry.expiresAt) then old(entries[key].entry) else null
      ensures r != null ==>
        && r.hitCount == old(entries[key].entry.hitCount) + 1
        && r.expiresAt == old(entries[key].entry.expiresAt) && r.createdAt == old(entries[key].entry.createdAt)
      ensures r == null && old(key in entries) ==> unchanged(old(entries[key].entry))
      ensures defaultTTL == old(defaultTTL)
    {
      hide Without, Inv, Linked, Keys, Distinct;
      if key !in entries {
        Count(0, 1);
        return null;
      }
      var item := entries[key];
      StoredIsLinked(entries, lru, key);
      if item.entry.IsExpired(now) {
        Unlink(item);
        Count(0, 1);
        return null;
      }
      MoveToFront(item);
      Count(1, 0);
      item.entry.hitCount := item.entry.hitCount + 1;
      r := item.entry;
    }

    method Count(hit: nat, miss: nat)
      requires Valid()
      modifies `hits, `misses
      ensures Valid()
      ensures Value() == old(Value()).(hits := old(hits) + hit, misses := old(misses) + miss)
    {
      hide Linked, Inv, Keys, Distinct;
      hits, misses := hits + hit, misses + miss;
      CountingKeepsInv(old(Value()), Value());
    }

    static lemma CountingKeepsInv(c: Cache, d: Cache)
      requires Inv(c) && d == c.(hits := d.hits, misses := d.misses, evictions := d.evictions)
      ensures Inv(d)
    {
    }

    method EvictOldest()
      requires Valid()
      modifies `lru, `entries, `ipIndex, `evictions
      ensures Valid() && Value() == CacheModel.EvictOldest(old(Value()))
      ensures forall k :: k in entries ==> k in old(entries) && entries[k] == old(entries)[k]
    {
      hide Linked, Distinct, Inv, Keys, Remove;
      LastIsLinked(entries, lru);
      if |lru| > 0 {
        Drop(lru[|lru| - 1]);
        ghost var c := Value();
        evictions := evictions + 1;
        CountingKeepsInv(c, Value());
      }
    }

    /** Stores another entry under a key that is there. */
    method Replace(key: string, entry: CacheEntry)
      requires Valid() && key in entries
      modifies `lru, `ipIndex, entries[key]
      ensures Valid() && Value() == CacheModel.Set(old(Value()), key, entry)
    {
      hide Without, Inv, AddToIndex, RemoveFromIndex, CacheModel.EvictOldest, Linked, Keys, Distinct;
      ghost var c := Value();
      SetKeepsInv(c, key, entry);
      var item := entries[key];
      StoredIsLinked(entries, lru, key);
      MoveToFront(item);
      item.entry := entry;
      assert Stored() == c.entries[key := entry];
      UpdateIPIndex(entry);
      assert Value() == CacheModel.Set(c, key, entry);
    }

    /** Stores an entry under a new key, for which the oldest goes if there is no room. */
    method Insert(key: string, entry: CacheEntry)
      requires Valid() && key !in entries
      modifies `lru, `entries, `ipIndex, `evictions
      ensures Valid() && Value() == CacheModel.Set(old(Value()), key, entry)
      ensures fresh(entries.Values - old(entries.Values))
    {
      hide Without, Inv, AddToIndex, CacheModel.EvictOldest, CacheModel.Set, Linked, Keys, Distinct;
      ghost var c := Value();
      SetKeepsInv(c, key, entry);
      LastIsLinked(entries, lru);
      if |lru| >= maxEntries {
        EvictOldest();
      }
      SetNewKey(c, key, entry);
      PushFront(key, entry);
      UpdateIPIndex(entry);
      assert Value() == CacheModel.Set(c, key, entry);
    }

    method Set(key: string, entry: CacheEntry, now: int)
      requires Valid()
      modifies `lru, `entries, `ipIndex, `evictions, entry`expiresAt, entry`createdAt,
               (if key in entries then {entries[key]} else {})
      ensures Valid() && Value() == CacheModel.Set(old(Value()), key, entry)
      ensures entry.expiresAt == (if old(entry.expiresAt) == 0 then now + defaultTTL else old(entry.expiresAt))
      ensures entry.createdAt == (if old(entry.createdAt) == 0 then now else old(entry.createdAt))
      ensures fresh(entries.Values - old(entries.Values))
    {
      hide Inv, Linked, CacheModel.Set;
      if entry.expiresAt == 0 {
        entry.expiresAt := now + defaultTTL;
      }
      if entry.createdAt == 0 {
        entry.createdAt := now;
      }
      assert Value() == old(Value());
      if key in entries {
        Replace(key, entry);
      } else {
        Insert(key, entry);
      }
    }

    /** Storing under a new key, once there is room. */
    static lemma SetNewKey(c: Cache, key: string, e: CacheEntry)
      requires Inv(c) && key !in c.entries
      ensures var room := if |c.order| < c.max then c else CacheModel.EvictOldest(c);
        && key !in room.entries
        && CacheModel.Set(c, key, e) ==
             room.(order := [key] + room.order, entries := room.entries[key := e], index := AddToIndex(room.index, e))
    {
      hide Without, AddToIndex, RemoveFromIndex, GoodBucket;
      RoomIsMade(c, key);
      var room := if |c.order| < c.max then c else CacheModel.EvictOldest(c);
      WithoutNothing(room.order, {key});
    }

    method SetWithTTL(key: string, entry: CacheEntry, ttl: int, now: int)
      requires Valid()
      modifies `lru, `entries, `ipIndex, `evictions, entry`expiresAt, entry`createdAt,
               (if key in entries then {entries[key]} else {})
      ensures Valid() && Value() == CacheModel.Set(old(Value()), key, entry)
      ensures entry.expiresAt == if now + ttl == 0 then now + defaultTTL else now + ttl
    {
      entry.expiresAt := now + ttl;
      Set(key, entry, now);
    }

    method Delete(key: string) returns (found: bool)
      requires Valid()
      modifies `lru, `entries, `ipIndex
      ensures Valid() && Value() == CacheModel.Delete(old(Value()), key)
      ensures found == old(key in entries)
    {
      hide Linked, Inv, Remove;
      if key !in entries {
        return false;
      }
      StoredIsLinked(entries, lru, key);
      Drop(entries[key]);
      return true;
    }

    /** Drops an element from the list, the map and the reverse index. */
    method Drop(item: CacheItem)
      requires Valid() && item in lru && item.key in entries && entries[item.key] == item
      modifies `lru, `entries, `ipIndex
      ensures Valid() && Value() == Remove(old(Value()), item.key)
      ensures entries == old(entries) - {item.key}
    {
      hide Linked, Inv, Without, Keys, RemoveFromIndex;
      ghost var c := Value();
      RemoveKeepsInv(c, item.key);
      var entry := item.entry;
      Unlink(item);
      RemoveFromIPIndex(entry);
      assert Value() == Remove(c, item.key);
    }

    /** Collects the expired keys, in whatever order the map gives them, then drops them one by one. */
    method Cleanup(now: int)
      requires Valid()
      modifies `lru, `entries
      ensures Valid()
      ensures Value() == Forget(old(Value()), old(set k | k in entries && entries[k].entry.expiresAt < now))
    {
      hide Inv, Linked, Keys, Distinct, Without;
      ghost var dead := set k | k in entries && entries[k].entry.expiresAt < now;
      var unseen := entries.Keys;
      var toDelete: seq<string> := [];
      ghost var listed: set<string> := {};
      ListsNothing(toDelete);
      while unseen != {}
        invariant unseen <= entries.Keys && listed !! unseen
        invariant listed == dead - unseen
        invariant Lists(toDelete, listed)
        modifies {}
      {
        var k :| k in unseen;
        assert k in dead <==> entries[k].entry.IsExpired(now);
        if entries[k].entry.IsExpired(now) {
          ListsOneMore(toDelete, listed, k);
          toDelete := toDelete + [k];
          listed := listed + {k};
        }
        unseen := unseen - {k};
      }
      ghost var c := Value();
      ForgetNothing(c);
      ghost var gone: set<string> := {};
      ghost var left := listed;
      var i := 0;
      while i < |toDelete|
        invariant i <= |toDelete| && Valid() && Lists(toDelete[i..], left)
        invariant gone + left == listed && left <= entries.Keys
        invariant Value() == Forget(c, gone)
      {
        var k := toDelete[i];
        ListsOneLess(toDelete[i..], left);
        assert toDelete[i..][1..] == toDelete[i + 1..];
        StoredIsLinked(entries, lru, k);
        ForgetTwice(c, gone, {k});
        Unlink(entries[k]);
        gone, left := gone + {k}, left - {k};
        i := i + 1;
      }
      ListsAllOf(toDelete[i..], left);
      assert gone == dead;
    }

    /** The sequence names each element of the set once. */
    static ghost predicate Lists(s: seq<string>, elements: set<string>) {
      Distinct(s) && forall k :: k in s <==> k in elements
    }

    static lemma ListsOneMore(s: seq<string>, elements: set<string>, k: string)
      requires Lists(s, elements) && k !in elements
      ensures Lists(s + [k], elements + {k})
    {
      assert forall i :: 0 <= i < |s| ==> s[i] in s;
    }

    static lemma ListsOneLess(s: seq<string>, elements: set<string>)
      requires Lists(s, elements) && s != []
      ensures s[0] in elements && Lists(s[1..], elements - {s[0]})
    {
      assert s == [s[0]] + s[1..];
      assert forall i :: 0 <= i < |s| - 1 ==> s[1..][i] == s[i + 1];
    }

    static lemma ListsNothing(s: seq<string>)
      requires s == []
      ensures Lists(s, {})
    {
    }

    static lemma ListsAllOf(s: seq<string>, elements: set<string>)
      requires Lists(s, elements) && s == []
      ensures elements == {}
    {
    }

    static lemma ForgetNothing(c: Cache)
      ensures Forget(c, {}) == c
    {
      WithoutNothing(c.order, {});
    }

    static lemma ForgetTwice(c: Cache, a: set<string>, b: set<string>)
      ensures Forget(Forget(c, a), b) == Forget(c, a + b)
    {
      WithoutTwice(c.order, a, b);
      assert c.entries - a - b == c.entries - (a + b);
    }

    static lemma {:induction false} WithoutTwice(order: seq<string>, a: set<string>, b: set<string>)
      ensures Without(Without(order, a), b) == Without(order, a + b)
    {
      if order != [] {
        WithoutTwice(order[1..], a, b);
        var rest := Without(order[1..], a);
        assert ([order[0]] + rest)[1..] == rest && [] + rest == rest;
      }
    }

    /** The entries of a bucket that the clock has not yet passed, in order. */
    static function Alive(bucket: seq<CacheEntry>, now: int): seq<CacheEntry>
      reads bucket
    {
      if bucket == [] then []
      else if bucket[0].IsExpired(now) then Alive(bucket[1..], now)
      else [bucket[0]] + Alive(bucket[1..], now)
    }

    /** So each entry of the bucket is there, in its place, exactly if it has not expired. */
    static lemma {:induction false} AliveMeaning(a: seq<CacheEntry>, b: seq<CacheEntry>, e: CacheEntry, now: int)
      ensures Alive(a + b, now) == Alive(a, now) + Alive(b, now)
      ensures Alive([e], now) == if e.expiresAt < now then [] else [e]
      decreases |a|
    {
      if a == [] {
        assert a + b == b && [] + Alive(b, now) == Alive(b, now);
      } else {
        AliveMeaning(a[1..], b, e, now);
        assert (a + b)[1..] == a[1..] + b;
        assert ([a[0]] + Alive(a[1..], now)) + Alive(b, now) == [a[0]] + (Alive(a[1..], now) + Alive(b, now));
      }
      assert [e][1..] == [] && [e] + [] == [e];
    }

    method GetByIP(ip: string, now: int) returns (r: seq<CacheEntry>)
      ensures r == Alive(Bucket(ipIndex, ip), now)
    {
      r := [];
      if ip !in ipIndex {
        return;
      }
      var bucket := ipIndex[ip];
      for i := 0 to |bucket|
        invariant Alive(bucket, now) == r + Alive(bucket[i..], now)
      {
        assert bucket[i..][0] == bucket[i] && bucket[i..][1..] == bucket[i + 1..];
        if !bucket[i].IsExpired(now) {
          assert r + ([bucket[i]] + Alive(bucket[i + 1..], now)) == (r + [bucket[i]]) + Alive(bucket[i + 1..], now);
          r := r + [bucket[i]];
        }
      }
    }

    method Clear()
      modifies this
      ensures Valid() && Value() == CacheModel.Clear(old(Value()))
      ensures defaultTTL == old(defaultTTL)
    {
      entries, ipIndex, lru := map[], map[], [];
      hits, misses, evictions := 0, 0, 0;
    }

    method Size() returns (n: nat)
      requires Valid()
      ensures n == |Value().order| == |entries|
    {
      n := |lru|;
      LastIsLinked(entries, lru);
      KeysCount(Keys(lru), entries.Keys);
    }

    static lemma {:induction false} KeysCount(keys: seq<string>, s: set<string>)
      requires Distinct(keys) && forall k :: k in keys <==> k in s
      ensures |keys| == |s|
    {
      if keys != [] {
        assert keys == [keys[0]] + keys[1..];
        KeysCount(keys[1..], s - {keys[0]});
      }
    }
  }

  /** How the rule engine stores a decision: one entry object under the domain and under the IP. */
  method CacheResult(c: IPDomainCache, domain: string, ip: string, route: Route, now: int) returns (entry: CacheEntry)
    requires c.Valid()
    modifies c, c.entries.Values
    ensures c.Valid() && fresh(entry) && entry.domain == domain && entry.ip == ip && entry.route == route
    ensures ip in c.entries && c.entries[ip].entry == entry
    ensures c.Value() ==
      var first := if domain == "" then old(c.Value()) else CacheModel.Set(old(c.Value()), domain, entry);
      CacheModel.Set(first, ip, entry)
  {
    hide Linked, Inv, Keys, Distinct, RemoveFromIndex, AddToIndex, Without, CacheModel.EvictOldest;
    entry := new CacheEntry(domain, ip, route);
    if domain != "" {
      c.Set(domain, entry, now);
    }
    c.Set(ip, entry, now);
    assert ip in c.Value().entries;
  }
}
