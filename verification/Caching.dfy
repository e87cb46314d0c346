/** The cache: an in-memory store that evicts the least recently used entries, and a front that gives
    entries a lifetime and indexes them by tag. Time is a parameter. */
module Caching {
  import opened Wrappers
  import opened Sequences

  datatype Entry = Entry(key: string, value: string, size: nat, expires: Option<real>, tags: seq<string>)

  /** The entries from the least to the most recently used, and the accounted memory. */
  datatype Store = Store(items: seq<Entry>, memory: int)

  /** `sizeOf` estimates the size of a value. */
  datatype Config = Config(maxSize: int, maxMemory: int, sizeOf: string -> nat, defaultTtl: Option<real>)

  predicate Expired(e: Entry, now: real) { e.expires.Some? && now > e.expires.value }

  // ----- entries in order

  /** The position of a key, or the length when it is absent. */
  function Find(items: seq<Entry>, key: string): (i: nat)
    ensures i <= |items| && (i < |items| ==> items[i].key == key)
    ensures forall j :: 0 <= j < i ==> items[j].key != key
  {
    if items == [] || items[0].key == key then 0 else 1 + Find(items[1..], key)
  }

  predicate Has(items: seq<Entry>, key: string) { exists i :: 0 <= i < |items| && items[i].key == key }

  ghost predicate Distinct(items: seq<Entry>) {
    forall i, j :: 0 <= i < j < |items| ==> items[i].key != items[j].key
  }

  function Total(items: seq<Entry>): nat {
    if items == [] then 0 else items[0].size + Total(items[1..])
  }

  function Without(items: seq<Entry>, keys: set<string>): seq<Entry> {
    if items == [] then []
    else (if items[0].key in keys then [] else [items[0]]) + Without(items[1..], keys)
  }

  lemma {:induction false} TotalJoins(a: seq<Entry>, b: seq<Entry>)
    ensures Total(a + b) == Total(a) + Total(b)
  {
    if a == [] {
      assert a + b == b;
    } else {
      assert (a + b)[1..] == a[1..] + b;
      TotalJoins(a[1..], b);
    }
  }

  lemma {:induction false} WithoutJoins(a: seq<Entry>, b: seq<Entry>, keys: set<string>)
    ensures Without(a + b, keys) == Without(a, keys) + Without(b, keys)
  {
    if a == [] {
      assert a + b == b;
    } else {
      assert (a + b)[1..] == a[1..] + b;
      WithoutJoins(a[1..], b, keys);
    }
  }

  lemma {:induction false} WithoutMembers(items: seq<Entry>, keys: set<string>)
    ensures forall e :: e in Without(items, keys) <==> e in items && e.key !in keys
    ensures |Without(items, keys)| <= |items|
  {
    if items != [] {
      WithoutMembers(items[1..], keys);
      assert items == [items[0]] + items[1..];
    }
  }

  lemma {:induction false} WithoutNone(items: seq<Entry>, keys: set<string>)
    requires forall e :: e in items ==> e.key !in keys
    ensures Without(items, keys) == items
  {
    if items != [] {
      assert items == [items[0]] + items[1..];
      WithoutNone(items[1..], keys);
    }
  }

  lemma {:induction false} WithoutTwice(items: seq<Entry>, a: set<string>, b: set<string>)
    ensures Without(Without(items, a), b) == Without(items, a + b)
  {
    if items != [] {
      WithoutTwice(items[1..], a, b);
      WithoutJoins(if items[0].key in a then [] else [items[0]], Without(items[1..], a), b);
      assert Without([items[0]], b) == if items[0].key in b then [] else [items[0]];
    }
  }

  lemma Single(e: Entry, keys: set<string>)
    ensures Total([e]) == e.size
    ensures Without([e], keys) == if e.key in keys then [] else [e]
  {}

  lemma Around(items: seq<Entry>, i: nat)
    requires i < |items|
    ensures items == items[..i] + ([items[i]] + items[i + 1..])
    ensures Total(items) == Total(items[..i]) + items[i].size + Total(items[i + 1..])
  {
    hide Total;
    SplitAt(items, i);
    TotalJoins(items[..i], [items[i]] + items[i + 1..]);
    TotalJoins([items[i]], items[i + 1..]);
    Single(items[i], {});
  }

  /** Removing a key that is present at i cuts it out there. */
  lemma WithoutOne(items: seq<Entry>, i: nat)
    requires i < |items| && Distinct(items)
    ensures Without(items, {items[i].key}) == items[..i] + items[i + 1..]
    ensures Total(items) == Total(items[..i] + items[i + 1..]) + items[i].size
  {
    hide Total, Without;
    var keys := {items[i].key};
    Around(items, i);
    WithoutJoins(items[..i], [items[i]] + items[i + 1..], keys);
    WithoutJoins([items[i]], items[i + 1..], keys);
    WithoutNone(items[..i], keys);
    WithoutNone(items[i + 1..], keys);
    Single(items[i], keys);
    TotalJoins(items[..i], items[i + 1..]);
  }

  lemma TotalUpdate(items: seq<Entry>, i: nat, e: Entry)
    requires i < |items|
    ensures Total(items[i := e]) == Total(items) - items[i].size + e.size
  {
    hide Total;
    Around(items, i);
    Around(items[i := e], i);
    assert items[i := e][..i] == items[..i] && items[i := e][i + 1..] == items[i + 1..];
  }

  lemma FindIs(items: seq<Entry>, key: string, i: nat)
    requires i <= |items| && (i < |items| ==> items[i].key == key)
    requires forall j :: 0 <= j < i ==> items[j].key != key
    ensures Find(items, key) == i
  {}

  lemma FindInSuffix(items: seq<Entry>, key: string, m: nat)
    requires m <= |items| && Distinct(items)
    ensures var i := Find(items, key); Find(items[m..], key) == if m <= i < |items| then i - m else |items| - m
  {
    var i := Find(items, key);
    FindIs(items[m..], key, if m <= i < |items| then i - m else |items| - m);
  }

  // ----- the store's operations

  /** What is removed is also taken off the account. */
  function Drop(s: Store, keys: set<string>): Store {
    var rest := Without(s.items, keys);
    Store(rest, s.memory - (Total(s.items) - Total(rest)))
  }

  function Fetch(s: Store, key: string, now: real): (Store, Option<Entry>) {
    var i := Find(s.items, key);
    if i == |s.items| then (s, None)
    else if Expired(s.items[i], now) then (Drop(s, {key}), None)
    else (Store(Without(s.items, {key}) + [s.items[i]], s.memory), Some(s.items[i]))
  }

  predicate Full(count: int, memory: int, size: nat, c: Config) {
    count >= c.maxSize || memory + size > c.maxMemory
  }

  /** The eviction loop: the oldest entry goes until there is room, or nothing is left. */
  function Shrink(s: Store, size: nat, c: Config): Store
    decreases |s.items|
  {
    if Full(|s.items|, s.memory, size, c) && s.items != []
    then Shrink(Store(s.items[1..], s.memory - s.items[0].size), size, c)
    else s
  }

  /** Overwriting takes the old entry's size off first, and leaves the key in its place. */
  function Put(s: Store, e: Entry, c: Config): Store {
    var i := Find(s.items, e.key);
    var before := if i < |s.items| then s.memory - s.items[i].size else s.memory;
    var t := Shrink(Store(s.items, before), e.size, c);
    var j := Find(t.items, e.key);
    Store(if j < |t.items| then t.items[j := e] else t.items + [e], t.memory + e.size)
  }

  /** Eviction drops exactly the shortest prefix of the order after which there is room. */
  lemma {:induction false} ShrinkIsLeast(s: Store, size: nat, c: Config) returns (m: nat)
    ensures m <= |s.items| && Shrink(s, size, c) == Store(s.items[m..], s.memory - Total(s.items[..m]))
    ensures forall q :: 0 <= q < m ==> Full(|s.items| - q, s.memory - Total(s.items[..q]), size, c)
    ensures m < |s.items| ==> !Full(|s.items| - m, s.memory - Total(s.items[..m]), size, c)
    decreases |s.items|
  {
    hide Full, Total, Shrink;
    ShrinkOnce(s, size, c);
    NothingTotals(s.items);
    if Full(|s.items|, s.memory, size, c) && s.items != [] {
      var rest := s.items[1..];
      var n := ShrinkIsLeast(Store(rest, s.memory - s.items[0].size), size, c);
      m := n + 1;
      assert s.items[m..] == rest[n..];
      forall q | 0 < q <= |s.items| ensures Total(s.items[..q]) == s.items[0].size + Total(rest[..q - 1]) {
        FirstOfTotal(s.items, q);
      }
      forall q | 0 <= q < m ensures Full(|s.items| - q, s.memory - Total(s.items[..q]), size, c) {
        if q > 0 { assert Full(|rest| - (q - 1), s.memory - s.items[0].size - Total(rest[..q - 1]), size, c); }
      }
    } else {
      m := 0;
      assert s.items[0..] == s.items;
    }
  }

  lemma ShrinkOnce(s: Store, size: nat, c: Config)
    ensures Shrink(s, size, c) ==
      if Full(|s.items|, s.memory, size, c) && s.items != []
      then Shrink(Store(s.items[1..], s.memory - s.items[0].size), size, c)
      else s
  {}

  lemma FirstOfTotal(items: seq<Entry>, q: nat)
    requires 0 < q <= |items|
    ensures Total(items[..q]) == items[0].size + Total(items[1..][..q - 1])
  {
    assert items[..q][1..] == items[1..][..q - 1];
  }

  lemma NothingTotals(items: seq<Entry>)
    ensures Total(items[..0]) == 0
  {}

  /** The shape of a store after a put: a suffix of the old order, with the entry in place or at the end. */
  lemma PutShape(s: Store, e: Entry, c: Config) returns (m: nat)
    requires Distinct(s.items)
    ensures m <= |s.items|
    ensures var i, r := Find(s.items, e.key), Put(s, e, c);
      var before := s.memory - if i < |s.items| then s.items[i].size else 0;
      && r.items == (if m <= i < |s.items| then s.items[m..][i - m := e] else s.items[m..] + [e])
      && r.memory == before - Total(s.items[..m]) + e.size
      && (forall q :: 0 <= q < m ==> Full(|s.items| - q, before - Total(s.items[..q]), e.size, c))
      && (m < |s.items| ==> !Full(|s.items| - m, before - Total(s.items[..m]), e.size, c))
  {
    hide Shrink, Full, Total, Find;
    var i := Find(s.items, e.key);
    var before := if i < |s.items| then s.memory - s.items[i].size else s.memory;
    m := ShrinkIsLeast(Store(s.items, before), e.size, c);
    FindInSuffix(s.items, e.key, m);
  }

  // ----- the memory account

  /** The size of what is stored that the account misses. */
  function Drift(s: Store): int { Total(s.items) - s.memory }

  /** The overwritten entry is itself evicted to make room: even with all older entries gone there was none. */
  predicate EvictsItself(s: Store, e: Entry, c: Config) {
    var i := Find(s.items, e.key);
    && i < |s.items|
    && (|s.items| - i >= c.maxSize || s.memory - s.items[i].size - Total(s.items[..i]) + e.size > c.maxMemory)
  }

  lemma FullEarlier(s: seq<Entry>, count: int, memory: int, q: nat, m: nat, size: nat, c: Config)
    requires q <= m <= |s| && Full(count - m, memory - Total(s[..m]), size, c)
    ensures Full(count - q, memory - Total(s[..q]), size, c)
  {
    assert s[..m] == s[..q] + s[q..m];
    TotalJoins(s[..q], s[q..m]);
  }

  lemma InPlaceIff(s: Store, e: Entry, c: Config, m: nat)
    requires m <= |s.items| && Find(s.items, e.key) < |s.items|
    requires forall q :: 0 <= q < m ==>
      Full(|s.items| - q, s.memory - s.items[Find(s.items, e.key)].size - Total(s.items[..q]), e.size, c)
    requires m < |s.items| ==>
      !Full(|s.items| - m, s.memory - s.items[Find(s.items, e.key)].size - Total(s.items[..m]), e.size, c)
    ensures m <= Find(s.items, e.key) <==> !EvictsItself(s, e, c)
  {
    hide Total, Find;
    var i := Find(s.items, e.key);
    RoomAt(s.items, s.memory - s.items[i].size, m, i, e.size, c);
  }

  /** Where the shortest sufficient prefix ends, there is room, and from there on. */
  lemma RoomAt(items: seq<Entry>, memory: int, m: nat, i: nat, size: nat, c: Config)
    requires m <= |items| && i < |items|
    requires forall q :: 0 <= q < m ==> Full(|items| - q, memory - Total(items[..q]), size, c)
    requires m < |items| ==> !Full(|items| - m, memory - Total(items[..m]), size, c)
    ensures m <= i <==> !Full(|items| - i, memory - Total(items[..i]), size, c)
  {
    hide Total, Full;
    if m <= i && Full(|items| - i, memory - Total(items[..i]), size, c) {
      FullEarlier(items, |items|, memory, m, i, size, c);
    }
  }

  lemma PutInPlace(s: Store, e: Entry, c: Config) returns (m: nat)
    requires Distinct(s.items)
    ensures m <= |s.items|
    ensures Find(s.items, e.key) < |s.items| ==> (m <= Find(s.items, e.key) <==> !EvictsItself(s, e, c))
    ensures Find(s.items, e.key) == |s.items| ==> !EvictsItself(s, e, c)
    ensures var i := Find(s.items, e.key);
      && Put(s, e, c).items == (if m <= i < |s.items| then s.items[m..][i - m := e] else s.items[m..] + [e])
      && Put(s, e, c).memory == s.memory - (if i < |s.items| then s.items[i].size else 0) - Total(s.items[..m]) + e.size
    ensures |Put(s, e, c).items| <= if c.maxSize > 1 then c.maxSize else 1
    ensures Drift(s) >= 0 ==> Put(s, e, c).memory <= c.maxMemory || Put(s, e, c).items == [e]
  {
    hide Put, Total, Find, EvictsItself;
    m := PutShape(s, e, c);
    if Find(s.items, e.key) < |s.items| { InPlaceIff(s, e, c, m); } else { EvictsStored(s, e, c); }
    assert s.items[..|s.items|] == s.items;
  }

  lemma EvictsStored(s: Store, e: Entry, c: Config)
    ensures EvictsItself(s, e, c) ==> Find(s.items, e.key) < |s.items|
  {}

  /** A put shifts the account exactly when it evicts the very entry that it overwrites, whose size is
      then subtracted twice. */
  lemma PutDrift(s: Store, e: Entry, c: Config)
    requires Distinct(s.items)
    ensures Drift(Put(s, e, c)) == Drift(s) + if EvictsItself(s, e, c) then s.items[Find(s.items, e.key)].size else 0
    ensures Drift(Put(s, e, c)) >= Drift(s)
  {
    hide Put, Full, Total, Find, EvictsItself;
    var m := PutInPlace(s, e, c);
    var i, rest := Find(s.items, e.key), s.items[m..];
    assert s.items == s.items[..m] + rest;
    TotalJoins(s.items[..m], rest);
    if m <= i < |s.items| {
      TotalUpdate(rest, i - m, e);
    } else {
      TotalJoins(rest, [e]);
      Single(e, {});
    }
  }

  lemma DropDrift(s: Store, keys: set<string>)
    ensures Drift(Drop(s, keys)) == Drift(s)
  {}

  lemma MoveDrift(s: Store, i: nat)
    requires i < |s.items| && Distinct(s.items)
    ensures Drift(Store(Without(s.items, {s.items[i].key}) + [s.items[i]], s.memory)) == Drift(s)
  {
    WithoutOne(s.items, i);
    TotalJoins(Without(s.items, {s.items[i].key}), [s.items[i]]);
    Single(s.items[i], {});
  }

  // ----- the cache

  type Index = map<string, set<string>>

  datatype Cached = Cached(store: Store, index: Index)

  datatype Action =
    | Get(key: string, now: real)
    | Exists(key: string, now: real)
    | Set(key: string, value: string, ttl: Option<real>, tags: seq<string>, now: real)
    | Delete(key: string, now: real)
    | InvalidateTag(tag: string)
    | Clear

  /** What an operation answers: the entry found, whether it did something, or how many entries it removed. */
  datatype Answer = Hit(entry: Entry) | Miss | Done(ok: bool) | Removed(count: int)

  function Under(index: Index, tag: string): set<string> { if tag in index then index[tag] else {} }

  function Tagged(index: Index, tags: seq<string>, key: string): Index {
    map t | t in index.Keys + (set u | u in tags) :: Under(index, t) + if t in tags then {key} else {}
  }

  function Untagged(index: Index, tags: seq<string>, key: string): Index {
    map t | t in index :: index[t] - if t in tags then {key} else {}
  }

  /** A missing lifetime means the default; a lifetime of zero means none. */
  function NewEntry(a: Action, c: Config): Entry
    requires a.Set?
  {
    var ttl := if a.ttl.Some? then a.ttl else c.defaultTtl;
    var expires := if ttl.Some? && ttl.value != 0.0 then Some(a.now + ttl.value) else None;
    Entry(a.key, a.value, c.sizeOf(a.value), expires, a.tags)
  }

  /** What a set gives a key to live on: its own lifetime if it has one, else the default. */
  predicate Alive(a: Action, c: Config, now: real)
    requires a.Set?
  {
    var ttl := if a.ttl.Some? then a.ttl else c.defaultTtl;
    ttl.None? || ttl.value == 0.0 || now <= a.now + ttl.value
  }

  /** A set stores just its key, value and tags, and the size of the value; the entry expires when the lifetime,
      counted from the set, is over, and never if there is none. */
  lemma EntryMeans(a: Action, c: Config, now: real)
    requires a.Set?
    ensures var e := NewEntry(a, c);
      && e.key == a.key && e.value == a.value && e.tags == a.tags && e.size == c.sizeOf(a.value)
      && (Expired(e, now) <==> !Alive(a, c, now))
  {}

  function Step(s: Cached, a: Action, c: Config): (Cached, Answer) {
    match a
    case Get(key, now) =>
      var (store, found) := Fetch(s.store, key, now);
      (s.(store := store), if found.Some? then Hit(found.value) else Miss)
    case Exists(key, now) =>
      var i := Find(s.store.items, key);
      if i < |s.store.items| && Expired(s.store.items[i], now) then (s.(store := Drop(s.store, {key})), Done(false))
      else (s, Done(i < |s.store.items|))
    case Set(key, value, ttl, tags, now) =>
      (Cached(Put(s.store, NewEntry(a, c), c), Tagged(s.index, tags, key)), Done(true))
    case Delete(key, now) =>
      var (store, found) := Fetch(s.store, key, now);
      var index := if found.Some? then Untagged(s.index, found.value.tags, key) else s.index;
      (Cached(Drop(store, {key}), index), Done(found.Some?))
    case InvalidateTag(tag) =>
      var store := Drop(s.store, Under(s.index, tag));
      (Cached(store, s.index - {tag}), Removed(|s.store.items| - |store.items|))
    case Clear =>
      (Cached(Store([], 0), map[]), Removed(|s.store.items|))
  }

  // ----- a plain dictionary to compare with, and the time of each key's last use

  datatype Log = Log(last: map<string, Entry>, used: map<string, nat>, tick: nat)

  /** The dictionary forgets only what the callers delete. */
  function Remember(last: map<string, Entry>, a: Action, c: Config): map<string, Entry> {
    match a
    case Set(key, _, _, _, _) => last[key := NewEntry(a, c)]
    case Delete(key, _) => last - {key}
    case InvalidateTag(tag) => map k | k in last && tag !in last[k].tags :: last[k]
    case Clear => map[]
    case _ => last
  }

  /** A hit uses a key; so does a set, except one that finds its key stored and overwrites it in place. */
  predicate Uses(s: Cached, a: Action, c: Config) {
    match a
    case Get(key, now) => Step(s, a, c).1.Hit?
    case Set(key, _, _, _, _) => Find(s.store.items, key) == |s.store.items| || EvictsItself(s.store, NewEntry(a, c), c)
    case _ => false
  }

  function LogStep(s: Cached, log: Log, a: Action, c: Config): Log {
    var used := if (a.Get? || a.Set?) && Uses(s, a, c) then log.used[a.key := log.tick] else log.used;
    Log(Remember(log.last, a, c), used, log.tick + 1)
  }

  ghost predicate Agrees(items: seq<Entry>, last: map<string, Entry>) {
    forall e :: e in items ==> e.key in last && last[e.key] == e
  }

  ghost predicate IndexOk(items: seq<Entry>, index: Index) {
    forall e, t :: e in items && t in e.tags ==> t in index && e.key in index[t]
  }

  /** The order is that of the last uses, all before the tick. */
  ghost predicate Recent(items: seq<Entry>, used: map<string, nat>, tick: nat) {
    items == [] || (
      && UsedBefore(items[0].key, used, tick)
      && (forall e :: e in items[1..] ==> UsedBefore(e.key, used, tick) && used[items[0].key] < used[e.key])
      && Recent(items[1..], used, tick))
  }

  predicate UsedBefore(key: string, used: map<string, nat>, tick: nat) { key in used && used[key] < tick }

  ghost predicate SizeOk(s: Store, c: Config) {
    && |s.items| <= (if c.maxSize > 1 then c.maxSize else 1)
    && Drift(s) >= 0
    && (s.memory <= c.maxMemory || |s.items| == 1)
  }

  ghost predicate Inv(s: Cached, log: Log, c: Config) {
    && Agrees(s.store.items, log.last)
    && IndexOk(s.store.items, s.index)
    && Recent(s.store.items, log.used, log.tick)
    && SizeOk(s.store, c)
  }

  // ----- the order of last uses

  lemma {:induction false} RecentAt(items: seq<Entry>, used: map<string, nat>, tick: nat, i: nat, j: nat)
    requires Recent(items, used, tick) && i <= j < |items|
    ensures UsedBefore(items[i].key, used, tick) && UsedBefore(items[j].key, used, tick)
    ensures i < j ==> used[items[i].key] < used[items[j].key]
  {
    if i > 0 {
      RecentAt(items[1..], used, tick, i - 1, j - 1);
    } else if j > 0 {
      assert items[j] in items[1..];
    }
  }

  lemma RecentIsDistinct(items: seq<Entry>, used: map<string, nat>, tick: nat)
    requires Recent(items, used, tick)
    ensures Distinct(items)
  {
    forall i, j | 0 <= i < j < |items| ensures items[i].key != items[j].key { RecentAt(items, used, tick, i, j); }
  }

  lemma {:induction false} RecentWithout(items: seq<Entry>, used: map<string, nat>, tick: nat, keys: set<string>)
    requires Recent(items, used, tick)
    ensures Recent(Without(items, keys), used, tick)
  {
    if items != [] {
      RecentWithout(items[1..], used, tick, keys);
      WithoutMembers(items[1..], keys);
      var rest := Without(items[1..], keys);
      if items[0].key in keys {
        assert Without(items, keys) == rest;
      } else {
        assert Without(items, keys) == [items[0]] + rest;
        assert ([items[0]] + rest)[1..] == rest;
      }
    }
  }

  lemma {:induction false} RecentSuffix(items: seq<Entry>, used: map<string, nat>, tick: nat, m: nat)
    requires Recent(items, used, tick) && m <= |items|
    ensures Recent(items[m..], used, tick)
  {
    if m > 0 {
      RecentSuffix(items[1..], used, tick, m - 1);
      assert items[m..] == items[1..][m - 1..];
    }
  }

  lemma {:induction false} RecentLater(items: seq<Entry>, used: map<string, nat>, tick: nat)
    requires Recent(items, used, tick)
    ensures Recent(items, used, tick + 1)
  {
    if items != [] { RecentLater(items[1..], used, tick); }
  }

  /** A key that is not there yet joins at the end, as the one used last. */
  lemma {:induction false} RecentJoins(items: seq<Entry>, used: map<string, nat>, tick: nat, e: Entry)
    requires Recent(items, used, tick) && forall f :: f in items ==> f.key != e.key
    ensures Recent(items + [e], used[e.key := tick], tick + 1)
  {
    if items == [] {
      assert items + [e] == [e];
    } else {
      assert items == [items[0]] + items[1..];
      RecentJoins(items[1..], used, tick, e);
      assert (items + [e])[1..] == items[1..] + [e];
    }
  }

  lemma {:induction false} RecentInPlace(items: seq<Entry>, used: map<string, nat>, tick: nat, i: nat, e: Entry)
    requires Recent(items, used, tick) && i < |items| && items[i].key == e.key
    ensures Recent(items[i := e], used, tick)
  {
    if i == 0 {
      assert items[0 := e][1..] == items[1..];
    } else {
      RecentInPlace(items[1..], used, tick, i - 1, e);
      assert items[i := e][1..] == items[1..][i - 1 := e];
      assert items[i] in items[1..];
    }
  }

  // ----- each operation keeps the invariant

  lemma DropKeepsInv(s: Cached, log: Log, c: Config, keys: set<string>)
    requires Inv(s, log, c) && c.maxMemory >= 0
    ensures Inv(s.(store := Drop(s.store, keys)), log, c)
    ensures forall e :: e in Drop(s.store, keys).items <==> e in s.store.items && e.key !in keys
  {
    hide Recent, Total, Without;
    WithoutMembers(s.store.items, keys);
    RecentWithout(s.store.items, log.used, log.tick, keys);
    DropDrift(s.store, keys);
    WithoutShrinks(s.store.items, keys);
  }

  lemma {:induction false} WithoutShrinks(items: seq<Entry>, keys: set<string>)
    ensures Total(Without(items, keys)) <= Total(items)
    ensures |Without(items, keys)| <= |items|
    ensures Without(items, keys) == [] ==> Total(Without(items, keys)) == 0
  {
    if items != [] {
      WithoutShrinks(items[1..], keys);
      var rest := Without(items[1..], keys);
      if items[0].key in keys { assert [] + rest == rest; } else { assert ([items[0]] + rest)[1..] == rest; }
    }
  }

  lemma TickKeepsInv(s: Cached, log: Log, c: Config)
    requires Inv(s, log, c)
    ensures Inv(s, log.(tick := log.tick + 1), c)
  {
    RecentLater(s.store.items, log.used, log.tick);
  }

  lemma FetchKeepsInv(s: Cached, log: Log, c: Config, key: string, now: real)
    requires Inv(s, log, c) && c.maxMemory >= 0
    ensures Inv(Step(s, Get(key, now), c).0, LogStep(s, log, Get(key, now), c), c)
  {
    hide Recent, IndexOk, Drift;
    var items, i := s.store.items, Find(s.store.items, key);
    DropKeepsInv(s, log, c, {key});
    TickKeepsInv(s, log, c);
    TickKeepsInv(s.(store := Drop(s.store, {key})), log, c);
    if i < |items| && !Expired(items[i], now) {
      var rest := Without(items, {key});
      WithoutMembers(items, {key});
      RecentWithout(items, log.used, log.tick, {key});
      RecentJoins(rest, log.used, log.tick, items[i]);
      RecentIsDistinct(items, log.used, log.tick);
      MoveDrift(s.store, i);
      WithoutOne(items, i);
      IndexMoves(items, rest + [items[i]], s.index);
    }
  }

  lemma IndexMoves(items: seq<Entry>, moved: seq<Entry>, index: Index)
    requires IndexOk(items, index) && forall e :: e in moved ==> e in items
    ensures IndexOk(moved, index)
  {}

  lemma SetKeepsInv(s: Cached, log: Log, c: Config, a: Action)
    requires Inv(s, log, c) && a.Set?
    ensures Inv(Step(s, a, c).0, LogStep(s, log, a, c), c)
  {
    hide Recent, IndexOk, Drift, Put, EvictsItself, Tagged, SizeOk, Agrees, Find;
    var items, e := s.store.items, NewEntry(a, c);
    RecentIsDistinct(items, log.used, log.tick);
    PutSizeOk(s.store, e, c);
    PutRecent(s.store, log, e, c);
    PutMembers(s.store, e, c);
    IndexGrows(items, Put(s.store, e, c).items, s.index, e);
    AgreesGrows(items, Put(s.store, e, c).items, log.last, e);
  }

  lemma PutSizeOk(s: Store, e: Entry, c: Config)
    requires SizeOk(s, c) && Distinct(s.items)
    ensures SizeOk(Put(s, e, c), c)
  {
    hide Put, Drift, EvictsItself;
    PutDrift(s, e, c);
    var m := PutInPlace(s, e, c);
  }

  lemma RecentAfterPut(items: seq<Entry>, used: map<string, nat>, tick: nat, m: nat, e: Entry)
    requires Recent(items, used, tick) && m <= |items|
    ensures var i := Find(items, e.key);
      if m <= i < |items| then Recent(items[m..][i - m := e], used, tick + 1)
      else Recent(items[m..] + [e], used[e.key := tick], tick + 1)
  {
    hide Recent;
    RecentIsDistinct(items, used, tick);
    RecentSuffix(items, used, tick, m);
    var i, rest := Find(items, e.key), items[m..];
    if m <= i < |items| {
      RecentLater(rest, used, tick);
      RecentInPlace(rest, used, tick + 1, i - m, e);
    } else {
      RecentJoins(rest, used, tick, e);
    }
  }

  lemma PutRecent(s: Store, log: Log, e: Entry, c: Config)
    requires Recent(s.items, log.used, log.tick)
    ensures var uses := Find(s.items, e.key) == |s.items| || EvictsItself(s, e, c);
      Recent(Put(s, e, c).items, if uses then log.used[e.key := log.tick] else log.used, log.tick + 1)
  {
    hide Put, Recent, EvictsItself, Find, Drift;
    RecentIsDistinct(s.items, log.used, log.tick);
    var m := PutInPlace(s, e, c);
    RecentAfterPut(s.items, log.used, log.tick, m, e);
  }

  lemma PutMembers(s: Store, e: Entry, c: Config)
    requires Distinct(s.items)
    ensures forall f :: f in Put(s, e, c).items ==> f == e || (f in s.items && f.key != e.key)
  {
    hide Put, EvictsItself, Drift, Find, Total;
    var m := PutInPlace(s, e, c);
    var i, items' := Find(s.items, e.key), Put(s, e, c).items;
    forall f | f in items' ensures f == e || (f in s.items && f.key != e.key) {
      var j :| 0 <= j < |items'| && items'[j] == f;
      if f != e { assert s.items[m + j] == f; }
    }
  }

  lemma AgreesGrows(items: seq<Entry>, items': seq<Entry>, last: map<string, Entry>, e: Entry)
    requires Agrees(items, last) && forall f :: f in items' ==> f == e || (f in items && f.key != e.key)
    ensures Agrees(items', last[e.key := e])
  {}

  lemma IndexGrows(items: seq<Entry>, items': seq<Entry>, index: Index, e: Entry)
    requires IndexOk(items, index) && forall f :: f in items' ==> f == e || f in items
    ensures IndexOk(items', Tagged(index, e.tags, e.key))
  {}

  lemma StepKeepsInv(s: Cached, log: Log, a: Action, c: Config)
    requires Inv(s, log, c) && c.maxMemory >= 0
    ensures Inv(Step(s, a, c).0, LogStep(s, log, a, c), c)
  {
    hide Recent, Drift, Inv;
    match a
    case Get(key, now) => FetchKeepsInv(s, log, c, key, now);
    case Exists(key, now) =>
      TickKeepsInv(s, log, c);
      DropKeepsInv(s, log.(tick := log.tick + 1), c, {key});
    case Set(_, _, _, _, _) => SetKeepsInv(s, log, c, a);
    case Delete(key, now) => DeleteKeepsInv(s, log, c, key, now);
    case InvalidateTag(tag) => InvalidateKeepsInv(s, log, c, tag);
    case Clear => EmptyInv(log, c, log.tick + 1);
  }

  lemma EmptyInv(log: Log, c: Config, tick: nat)
    requires c.maxMemory >= 0
    ensures Inv(Cached(Store([], 0), map[]), Log(map[], log.used, tick), c)
  {}

  lemma DeleteKeepsInv(s: Cached, log: Log, c: Config, key: string, now: real)
    requires Inv(s, log, c) && c.maxMemory >= 0
    ensures Inv(Step(s, Delete(key, now), c).0, LogStep(s, log, Delete(key, now), c), c)
    ensures Step(s, Delete(key, now), c).0.store == Drop(s.store, {key})
  {
    hide Recent, Drift, Total, Find;
    DeleteIsDrop(s, log, c, key, now);
    TickKeepsInv(s, log, c);
    DropKeepsInv(s, log.(tick := log.tick + 1), c, {key});
  }

  /** Deleting first looks the key up, which may move its entry or drop it. */
  lemma DeleteIsDrop(s: Cached, log: Log, c: Config, key: string, now: real)
    requires Inv(s, log, c)
    ensures Drop(Fetch(s.store, key, now).0, {key}) == Drop(s.store, {key})
  {
    hide Total, Without, Drop, Recent, Agrees, IndexOk, SizeOk;
    var i := Find(s.store.items, key);
    assert {key} + {key} == {key};
    if i < |s.store.items| {
      if Expired(s.store.items[i], now) {
        DropTwice(s.store, {key}, {key});
      } else {
        RecentIsDistinct(s.store.items, log.used, log.tick);
        DropMoved(s.store, i);
      }
    }
  }

  lemma DropMoved(s: Store, i: nat)
    requires Distinct(s.items) && i < |s.items|
    ensures var e := s.items[i]; Drop(Store(Without(s.items, {e.key}) + [e], s.memory), {e.key}) == Drop(s, {e.key})
  {
    hide Total, Without;
    var e := s.items[i];
    var rest := Without(s.items, {e.key});
    WithoutTwice(s.items, {e.key}, {e.key});
    assert {e.key} + {e.key} == {e.key};
    WithoutJoins(rest, [e], {e.key});
    Single(e, {e.key});
    TotalJoins(rest, [e]);
    WithoutOne(s.items, i);
    assert Without(rest + [e], {e.key}) == rest;
  }

  lemma InvalidateKeepsInv(s: Cached, log: Log, c: Config, tag: string)
    requires Inv(s, log, c) && c.maxMemory >= 0
    ensures Inv(Step(s, InvalidateTag(tag), c).0, LogStep(s, log, InvalidateTag(tag), c), c)
  {
    hide Recent, Drift, Total, Without;
    TickKeepsInv(s, log, c);
    DropKeepsInv(s, log.(tick := log.tick + 1), c, Under(s.index, tag));
  }

  // ----- whole runs from an empty cache

  function After(acts: seq<Action>, k: nat, c: Config): (Cached, Log)
    requires k <= |acts|
  {
    if k == 0 then (Cached(Store([], 0), map[]), Log(map[], map[], 0))
    else var (s, log) := After(acts, k - 1, c); (Step(s, acts[k - 1], c).0, LogStep(s, log, acts[k - 1], c))
  }

  lemma {:induction false} RunInv(acts: seq<Action>, k: nat, c: Config)
    requires k <= |acts| && c.maxMemory >= 0
    ensures Inv(After(acts, k, c).0, After(acts, k, c).1, c)
  {
    hide Inv, Step, LogStep;
    if k == 0 {
      EmptyInv(Log(map[], map[], 0), c, 0);
    } else {
      RunInv(acts, k - 1, c);
      StepKeepsInv(After(acts, k - 1, c).0, After(acts, k - 1, c).1, acts[k - 1], c);
    }
  }

  /** The actions that end what was set for an entry. */
  predicate Ends(a: Action, e: Entry) {
    match a
    case Set(key, _, _, _, _) => key == e.key
    case Delete(key, _) => key == e.key
    case InvalidateTag(tag) => tag in e.tags
    case Clear => true
    case _ => false
  }

  /** What the plain dictionary holds was set by some action, and nothing since then has ended it. */
  lemma {:induction false} LastIsSet(acts: seq<Action>, k: nat, c: Config, key: string) returns (j: nat)
    requires k <= |acts| && key in After(acts, k, c).1.last
    ensures j < k && acts[j].Set? && acts[j].key == key && NewEntry(acts[j], c) == After(acts, k, c).1.last[key]
    ensures forall i :: j < i < k ==> !Ends(acts[i], NewEntry(acts[j], c))
    decreases k
  {
    hide Step, Uses, NewEntry;
    if acts[k - 1].Set? && acts[k - 1].key == key {
      j := k - 1;
    } else {
      j := LastIsSet(acts, k - 1, c, key);
      EntryKey(acts[j], c);
    }
  }

  lemma EntryKey(a: Action, c: Config)
    requires a.Set?
    ensures NewEntry(a, c).key == a.key && NewEntry(a, c).tags == a.tags
  {}

  /** A hit returns what the latest set of that key stored: unexpired, and neither deleted, invalidated
      nor overwritten since. */
  lemma HitIsLatest(acts: seq<Action>, k: nat, c: Config) returns (j: nat)
    requires k < |acts| && acts[k].Get? && c.maxMemory >= 0
    requires Step(After(acts, k, c).0, acts[k], c).1.Hit?
    ensures var e := Step(After(acts, k, c).0, acts[k], c).1.entry;
      && j < k && acts[j].Set? && acts[j].key == acts[k].key && e == NewEntry(acts[j], c)
      && e.value == acts[j].value && Alive(acts[j], c, acts[k].now)
      && forall i :: j < i < k ==> !Ends(acts[i], e)
  {
    hide Recent, IndexOk, SizeOk, NewEntry;
    RunInv(acts, k, c);
    var items, i := After(acts, k, c).0.store.items, Find(After(acts, k, c).0.store.items, acts[k].key);
    assert items[i] in items;
    j := LastIsSet(acts, k, c, acts[k].key);
    EntryMeans(acts[j], c, acts[k].now);
  }

  // ----- when an entry is lost

  /** A put makes room at the cost of e: even with all entries older than e gone there is none. */
  predicate PushedOut(s: Store, n: Entry, c: Config, e: Entry) {
    var p, i := Find(s.items, n.key), Find(s.items, e.key);
    var before := s.memory - if p < |s.items| then s.items[p].size else 0;
    && e in s.items && e.key != n.key
    && (|s.items| - i >= c.maxSize || before - Total(s.items[..i]) + n.size > c.maxMemory)
  }

  predicate Loses(s: Cached, a: Action, c: Config, e: Entry) {
    match a
    case Get(key, now) => key == e.key && Expired(e, now)
    case Exists(key, now) => key == e.key && Expired(e, now)
    case Set(key, _, _, _, _) => key == e.key || PushedOut(s.store, NewEntry(a, c), c, e)
    case Delete(key, _) => key == e.key
    case InvalidateTag(tag) => e.key in Under(s.index, tag)
    case Clear => true
  }

  lemma PushedOutMeans(s: Store, n: Entry, c: Config, e: Entry)
    requires Distinct(s.items) && e in s.items && e.key != n.key
    ensures e in Put(s, n, c).items <==> !PushedOut(s, n, c, e)
  {
    hide Put, Total, Find;
    FindsEntry(s.items, e);
    var m := PutRoom(s, n, c, Find(s.items, e.key));
    Survives(s.items, m, n, Find(s.items, e.key), Put(s, n, c).items);
  }

  /** A put keeps position i exactly when there is room once everything older is gone. */
  lemma PutRoom(s: Store, n: Entry, c: Config, i: nat) returns (m: nat)
    requires Distinct(s.items) && i < |s.items|
    ensures m <= |s.items|
    ensures var p := Find(s.items, n.key);
      && Put(s, n, c).items == (if m <= p < |s.items| then s.items[m..][p - m := n] else s.items[m..] + [n])
      && var before := s.memory - if p < |s.items| then s.items[p].size else 0;
      (m <= i <==> !Full(|s.items| - i, before - Total(s.items[..i]), n.size, c))
  {
    hide Put, Full, Total, Find;
    m := PutShape(s, n, c);
    var p := Find(s.items, n.key);
    RoomAt(s.items, s.memory - if p < |s.items| then s.items[p].size else 0, m, i, n.size, c);
  }

  lemma FindsEntry(items: seq<Entry>, e: Entry)
    requires Distinct(items) && e in items
    ensures Find(items, e.key) < |items| && items[Find(items, e.key)] == e
  {
    var i :| 0 <= i < |items| && items[i] == e;
    FindIs(items, e.key, i);
  }

  lemma PutHolds(s: Store, n: Entry, c: Config)
    requires Distinct(s.items)
    ensures n in Put(s, n, c).items
  {
    hide Put;
    var m := PutInPlace(s, n, c);
    var i, r := Find(s.items, n.key), Put(s, n, c).items;
    assert r[if m <= i < |s.items| then i - m else |r| - 1] == n;
  }

  /** After an action the cache holds what the action has set, and what it held and does not lose. */
  lemma StepPresence(s: Cached, log: Log, a: Action, c: Config, e: Entry)
    requires Inv(s, log, c)
    ensures e in Step(s, a, c).0.store.items <==>
      (a.Set? && e == NewEntry(a, c)) || (e in s.store.items && !Loses(s, a, c, e))
  {
    hide Put, Total, Without, Recent, Drift, SizeOk, PushedOut, Agrees, IndexOk, NewEntry;
    var items := s.store.items;
    RecentIsDistinct(items, log.used, log.tick);
    if e in items { FindsEntry(items, e); }
    match a
    case Get(key, now) => FetchPresence(s.store, key, now, e);
    case Exists(key, now) => WithoutMembers(items, {key});
    case Set(key, _, _, _, _) =>
      var n := NewEntry(a, c);
      EntryKey(a, c);
      PutMembers(s.store, n, c);
      PutHolds(s.store, n, c);
      if e in items && e.key != key { PushedOutMeans(s.store, n, c, e); }
    case Delete(key, now) =>
      DeleteIsDrop(s, log, c, key, now);
      WithoutMembers(items, {key});
    case InvalidateTag(tag) => WithoutMembers(items, Under(s.index, tag));
    case Clear =>
  }

  lemma FetchPresence(s: Store, key: string, now: real, e: Entry)
    requires Distinct(s.items)
    ensures e in Fetch(s, key, now).0.items <==> e in s.items && !(key == e.key && Expired(e, now))
    ensures Fetch(s, key, now).1 == Some(e) <==> e in s.items && key == e.key && !Expired(e, now)
  {
    hide Total, Without;
    if e in s.items { FindsEntry(s.items, e); }
    WithoutMembers(s.items, {key});
  }

  ghost predicate NeverLost(acts: seq<Action>, j: nat, k: nat, c: Config, e: Entry)
    requires j <= k <= |acts|
  {
    forall i :: j < i < k ==> !Loses(After(acts, i, c).0, acts[i], c, e)
  }

  /** What was set last for a key is in the cache as long as no action has lost it. */
  lemma {:induction false} HeldMeans(acts: seq<Action>, j: nat, k: nat, c: Config)
    requires j < k <= |acts| && acts[j].Set? && c.maxMemory >= 0
    requires forall i :: j < i < k && acts[i].Set? ==> acts[i].key != acts[j].key
    ensures NewEntry(acts[j], c) in After(acts, k, c).0.store.items <==> NeverLost(acts, j, k, c, NewEntry(acts[j], c))
    decreases k
  {
    hide Step, Loses, Inv, After, NewEntry;
    var e := NewEntry(acts[j], c);
    RunInv(acts, k - 1, c);
    AfterStep(acts, k - 1, c);
    StepPresence(After(acts, k - 1, c).0, After(acts, k - 1, c).1, acts[k - 1], c, e);
    if j < k - 1 {
      HeldMeans(acts, j, k - 1, c);
      EntryKey(acts[j], c);
      if acts[k - 1].Set? { EntryKey(acts[k - 1], c); }
    }
  }

  /** Action j set the key that a get asks for, the entry has not expired, and no action since has lost it. */
  ghost predicate Serves(acts: seq<Action>, j: nat, k: nat, c: Config)
    requires j < k < |acts| && acts[k].Get?
  {
    && acts[j].Set? && acts[j].key == acts[k].key && Alive(acts[j], c, acts[k].now)
    && NeverLost(acts, j, k, c, NewEntry(acts[j], c))
  }

  /** A get hits exactly when some set still serves it, and then finds the value that was set. */
  lemma HitIff(acts: seq<Action>, k: nat, c: Config)
    requires k < |acts| && acts[k].Get? && c.maxMemory >= 0
    ensures var answer := Step(After(acts, k, c).0, acts[k], c).1;
      && (answer.Hit? <==> exists j :: 0 <= j < k && Serves(acts, j, k, c))
      && (forall j :: 0 <= j < k && Serves(acts, j, k, c) ==> answer.Hit? && answer.entry.value == acts[j].value)
  {
    hide After, NewEntry, Fetch, Recent, SizeOk, IndexOk, Agrees, Loses;
    var s, log := After(acts, k, c).0, After(acts, k, c).1;
    RunInv(acts, k, c);
    RecentIsDistinct(s.store.items, log.used, log.tick);
    if Step(s, acts[k], c).1.Hit? {
      var e := Step(s, acts[k], c).1.entry;
      var j := HitIsLatest(acts, k, c);
      NotSetAgain(acts, j, k, c);
      FetchPresence(s.store, acts[k].key, acts[k].now, e);
      HeldMeans(acts, j, k, c);
      assert Serves(acts, j, k, c);
    }
    forall j | 0 <= j < k && Serves(acts, j, k, c)
      ensures Step(s, acts[k], c).1.Hit? && Step(s, acts[k], c).1.entry.value == acts[j].value
    {
      var e := NewEntry(acts[j], c);
      EntryMeans(acts[j], c, acts[k].now);
      ServesLast(acts, j, k, c);
      HeldMeans(acts, j, k, c);
      FetchPresence(s.store, acts[k].key, acts[k].now, e);
    }
  }

  lemma NotSetAgain(acts: seq<Action>, j: nat, k: nat, c: Config)
    requires j < k <= |acts| && acts[j].Set? && forall i :: j < i < k ==> !Ends(acts[i], NewEntry(acts[j], c))
    ensures forall i :: j < i < k && acts[i].Set? ==> acts[i].key != acts[j].key
  {
    forall i | j < i < k && acts[i].Set? ensures acts[i].key != acts[j].key {
      assert !Ends(acts[i], NewEntry(acts[j], c));
    }
  }

  lemma ServesLast(acts: seq<Action>, j: nat, k: nat, c: Config)
    requires j < k < |acts| && acts[k].Get? && Serves(acts, j, k, c)
    ensures forall i :: j < i < k && acts[i].Set? ==> acts[i].key != acts[j].key
  {
    hide PushedOut, After;
    forall i | j < i < k && acts[i].Set? ensures acts[i].key != acts[j].key {
      assert !Loses(After(acts, i, c).0, acts[i], c, NewEntry(acts[j], c));
    }
  }

  /** A set that pushes e out, or an invalidation of a tag that lists its key. */
  predicate Evicts(s: Cached, a: Action, c: Config, e: Entry) {
    match a
    case Set(_, _, _, _, _) => PushedOut(s.store, NewEntry(a, c), c, e)
    case InvalidateTag(tag) => e.key in Under(s.index, tag)
    case _ => false
  }

  /** When a key was set, has not been ended and has not expired, a get still misses it exactly when a set in
      between has pushed its entry out, or the invalidation of a tag that it does not carry has removed it. */
  lemma MissIff(acts: seq<Action>, j: nat, k: nat, c: Config)
    requires j < k < |acts| && acts[j].Set? && acts[k].Get? && acts[k].key == acts[j].key && c.maxMemory >= 0
    requires forall i :: j < i < k ==> !Ends(acts[i], NewEntry(acts[j], c))
    requires forall i :: j < i < k && (acts[i].Get? || acts[i].Exists?) ==> acts[i].now <= acts[k].now
    requires Alive(acts[j], c, acts[k].now)
    ensures Step(After(acts, k, c).0, acts[k], c).1.Miss? <==>
      exists i :: j < i < k && Evicts(After(acts, i, c).0, acts[i], c, NewEntry(acts[j], c))
  {
    hide After, NewEntry, Fetch, Recent, SizeOk, IndexOk, Agrees, PushedOut;
    var s, log, e := After(acts, k, c).0, After(acts, k, c).1, NewEntry(acts[j], c);
    RunInv(acts, k, c);
    RecentIsDistinct(s.store.items, log.used, log.tick);
    EntryKey(acts[j], c);
    EntryMeans(acts[j], c, acts[k].now);
    NotSetAgain(acts, j, k, c);
    HeldMeans(acts, j, k, c);
    FetchPresence(s.store, acts[k].key, acts[k].now, e);
    if Step(s, acts[k], c).1.Hit? {
      var h := HitIsLatest(acts, k, c);
      NotSetAgain(acts, h, k, c);
      assert h == j;
    }
    forall i | j < i < k
      ensures Loses(After(acts, i, c).0, acts[i], c, e) <==> Evicts(After(acts, i, c).0, acts[i], c, e)
    {
      assert !Ends(acts[i], e);
    }
  }

  /** In a full store every put of another key pushes the oldest entry out, also one that overwrites a stored key
      and so needs no room. */
  lemma FullStoreEvicts(s: Store, n: Entry, c: Config)
    requires Distinct(s.items) && s.items != [] && |s.items| >= c.maxSize && n.key != s.items[0].key
    ensures PushedOut(s, n, c, s.items[0]) && s.items[0] !in Put(s, n, c).items
  {
    hide Put;
    FindIs(s.items, s.items[0].key, 0);
    assert s.items[0] in s.items;
    PushedOutMeans(s, n, c, s.items[0]);
  }

  /** A cache of size two: overwriting b evicts a, although a and b both fit. */
  lemma OverwriteEvicts() returns (acts: seq<Action>, c: Config)
    ensures c.maxSize == 2 && acts == [
      Set("a", "u", None, [], 0.0), Set("b", "v", None, [], 0.0), Set("b", "w", None, [], 0.0), Get("a", 0.0)]
    ensures Step(After(acts, 2, c).0, Get("a", 0.0), c).1.Hit?
    ensures Step(After(acts, 3, c).0, acts[3], c).1.Miss?
  {
    c := Config(2, 100, (v: string) => 1, None);
    acts := [Set("a", "u", None, [], 0.0), Set("b", "v", None, [], 0.0), Set("b", "w", None, [], 0.0), Get("a", 0.0)];
    var e, f, g := NewEntry(acts[0], c), NewEntry(acts[1], c), NewEntry(acts[2], c);
    ThreePuts(e, f, g, c);
    hide Put, Find, Fetch, Tagged;
    FetchAnswers(Store([e, f], 2), "a", 0.0);
    FetchAnswers(Store([g], 1), "a", 0.0);
    assert After(acts, 0, c).0 == Cached(Store([], 0), map[]);
    assert After(acts, 1, c).0 == Step(After(acts, 0, c).0, acts[0], c).0;
    assert After(acts, 2, c).0 == Step(After(acts, 1, c).0, acts[1], c).0;
    assert After(acts, 3, c).0 == Step(After(acts, 2, c).0, acts[2], c).0;
  }

  lemma FetchAnswers(s: Store, key: string, now: real)
    ensures var i := Find(s.items, key);
      Fetch(s, key, now).1.Some? <==> i < |s.items| && !Expired(s.items[i], now)
  {}

  lemma ThreePuts(e: Entry, f: Entry, g: Entry, c: Config)
    requires e.key != f.key == g.key && e.size == f.size == g.size == 1 && c.maxSize == 2 && c.maxMemory == 100
    ensures Put(Store([], 0), e, c) == Store([e], 1)
    ensures Put(Store([e], 1), f, c) == Store([e, f], 2)
    ensures Put(Store([e, f], 2), g, c) == Store([g], 1)
    ensures Find([e, f], e.key) == 0 && Find([g], e.key) == 1
  {
    FindIs([e], f.key, 1);
    FindIs([e, f], g.key, 1);
    FindIs([e, f], e.key, 0);
    FindIs([f], g.key, 0);
    FindIs([g], e.key, 1);
    assert [e, f][1..] == [f];
    assert Shrink(Store([e, f], 1), 1, c) == Store([f], 0);
  }

  lemma SizeBounded(acts: seq<Action>, k: nat, c: Config)
    requires k <= |acts| && c.maxMemory >= 0
    ensures var s := After(acts, k, c).0.store;
      && |s.items| <= (if c.maxSize > 1 then c.maxSize else 1)
      && (s.memory <= c.maxMemory || |s.items| == 1)
      && s.memory <= Total(s.items)
  {
    RunInv(acts, k, c);
  }

  /** A set takes the size of an entry off the account twice. */
  predicate CountsTwice(s: Store, a: Action, c: Config) {
    a.Set? && EvictsItself(s, NewEntry(a, c), c) && s.items[Find(s.items, a.key)].size > 0
  }

  /** The account is exact if and only if no set has counted twice since the cache was last cleared. */
  lemma {:induction false} AccountExact(acts: seq<Action>, k: nat, c: Config, from: nat)
    requires from <= k <= |acts| && c.maxMemory >= 0
    requires from == 0 || acts[from - 1].Clear?
    requires forall i :: from <= i < k ==> !acts[i].Clear?
    ensures After(acts, k, c).0.store.memory == Total(After(acts, k, c).0.store.items)
      <==> forall i :: from <= i < k ==> !CountsTwice(After(acts, i, c).0.store, acts[i], c)
    decreases k
  {
    hide Step, EvictsItself, LogStep, Drift, CountsTwice, NewEntry, Find, Total;
    DriftMeans(After(acts, k, c).0.store);
    if k == 0 {
      EmptyDrift();
    } else {
      RunInv(acts, k - 1, c);
      StepDrift(After(acts, k - 1, c).0, After(acts, k - 1, c).1, acts[k - 1], c);
      if from < k {
        StepCounts(After(acts, k - 1, c).0, After(acts, k - 1, c).1, acts[k - 1], c);
        AccountExact(acts, k - 1, c, from);
        DriftMeans(After(acts, k - 1, c).0.store);
      }
    }
  }

  lemma StepCounts(s: Cached, log: Log, a: Action, c: Config)
    requires Inv(s, log, c) && !a.Clear?
    ensures 0 <= Drift(s.store) <= Drift(Step(s, a, c).0.store)
    ensures CountsTwice(s.store, a, c) <==> Drift(s.store) < Drift(Step(s, a, c).0.store)
  {
    hide Step, EvictsItself, Drift;
    StepDrift(s, log, a, c);
    if a.Set? { EvictsStored(s.store, NewEntry(a, c), c); }
  }

  lemma DriftMeans(s: Store)
    ensures Drift(s) == Total(s.items) - s.memory
  {}

  /** How far the account is off changes only when a set evicts the entry it overwrites. */
  lemma StepDrift(s: Cached, log: Log, a: Action, c: Config)
    requires Inv(s, log, c)
    ensures Drift(Step(s, a, c).0.store) ==
      if a.Clear? then 0
      else if a.Set? && EvictsItself(s.store, NewEntry(a, c), c)
        then Drift(s.store) + s.store.items[Find(s.store.items, a.key)].size
      else Drift(s.store)
  {
    hide Put, EvictsItself, Total, Without, Find, Recent, Drift;
    RecentIsDistinct(s.store.items, log.used, log.tick);
    match a
    case Get(key, now) => FetchDrift(s.store, key, now);
    case Exists(key, now) => DropDrift(s.store, {key});
    case Set(_, _, _, _, _) => PutDrift(s.store, NewEntry(a, c), c);
    case Delete(key, now) => DeleteIsDrop(s, log, c, key, now); DropDrift(s.store, {key});
    case InvalidateTag(tag) => DropDrift(s.store, Under(s.index, tag));
    case Clear => EmptyDrift();
  }

  lemma EmptyDrift()
    ensures Drift(Store([], 0)) == 0
  {}

  lemma FetchDrift(s: Store, key: string, now: real)
    requires Distinct(s.items)
    ensures Drift(Fetch(s, key, now).0) == Drift(s)
  {
    hide Drift, Total, Without;
    var i := Find(s.items, key);
    if i < |s.items| {
      DropDrift(s, {key});
      MoveDrift(s, i);
    }
  }

  /** Overwriting the only entry of a full store counts its size off twice. */
  lemma AccountDrifts() returns (acts: seq<Action>, c: Config)
    ensures c.maxSize == 1 && |acts| == 2 && acts[0].Set? && acts[1].Set? && acts[0].key == acts[1].key
    ensures After(acts, 2, c).0.store == Store([NewEntry(acts[1], c)], -3)
    ensures Total(After(acts, 2, c).0.store.items) == 4
  {
    c := Config(1, 100, (v: string) => if v == "long" then 7 else 4, None);
    acts := [Set("k", "long", None, [], 0.0), Set("k", "v", None, [], 0.0)];
    var e, f := NewEntry(acts[0], c), NewEntry(acts[1], c);
    OverwritesItself(e, f, c);
    hide Put;
    assert After(acts, 0, c).0 == Cached(Store([], 0), map[]);
    assert After(acts, 1, c).0 == Step(After(acts, 0, c).0, acts[0], c).0;
    assert After(acts, 2, c).0 == Step(After(acts, 1, c).0, acts[1], c).0;
    Single(f, {});
  }

  /** With room for one entry only, overwriting the key evicts its old entry. */
  lemma OverwritesItself(e: Entry, f: Entry, c: Config)
    requires e.key == f.key && e.size == 7 && f.size == 4 && c.maxSize == 1 && c.maxMemory == 100
    ensures Put(Store([], 0), e, c) == Store([e], 7)
    ensures Put(Store([e], 7), f, c) == Store([f], -3)
  {
    assert Find([e], f.key) == 0;
    assert Shrink(Store([e], 0), 4, c) == Store([], -7);
  }

  /** Once a tag is invalidated, nothing in the cache carries it, until it is set again. */
  lemma TagGone(acts: seq<Action>, k: nat, c: Config)
    requires k < |acts| && acts[k].InvalidateTag? && c.maxMemory >= 0
    ensures var s, s' := After(acts, k, c).0, After(acts, k + 1, c).0;
      && (forall e :: e in s'.store.items ==> acts[k].tag !in e.tags)
      && (forall e :: e in s.store.items ==> (e in s'.store.items <==> e.key !in Under(s.index, acts[k].tag)))
      && Step(s, acts[k], c).1 == Removed(|s.store.items| - |s'.store.items|)
  {
    RunInv(acts, k, c);
    hide Recent, SizeOk, Agrees, After, Remember, Step;
    AfterStep(acts, k, c);
    StepTagGone(After(acts, k, c).0, acts[k].tag, c);
  }

  lemma StepTagGone(s: Cached, tag: string, c: Config)
    requires IndexOk(s.store.items, s.index)
    ensures var (s', answer) := Step(s, InvalidateTag(tag), c);
      && (forall e :: e in s'.store.items ==> tag !in e.tags)
      && (forall e :: e in s.store.items ==> (e in s'.store.items <==> e.key !in Under(s.index, tag)))
      && answer == Removed(|s.store.items| - |s'.store.items|)
  {
    hide Without, Total;
    WithoutMembers(s.store.items, Under(s.index, tag));
  }

  lemma AfterStep(acts: seq<Action>, k: nat, c: Config)
    requires k < |acts|
    ensures After(acts, k + 1, c).0 == Step(After(acts, k, c).0, acts[k], c).0
  {}

  /** Something stored under the key has not expired. */
  ghost predicate Live(s: Cached, key: string, now: real) {
    exists e :: e in s.store.items && e.key == key && !Expired(e, now)
  }

  /** What the other operations answer: whether the key is live, and how many entries went. */
  lemma Answers(s: Cached, log: Log, a: Action, c: Config)
    requires Inv(s, log, c)
    ensures var (s', answer) := Step(s, a, c);
      && (a.Set? ==> answer == Done(true))
      && (a.Exists? || a.Delete? ==>
        (answer == Done(true) || answer == Done(false)) && (answer == Done(true) <==> Live(s, a.key, a.now)))
      && (a.InvalidateTag? || a.Clear? ==> answer == Removed(|s.store.items| - |s'.store.items|))
      && (a.Clear? ==> s'.store.items == [] && s'.index == map[])
      && (a.Get? ==> (answer.Hit? <==> Live(s, a.key, a.now)) && (answer.Hit? || answer == Miss))
  {
    hide Recent, Put, Without, Total, Tagged, Drift;
    RecentIsDistinct(s.store.items, log.used, log.tick);
    if a.Get? || a.Exists? || a.Delete? { LiveIsFound(s, a.key, a.now); }
  }

  lemma LiveIsFound(s: Cached, key: string, now: real)
    requires Distinct(s.store.items)
    ensures var items, i := s.store.items, Find(s.store.items, key);
      Live(s, key, now) <==> i < |items| && !Expired(items[i], now)
  {
    var items, i := s.store.items, Find(s.store.items, key);
    if i < |items| { assert items[i] in items; }
    if e :| e in items && e.key == key && !Expired(e, now) { FindsEntry(items, e); }
  }

  // ----- which keys a tag lists

  predicate ListsKey(a: Action, tag: string, key: string) { a.Set? && a.key == key && tag in a.tags }

  /** A clear, an invalidation of the tag, or a delete that finds the key carrying the tag. */
  predicate UnlistsKey(s: Cached, a: Action, tag: string, key: string) {
    match a
    case Clear => true
    case InvalidateTag(t) => t == tag
    case Delete(k, now) => k == key && var found := Fetch(s.store, k, now).1; found.Some? && tag in found.value.tags
    case _ => false
  }

  lemma StepListing(s: Cached, a: Action, c: Config, tag: string, key: string)
    ensures key in Under(Step(s, a, c).0.index, tag) <==>
      ListsKey(a, tag, key) || (key in Under(s.index, tag) && !UnlistsKey(s, a, tag, key))
  {
    hide Fetch, Put, Drop, Find;
  }

  /** Action j set the key with the tag, and nothing after it and before k has taken it off the list. */
  predicate ListedBy(acts: seq<Action>, j: nat, k: nat, c: Config, tag: string, key: string)
    requires j < k <= |acts|
  {
    ListsKey(acts[j], tag, key) && forall i :: j < i < k ==> !UnlistsKey(After(acts, i, c).0, acts[i], tag, key)
  }

  ghost predicate Listed(acts: seq<Action>, k: nat, c: Config, tag: string, key: string)
    requires k <= |acts|
  {
    exists j :: 0 <= j < k && ListedBy(acts, j, k, c, tag, key)
  }

  lemma ListedNext(acts: seq<Action>, k: nat, c: Config, tag: string, key: string)
    requires k < |acts|
    ensures Listed(acts, k + 1, c, tag, key) <==>
      ListsKey(acts[k], tag, key)
        || (Listed(acts, k, c, tag, key) && !UnlistsKey(After(acts, k, c).0, acts[k], tag, key))
  {
    hide UnlistsKey, ListsKey, After;
    var n := k + 1;
    if ListsKey(acts[k], tag, key) { assert ListedBy(acts, k, n, c, tag, key); }
    if j :| 0 <= j < k && ListedBy(acts, j, k, c, tag, key) {
      if !UnlistsKey(After(acts, k, c).0, acts[k], tag, key) { assert ListedBy(acts, j, n, c, tag, key); }
    }
    if j :| 0 <= j < n && ListedBy(acts, j, n, c, tag, key) {
      if j < k { assert ListedBy(acts, j, k, c, tag, key); }
    }
  }

  /** A tag lists exactly the keys that were set with it and not taken off its list since. */
  lemma {:induction false} ListedMeans(acts: seq<Action>, k: nat, c: Config, tag: string, key: string)
    requires k <= |acts|
    ensures key in Under(After(acts, k, c).0.index, tag) <==> Listed(acts, k, c, tag, key)
  {
    hide Step, After, Listed, UnlistsKey, ListsKey;
    if k > 0 {
      ListedMeans(acts, k - 1, c, tag, key);
      AfterStep(acts, k - 1, c);
      StepListing(After(acts, k - 1, c).0, acts[k - 1], c, tag, key);
      ListedNext(acts, k - 1, c, tag, key);
    } else {
      NothingListed(acts, c, tag, key);
    }
  }

  lemma NothingListed(acts: seq<Action>, c: Config, tag: string, key: string)
    ensures key !in Under(After(acts, 0, c).0.index, tag) && !Listed(acts, 0, c, tag, key)
  {}

  /** Invalidating a tag removes an entry exactly when some set gave its key the tag and nothing has taken the
      key off the list since, though a later set of the key without the tag may have stored the entry. */
  lemma InvalidationRemoves(acts: seq<Action>, k: nat, c: Config, e: Entry)
    requires k < |acts| && acts[k].InvalidateTag? && c.maxMemory >= 0 && e in After(acts, k, c).0.store.items
    ensures e !in After(acts, k + 1, c).0.store.items <==> Listed(acts, k, c, acts[k].tag, e.key)
  {
    hide After, Step, Listed;
    TagGone(acts, k, c);
    ListedMeans(acts, k, c, acts[k].tag, e.key);
  }

  /** A key set with a tag and then without it: invalidating the tag removes the entry that lacks it. */
  lemma StaleTagRemoves() returns (acts: seq<Action>, c: Config)
    ensures acts == [Set("k", "v", None, ["t"], 0.0), Set("k", "w", None, [], 0.0), InvalidateTag("t")]
    ensures After(acts, 2, c).0.store.items == [NewEntry(acts[1], c)] && "t" !in NewEntry(acts[1], c).tags
    ensures After(acts, 3, c).0.store.items == []
  {
    c := Config(10, 100, (v: string) => 1, None);
    acts := [Set("k", "v", None, ["t"], 0.0), Set("k", "w", None, [], 0.0), InvalidateTag("t")];
    var e, f := NewEntry(acts[0], c), NewEntry(acts[1], c);
    TwoSets(acts, c, e, f);
    hide After, Step, Put, Shrink;
    assert acts[0].tags[0] == "t";
    assert ListedBy(acts, 0, 2, c, "t", "k");
    ListedMeans(acts, 2, c, "t", "k");
    AfterStep(acts, 2, c);
    InvalidateStep(After(acts, 2, c).0, "t", c);
    Single(f, Under(After(acts, 2, c).0.index, "t"));
  }

  lemma InvalidateStep(s: Cached, tag: string, c: Config)
    ensures Step(s, InvalidateTag(tag), c).0.store.items == Without(s.store.items, Under(s.index, tag))
  {}

  /** Setting a key twice where there is room stores the second entry. */
  lemma TwoSets(acts: seq<Action>, c: Config, e: Entry, f: Entry)
    requires |acts| >= 2 && acts[0].Set? && acts[1].Set? && e == NewEntry(acts[0], c) && f == NewEntry(acts[1], c)
    requires e.key == f.key && e.size == f.size == 1 && c.maxSize == 10 && c.maxMemory == 100
    ensures After(acts, 2, c).0.store == Store([f], 1)
  {
    assert After(acts, 0, c).0 == Cached(Store([], 0), map[]);
    assert Put(Store([], 0), e, c) == Store([e], 1);
    assert After(acts, 1, c).0.store == Store([e], 1);
    assert Find([e], f.key) == 0;
    assert Put(Store([e], 1), f, c) == Store([f], 1);
  }

  /** What a set evicts was used less recently than everything that stays. */
  lemma LeastRecentlyUsedGoes(s: Cached, log: Log, a: Action, c: Config, e: Entry, f: Entry)
    requires Inv(s, log, c) && a.Set? && e in s.store.items && f in s.store.items
    requires e.key != a.key && e !in Step(s, a, c).0.store.items
    requires f.key != a.key && f in Step(s, a, c).0.store.items
    ensures log.used[e.key] < log.used[f.key]
  {
    hide Put, EvictsItself, Total, Find, Recent, Drift, SizeOk, IndexOk, Agrees;
    var items, n := s.store.items, NewEntry(a, c);
    RecentIsDistinct(items, log.used, log.tick);
    var m := PutInPlace(s.store, n, c);
    var i :| 0 <= i < |items| && items[i] == e;
    var j :| 0 <= j < |items| && items[j] == f;
    Survives(items, m, n, i, Put(s.store, n, c).items);
    Survives(items, m, n, j, Put(s.store, n, c).items);
    RecentAt(items, log.used, log.tick, i, j);
  }

  lemma Survives(items: seq<Entry>, m: nat, n: Entry, i: nat, items': seq<Entry>)
    requires Distinct(items) && m <= |items| && i < |items| && items[i].key != n.key
    requires var p := Find(items, n.key);
      items' == if m <= p < |items| then items[m..][p - m := n] else items[m..] + [n]
    ensures items[i] in items' <==> m <= i
  {
    hide Find;
    if m <= i { assert items'[i - m] == items[i]; }
    if items[i] in items' {
      var q :| 0 <= q < |items'| && items'[q] == items[i];
      if q < |items| - m { assert items'[q] == n || items'[q] == items[m + q]; }
    }
  }

  // ----- the store and the cache as objects

  lemma CutDistinct(items: seq<Entry>, i: nat)
    requires Distinct(items) && i < |items|
    ensures Distinct(items[..i] + items[i + 1..]) && Distinct(items[..i] + items[i + 1..] + [items[i]])
  {
    var cut := items[..i] + items[i + 1..];
    assert forall j :: 0 <= j < |cut| ==> cut[j] == items[if j < i then j else j + 1];
  }

  lemma FetchMeans(s: Store, key: string, now: real)
    requires Distinct(s.items)
    ensures Distinct(Fetch(s, key, now).0.items)
    ensures var i := Find(s.items, key);
      Fetch(s, key, now) ==
        if i == |s.items| then (s, None)
        else if Expired(s.items[i], now) then (Drop(s, {key}), None)
        else (Store(s.items[..i] + s.items[i + 1..] + [s.items[i]], s.memory), Some(s.items[i]))
  {
    hide Total, Without, Find, Distinct;
    var i := Find(s.items, key);
    if i < |s.items| {
      WithoutOne(s.items, i);
      CutDistinct(s.items, i);
    }
  }

  lemma DropMeans(s: Store, key: string)
    requires Distinct(s.items)
    ensures var i := Find(s.items, key);
      && (i < |s.items| <==> Has(s.items, key))
      && Distinct(Drop(s, {key}).items)
      && Drop(s, {key}) ==
        if i == |s.items| then s else Store(s.items[..i] + s.items[i + 1..], s.memory - s.items[i].size)
  {
    hide Total, Without, Find, Distinct;
    var i := Find(s.items, key);
    if i == |s.items| {
      WithoutNone(s.items, {key});
    } else {
      WithoutOne(s.items, i);
      CutDistinct(s.items, i);
    }
  }

  class MemoryCacheBackend {
    const config: Config
    var items: seq<Entry>
    var memory: int
    var hits: nat
    var misses: nat

    function Value(): Store reads this { Store(items, memory) }

    ghost predicate Valid() reads this { Distinct(items) }

    constructor (config: Config)
      ensures Valid() && Value() == Store([], 0) && this.config == config && hits == misses == 0
    {
      this.config, items, memory, hits, misses := config, [], 0, 0, 0;
    }

    method Evict(key: string) returns (ok: bool)
      requires Valid()
      modifies this
      ensures Valid() && Value() == Drop(old(Value()), {key}) && hits == old(hits) && misses == old(misses)
      ensures ok <==> Has(old(items), key)
      ensures |items| == |old(items)| - if ok then 1 else 0
    {
      hide Find, Total, Without;
      var i := Find(items, key);
      DropMeans(Value(), key);
      if i == |items| { return false; }
      memory := memory - items[i].size;
      items := items[..i] + items[i + 1..];
      ok := true;
    }

    method EvictLru() returns (ok: bool)
      requires Valid()
      modifies this
      ensures Valid() && hits == old(hits) && misses == old(misses) && (ok <==> old(items) != [])
      ensures ok ==> Value() == Store(old(items)[1..], old(memory) - old(items)[0].size)
      ensures !ok ==> Value() == old(Value())
    {
      if items == [] { return false; }
      WithoutOne(items, 0);
      assert items[..0] + items[0 + 1..] == items[1..];
      ok := Evict(items[0].key);
    }

    method Get(key: string, now: real) returns (found: Option<Entry>)
      requires Valid()
      modifies this
      ensures Valid() && (Value(), found) == Fetch(old(Value()), key, now)
      ensures hits == old(hits) + (if found.Some? then 1 else 0) && misses == old(misses) + if found.None? then 1 else 0
    {
      hide Find, Fetch, Distinct;
      FetchMeans(Value(), key, now);
      var i := Find(items, key);
      if i == |items| {
        misses := misses + 1;
        return None;
      }
      var e := items[i];
      if Expired(e, now) {
        var _ := Evict(key);
        misses := misses + 1;
        return None;
      }
      items := items[..i] + items[i + 1..] + [e];
      hits := hits + 1;
      found := Some(e);
    }

    method Set(e: Entry)
      requires Valid()
      modifies this
      ensures Valid() && Value() == Put(old(Value()), e, config) && hits == old(hits) && misses == old(misses)
    {
      hide Find, Distinct, Shrink;
      var i := Find(items, e.key);
      if i < |items| { memory := memory - items[i].size; }
      MakeRoom(e.size);
      var j := Find(items, e.key);
      PutDistinct(items, e);
      items := if j < |items| then items[j := e] else items + [e];
      memory := memory + e.size;
    }

    method MakeRoom(size: nat)
      requires Valid()
      modifies this
      ensures Valid() && Value() == Shrink(old(Value()), size, config) && hits == old(hits) && misses == old(misses)
    {
      hide Distinct;
      while |items| >= config.maxSize || memory + size > config.maxMemory
        invariant Valid() && hits == old(hits) && misses == old(misses)
        invariant Shrink(Value(), size, config) == Shrink(old(Value()), size, config)
        decreases |items|
      {
        var ok := EvictLru();
        if !ok { break; }
      }
    }

    method Delete(key: string) returns (ok: bool)
      requires Valid()
      modifies this
      ensures Valid() && Value() == Drop(old(Value()), {key}) && hits == old(hits) && misses == old(misses)
      ensures ok <==> Has(old(items), key)
      ensures |items| == |old(items)| - if ok then 1 else 0
    {
      ok := Evict(key);
    }

    method Exists(key: string, now: real) returns (ok: bool)
      requires Valid()
      modifies this
      ensures Valid() && hits == old(hits) && misses == old(misses)
      ensures var i := Find(old(items), key);
        && (ok <==> i < |old(items)| && !Expired(old(items)[i], now))
        && Value() == if i < |old(items)| && !ok then Drop(old(Value()), {key}) else old(Value())
    {
      var i := Find(items, key);
      if i == |items| { return false; }
      if Expired(items[i], now) {
        var _ := Evict(key);
        return false;
      }
      ok := true;
    }

    method Clear() returns (count: nat)
      modifies this
      ensures Valid() && Value() == Store([], 0) && count == |old(items)| && hits == old(hits) && misses == old(misses)
    {
      count := |items|;
      items, memory := [], 0;
    }
  }

  lemma PutDistinct(items: seq<Entry>, e: Entry)
    requires Distinct(items)
    ensures var j := Find(items, e.key); Distinct(if j < |items| then items[j := e] else items + [e])
  {}

  class Cache {
    const backend: MemoryCacheBackend
    const defaultTtl: Option<real>
    var tagIndex: Index

    function Value(): Cached reads this, backend { Cached(backend.Value(), tagIndex) }

    ghost predicate Valid() reads this, backend { backend.Valid() && backend.config.defaultTtl == defaultTtl }

    constructor (backend: MemoryCacheBackend)
      requires backend.Valid()
      ensures Valid() && this.backend == backend && Value() == Cached(backend.Value(), map[])
    {
      this.backend, defaultTtl, tagIndex := backend, backend.config.defaultTtl, map[];
    }

    /** The value found, or the caller's default. */
    method Get(key: string, default: string, now: real) returns (value: string)
      requires Valid()
      modifies backend
      ensures Valid() && Value() == Step(old(Value()), Action.Get(key, now), backend.config).0
      ensures var answer := Step(old(Value()), Action.Get(key, now), backend.config).1;
        value == if answer.Hit? then answer.entry.value else default
    {
      var found := backend.Get(key, now);
      value := if found.Some? then found.value.value else default;
    }

    method Set(key: string, value: string, ttl: Option<real>, tags: seq<string>, now: real) returns (answer: Answer)
      requires Valid()
      modifies this, backend
      ensures Valid() && (Value(), answer) == Step(old(Value()), Action.Set(key, value, ttl, tags, now), backend.config)
    {
      hide Put, Distinct, Tagged;
      var life := if ttl.Some? then ttl else defaultTtl;
      var expires := if life.Some? && life.value != 0.0 then Some(now + life.value) else None;
      backend.Set(Entry(key, value, backend.config.sizeOf(value), expires, tags));
      AddTags(key, tags);
      answer := Done(true);
    }

    method AddTags(key: string, tags: seq<string>)
      modifies this
      ensures tagIndex == Tagged(old(tagIndex), tags, key)
    {
      hide Tagged;
      TagNone(tagIndex, key);
      assert tags[..0] == [];
      for n := 0 to |tags|
        invariant tagIndex == Tagged(old(tagIndex), tags[..n], key)
      {
        var tag := tags[n];
        TagOneMore(old(tagIndex), tags, n, key);
        if tag !in tagIndex { tagIndex := tagIndex[tag := {}]; }
        tagIndex := tagIndex[tag := tagIndex[tag] + {key}];
      }
      assert tags[..|tags|] == tags;
    }

    method Delete(key: string, now: real) returns (answer: Answer)
      requires Valid()
      modifies this, backend
      ensures Valid() && (Value(), answer) == Step(old(Value()), Action.Delete(key, now), backend.config)
    {
      hide Distinct;
      var found := backend.Get(key, now);
      ghost var store := backend.Value();
      FetchHas(old(backend.Value()), key, now);
      if found.Some? {
        var tags := found.value.tags;
        TagNone(tagIndex, key);
        assert tags[..0] == [];
        for n := 0 to |tags|
          invariant Valid() && backend.Value() == store && tagIndex == Untagged(old(tagIndex), tags[..n], key)
        {
          UntagOneMore(old(tagIndex), tags, n, key);
          if tags[n] in tagIndex { tagIndex := tagIndex[tags[n] := tagIndex[tags[n]] - {key}]; }
        }
        assert tags[..|tags|] == tags;
      }
      var ok := backend.Delete(key);
      answer := Done(ok);
    }

    method Exists(key: string, now: real) returns (answer: Answer)
      requires Valid()
      modifies backend
      ensures Valid() && (Value(), answer) == Step(old(Value()), Action.Exists(key, now), backend.config)
    {
      var ok := backend.Exists(key, now);
      answer := Done(ok);
    }

    method InvalidateTag(tag: string) returns (answer: Answer)
      requires Valid()
      modifies this, backend
      ensures Valid() && (Value(), answer) == Step(old(Value()), Action.InvalidateTag(tag), backend.config)
    {
      hide Distinct;
      WithoutNone(backend.items, {});
      if tag !in tagIndex {
        assert tagIndex == tagIndex - {tag};
        return Removed(0);
      }
      var keys, count := tagIndex[tag], 0;
      ghost var done: set<string> := {};
      while keys != {}
        invariant Valid() && tagIndex == old(tagIndex) && done + keys == tagIndex[tag]
        invariant backend.Value() == Drop(old(backend.Value()), done)
        invariant count == |old(backend.items)| - |backend.items|
      {
        var key :| key in keys;
        DropTwice(old(backend.Value()), done, {key});
        var ok := backend.Delete(key);
        if ok { count := count + 1; }
        keys, done := keys - {key}, done + {key};
      }
      tagIndex := tagIndex - {tag};
      answer := Removed(count);
    }

    method Clear() returns (answer: Answer)
      requires Valid()
      modifies this, backend
      ensures Valid() && (Value(), answer) == Step(old(Value()), Action.Clear, backend.config)
    {
      tagIndex := map[];
      var count := backend.Clear();
      answer := Removed(count);
    }
  }

  lemma TagNone(index: Index, key: string)
    ensures Tagged(index, [], key) == index && Untagged(index, [], key) == index
  {
    forall t | t in index ensures Tagged(index, [], key)[t] == index[t] && Untagged(index, [], key)[t] == index[t] {}
    assert Tagged(index, [], key).Keys == index.Keys == Untagged(index, [], key).Keys;
  }

  lemma TagOneMore(index: Index, tags: seq<string>, n: nat, key: string)
    requires n < |tags|
    ensures Tagged(index, tags[..n + 1], key) ==
      Tagged(index, tags[..n], key)[tags[n] := Under(Tagged(index, tags[..n], key), tags[n]) + {key}]
  {
    var some, more := tags[..n], tags[..n + 1];
    assert more == some + [tags[n]];
    var was := Tagged(index, some, key);
    var now := was[tags[n] := Under(was, tags[n]) + {key}];
    assert forall t :: t in more <==> t in some || t == tags[n];
    forall t | t in now.Keys ensures Tagged(index, more, key)[t] == now[t] {}
    assert Tagged(index, more, key).Keys == now.Keys;
  }

  lemma UntagOneMore(index: Index, tags: seq<string>, n: nat, key: string)
    requires n < |tags|
    ensures var was := Untagged(index, tags[..n], key);
      Untagged(index, tags[..n + 1], key) == if tags[n] in was then was[tags[n] := was[tags[n]] - {key}] else was
  {
    var some, more := tags[..n], tags[..n + 1];
    assert more == some + [tags[n]];
    assert forall t :: t in more <==> t in some || t == tags[n];
    var was := Untagged(index, some, key);
    var now := if tags[n] in was then was[tags[n] := was[tags[n]] - {key}] else was;
    forall t | t in now.Keys ensures Untagged(index, more, key)[t] == now[t] {}
    assert Untagged(index, more, key).Keys == now.Keys;
  }

  lemma DropTwice(s: Store, a: set<string>, b: set<string>)
    ensures Drop(Drop(s, a), b) == Drop(s, a + b)
  {
    WithoutTwice(s.items, a, b);
  }

  lemma FetchHas(s: Store, key: string, now: real)
    ensures Fetch(s, key, now).1.Some? <==> Has(Fetch(s, key, now).0.items, key)
  {
    var i := Find(s.items, key);
    WithoutMembers(s.items, {key});
    if i < |s.items| && !Expired(s.items[i], now) {
      var moved := Fetch(s, key, now).0.items;
      assert moved[|moved| - 1].key == key;
    } else {
      HasMember(Fetch(s, key, now).0.items, key);
    }
  }

  lemma HasMember(items: seq<Entry>, key: string)
    ensures Has(items, key) <==> exists e :: e in items && e.key == key
  {
    if e :| e in items && e.key == key {
      var j :| 0 <= j < |items| && items[j] == e;
    }
  }
}
