// The Rust server's response cache (src/cache.rs): a map from keys to values
// beside a priority queue of expiry times, the earliest on top. Time is a
// natural number of clock ticks handed to each operation that looks at the
// clock; a lifetime is a number of ticks.
module RustCache {
  import opened Wrappers

  /** A key and the tick at which its entry expires. */
  datatype ExpiringKey<K> = ExpiringKey(expires: nat, key: K)

  /** `ExpiringKey::is_expired`: the expiry time lies strictly in the past
      (`checked_duration_since` is `None` only for an earlier instant). */
  predicate IsExpired<K>(e: ExpiringKey<K>, now: nat) {
    e.expires < now
  }

  /** How many entries at the head of the queue have expired. */
  function ExpiredPrefix<K>(q: seq<ExpiringKey<K>>, now: nat): (n: nat)
    ensures n <= |q|
    ensures forall i :: 0 <= i < n ==> IsExpired(q[i], now)
    ensures n < |q| ==> !IsExpired(q[n], now)
  {
    if q != [] && IsExpired(q[0], now) then 1 + ExpiredPrefix(q[1..], now) else 0
  }

  /** The queue is kept as the heap's contents in the order it hands them
      out: earliest expiry first. */
  predicate Sorted<K>(q: seq<ExpiringKey<K>>) {
    forall i, j :: 0 <= i < j < |q| ==> q[i].expires <= q[j].expires
  }

  predicate DistinctKeys<K(==)>(q: seq<ExpiringKey<K>>) {
    forall i, j :: 0 <= i < j < |q| ==> q[i].key != q[j].key
  }

  function KeysOf<K>(q: seq<ExpiringKey<K>>): set<K> {
    set i | 0 <= i < |q| :: q[i].key
  }

  lemma KeysOfConcat<K>(a: seq<ExpiringKey<K>>, b: seq<ExpiringKey<K>>)
    ensures KeysOf(a + b) == KeysOf(a) + KeysOf(b)
  {
    forall k | k in KeysOf(a + b) ensures k in KeysOf(a) + KeysOf(b) {
      var i :| 0 <= i < |a + b| && (a + b)[i].key == k;
      if i >= |a| {
        assert b[i - |a|].key == k;
      }
    }
    forall k | k in KeysOf(a) + KeysOf(b) ensures k in KeysOf(a + b) {
      if k in KeysOf(a) {
        var i :| 0 <= i < |a| && a[i].key == k;
        assert (a + b)[i].key == k;
      } else {
        var i :| 0 <= i < |b| && b[i].key == k;
        assert (a + b)[|a| + i].key == k;
      }
    }
  }

  lemma KeysOfOne<K>(e: ExpiringKey<K>)
    ensures KeysOf([e]) == {e.key}
  {
    assert [e][0] == e;
  }

  /** Where `BinaryHeap::push` files an entry: after every entry that
      expires no later than it does. */
  function InsertPos<K>(q: seq<ExpiringKey<K>>, e: ExpiringKey<K>): (p: nat)
    ensures p <= |q|
    ensures forall i :: 0 <= i < p ==> q[i].expires <= e.expires
    ensures p < |q| ==> e.expires < q[p].expires
  {
    if q == [] || e.expires < q[0].expires then 0 else 1 + InsertPos(q[1..], e)
  }

  /** `BinaryHeap::push`, on the heap's contents in the order it hands them
      out. */
  function Push<K>(q: seq<ExpiringKey<K>>, e: ExpiringKey<K>): (r: seq<ExpiringKey<K>>)
    ensures |r| == |q| + 1
    ensures r == q[..InsertPos(q, e)] + [e] + q[InsertPos(q, e)..]
  {
    var p := InsertPos(q, e);
    q[..p] + [e] + q[p..]
  }

  /** Pushing keeps the queue in expiry order. */
  lemma PushSorted<K>(q: seq<ExpiringKey<K>>, e: ExpiringKey<K>)
    requires Sorted(q)
    ensures Sorted(Push(q, e))
  {
    var p := InsertPos(q, e);
    var r := Push(q, e);
    forall i, j | 0 <= i < j < |r| ensures r[i].expires <= r[j].expires {
      if j < p || i > p {
        assert r[i] == q[if i < p then i else i - 1];
        assert r[j] == q[if j < p then j else j - 1];
      } else if i == p {
        assert r[j] == q[j - 1];
        assert e.expires < q[p].expires;
      } else {
        assert r[i] == q[i];
      }
    }
  }

  /** Pushing adds exactly the new entry's key. */
  lemma PushKeysOf<K>(q: seq<ExpiringKey<K>>, e: ExpiringKey<K>)
    ensures KeysOf(Push(q, e)) == KeysOf(q) + {e.key}
  {
    var p := InsertPos(q, e);
    KeysOfConcat(q[..p] + [e], q[p..]);
    KeysOfConcat(q[..p], [e]);
    KeysOfConcat(q[..p], q[p..]);
    assert q[..p] + q[p..] == q;
    KeysOfOne(e);
  }

  /** Pushing an entry whose key is fresh leaves no key twice. */
  lemma PushDistinct<K>(q: seq<ExpiringKey<K>>, e: ExpiringKey<K>)
    requires DistinctKeys(q) && e.key !in KeysOf(q)
    ensures DistinctKeys(Push(q, e))
  {
    var p := InsertPos(q, e);
    var r := Push(q, e);
    forall i, j | 0 <= i < j < |r| ensures r[i].key != r[j].key {
      if i != p && j != p {
        assert r[i] == q[if i < p then i else i - 1];
        assert r[j] == q[if j < p then j else j - 1];
      } else if i == p {
        assert r[j] == q[j - 1];
      } else {
        assert r[i] == q[i];
      }
    }
  }

  /** Pushing an entry that expires no earlier than any other appends it. */
  lemma PushLast<K>(q: seq<ExpiringKey<K>>, e: ExpiringKey<K>)
    requires forall i :: 0 <= i < |q| ==> q[i].expires <= e.expires
    ensures Push(q, e) == q + [e]
  {
    assert InsertPos(q, e) == |q|;
    assert q[..|q|] == q;
  }

  /** The queue without the entries for `key`, in the same order. */
  function RemoveKey<K(==)>(q: seq<ExpiringKey<K>>, key: K): (r: seq<ExpiringKey<K>>)
    ensures |r| <= |q|
  {
    if q == [] then []
    else if q[0].key == key then RemoveKey(q[1..], key)
    else [q[0]] + RemoveKey(q[1..], key)
  }

  /** Every entry left by the filter was in the queue, with another key. */
  lemma {:induction false} RemoveKeyFrom<K>(q: seq<ExpiringKey<K>>, key: K, i: nat)
    requires i < |RemoveKey(q, key)|
    ensures exists j :: 0 <= j < |q| && q[j] == RemoveKey(q, key)[i]
    ensures RemoveKey(q, key)[i].key != key
    decreases |q|
  {
    if q[0].key == key {
      RemoveKeyFrom(q[1..], key, i);
      var j :| 0 <= j < |q[1..]| && q[1..][j] == RemoveKey(q, key)[i];
      assert q[j + 1] == RemoveKey(q, key)[i];
    } else if i == 0 {
      assert q[0] == RemoveKey(q, key)[i];
    } else {
      RemoveKeyFrom(q[1..], key, i - 1);
      var j :| 0 <= j < |q[1..]| && q[1..][j] == RemoveKey(q, key)[i];
      assert q[j + 1] == RemoveKey(q, key)[i];
    }
  }

  /** Filtering a key out keeps the expiry order and the distinct keys, and
      takes exactly that key away. */
  lemma {:induction false} RemoveKeyValid<K>(q: seq<ExpiringKey<K>>, key: K)
    ensures Sorted(q) ==> Sorted(RemoveKey(q, key))
    ensures DistinctKeys(q) ==> DistinctKeys(RemoveKey(q, key))
    ensures KeysOf(RemoveKey(q, key)) == KeysOf(q) - {key}
    decreases |q|
  {
    if q != [] {
      var rest := RemoveKey(q[1..], key);
      RemoveKeyValid(q[1..], key);
      KeysOfCons(q);
      if q[0].key != key {
        KeysOfConcat([q[0]], rest);
        KeysOfOne(q[0]);
        RemoveKeyAfterHead(q, key);
        if Sorted(q) {
          ConsSorted(q[0], rest);
        }
        if DistinctKeys(q) {
          ConsDistinct(q[0], rest);
        }
      } else if DistinctKeys(q) {
        HeadKeyFresh(q);
      }
    }
  }

  /** The keys of a queue are its head's and those of the rest. */
  lemma KeysOfCons<K>(q: seq<ExpiringKey<K>>)
    requires q != []
    ensures KeysOf(q) == {q[0].key} + KeysOf(q[1..])
  {
    KeysOfConcat([q[0]], q[1..]);
    KeysOfOne(q[0]);
    assert q == [q[0]] + q[1..];
  }

  /** What the filter leaves of the rest comes after the head. */
  lemma RemoveKeyAfterHead<K>(q: seq<ExpiringKey<K>>, key: K)
    requires q != []
    ensures Sorted(q) ==> forall i :: 0 <= i < |RemoveKey(q[1..], key)| ==> q[0].expires <= RemoveKey(q[1..], key)[i].expires
    ensures DistinctKeys(q) ==> forall i :: 0 <= i < |RemoveKey(q[1..], key)| ==> q[0].key != RemoveKey(q[1..], key)[i].key
  {
    var rest := RemoveKey(q[1..], key);
    forall i | 0 <= i < |rest|
      ensures exists j :: 1 <= j < |q| && q[j] == rest[i]
    {
      RemoveKeyFrom(q[1..], key, i);
      var j :| 0 <= j < |q[1..]| && q[1..][j] == rest[i];
      assert q[j + 1] == rest[i];
    }
  }

  /** An entry expiring no later than a sorted queue heads a sorted queue. */
  lemma ConsSorted<K>(e: ExpiringKey<K>, q: seq<ExpiringKey<K>>)
    requires Sorted(q) && forall i :: 0 <= i < |q| ==> e.expires <= q[i].expires
    ensures Sorted([e] + q)
  {
    var r := [e] + q;
    forall i, j | 0 <= i < j < |r| ensures r[i].expires <= r[j].expires {
      assert r[j] == q[j - 1];
      if i > 0 {
        assert r[i] == q[i - 1];
      }
    }
  }

  /** An entry whose key is not among a queue's distinct keys heads a queue
      of distinct keys. */
  lemma ConsDistinct<K>(e: ExpiringKey<K>, q: seq<ExpiringKey<K>>)
    requires DistinctKeys(q) && forall i :: 0 <= i < |q| ==> e.key != q[i].key
    ensures DistinctKeys([e] + q)
  {
    var r := [e] + q;
    forall i, j | 0 <= i < j < |r| ensures r[i].key != r[j].key {
      assert r[j] == q[j - 1];
      if i > 0 {
        assert r[i] == q[i - 1];
      }
    }
  }

  /** With distinct keys, the head's key is not among the rest's. */
  lemma HeadKeyFresh<K>(q: seq<ExpiringKey<K>>)
    requires q != [] && DistinctKeys(q)
    ensures q[0].key !in KeysOf(q[1..])
  {
    forall i | 0 <= i < |q[1..]| ensures q[1..][i].key != q[0].key {
      assert q[1..][i] == q[i + 1];
    }
  }

  /** Appending one entry to a prefix of the queue extends the filtered
      prefix by that entry when it is kept. */
  lemma {:induction false} RemoveKeyAppend<K>(q: seq<ExpiringKey<K>>, e: ExpiringKey<K>, key: K)
    ensures RemoveKey(q + [e], key) == RemoveKey(q, key) + (if e.key == key then [] else [e])
    decreases |q|
  {
    if q != [] {
      assert (q + [e])[1..] == q[1..] + [e];
      RemoveKeyAppend(q[1..], e, key);
    } else {
      assert [e][1..] == [];
    }
  }

  /** A queue without `key` loses nothing by filtering it out. */
  lemma {:induction false} RemoveAbsentKey<K>(q: seq<ExpiringKey<K>>, key: K)
    requires key !in KeysOf(q)
    ensures RemoveKey(q, key) == q
    decreases |q|
  {
    if q != [] {
      assert q[0].key != key;
      assert KeysOf(q[1..]) <= KeysOf(q) by {
        forall k | k in KeysOf(q[1..]) ensures k in KeysOf(q) {
          var i :| 0 <= i < |q[1..]| && q[1..][i].key == k;
          assert q[i + 1].key == k;
        }
      }
      RemoveAbsentKey(q[1..], key);
    }
  }

  /** A map holds as many items as the queue of its keys holds entries. */
  lemma SizeOfValid<K, V>(m: map<K, V>, q: seq<ExpiringKey<K>>)
    requires Consistent(m, q)
    ensures |m| == |q|
  {
    KeysOfSize(q);
    assert |m| == |m.Keys|;
  }

  /** The cache's invariant: every cached key has exactly one entry in the
      queue, and the queue is in expiry order. */
  predicate Consistent<K, V>(items: map<K, V>, q: seq<ExpiringKey<K>>) {
    Sorted(q) && DistinctKeys(q) && KeysOf(q) == items.Keys
  }

  /** Popping the head of the queue and its item keeps the invariant. */
  lemma DropFirst<K, V>(items: map<K, V>, q: seq<ExpiringKey<K>>)
    requires q != [] && Consistent(items, q)
    ensures Consistent(items - {q[0].key}, q[1..])
  {
    KeysOfConcat([q[0]], q[1..]);
    assert q == [q[0]] + q[1..];
    KeysOfOne(q[0]);
    forall i | 0 <= i < |q[1..]| ensures q[1..][i].key != q[0].key {
      assert q[1..][i] == q[i + 1];
    }
  }

  /** The keys of a sequence of keyed entries with no key twice number as
      many as the entries. */
  lemma {:induction false} KeysOfSize<K>(q: seq<ExpiringKey<K>>)
    requires DistinctKeys(q)
    ensures |KeysOf(q)| == |q|
    decreases |q|
  {
    if q != [] {
      KeysOfSize(q[1..]);
      KeysOfConcat([q[0]], q[1..]);
      assert q == [q[0]] + q[1..];
      KeysOfOne(q[0]);
      assert q[0].key !in KeysOf(q[1..]) by {
        forall i | 0 <= i < |q[1..]| ensures q[1..][i].key != q[0].key {
          assert q[1..][i] == q[i + 1];
        }
      }
    }
  }

  class Cache<K(==), V> {
    var items: map<K, V>
    var queue: seq<ExpiringKey<K>>

    /** Every cached key has exactly one entry in the queue. */
    predicate Valid()
      reads this
    {
      Consistent(items, queue)
    }

    /** `Cache::new`. */
    constructor ()
      ensures Valid() && items == map[] && queue == []
    {
      items := map[];
      queue := [];
    }

    /** `Cache::contains_key`. */
    function ContainsKey(key: K): (b: bool)
      reads this
      requires Valid()
      ensures b <==> key in KeysOf(queue)
    {
      key in items
    }

    /** `Cache::get`. */
    function Get(key: K): (r: Option<V>)
      reads this
      ensures r.Some? <==> key in items
      ensures r.Some? ==> r.value == items[key]
    {
      if key in items then Some(items[key]) else None
    }

    /** `Cache::is_empty`. */
    function IsEmpty(): (b: bool)
      reads this
      requires Valid()
      ensures b <==> queue == []
    {
      KeysOfSize(queue);
      |items| == 0
    }

    /** `Cache::len`: as many items as queue entries. */
    function Len(): (n: nat)
      reads this
      requires Valid()
      ensures n == |queue|
    {
      KeysOfSize(queue);
      |items|
    }

    /** `Cache::remove`: the queue is rebuilt without the key's entry. */
    method Remove(key: K)
      requires Valid()
      modifies this
      ensures Valid()
      ensures items == old(items) - {key}
      ensures queue == RemoveKey(old(queue), key)
    {
      if key !in items {
        RemoveAbsentKey(queue, key);
        assert items - {key} == items;
        return;
      }
      var temp := queue;
      queue := [];
      var i := 0;
      while i < |temp|
        invariant 0 <= i <= |temp|
        invariant queue == RemoveKey(temp[..i], key)
        invariant items == old(items)
      {
        queue := Refile(queue, temp, i, key);
        i := i + 1;
      }
      assert temp[..i] == temp;
      RemoveKeyValid(temp, key);
      items := items - {key};
    }

    /** One turn of `remove`'s loop: the `i`-th entry of the old queue is
        pushed back unless it has the key. */
    static method Refile(acc: seq<ExpiringKey<K>>, temp: seq<ExpiringKey<K>>, i: nat, key: K)
      returns (next: seq<ExpiringKey<K>>)
      requires i < |temp| && Sorted(temp) && acc == RemoveKey(temp[..i], key)
      ensures next == RemoveKey(temp[..i + 1], key)
    {
      RemoveKeyAppend(temp[..i], temp[i], key);
      assert temp[..i + 1] == temp[..i] + [temp[i]];
      next := acc;
      if temp[i].key != key {
        forall j | 0 <= j < |acc| ensures acc[j].expires <= temp[i].expires {
          RemoveKeyFrom(temp[..i], key, j);
        }
        PushLast(acc, temp[i]);
        next := Push(acc, temp[i]);
      }
    }

    /** `Cache::insert`: any old entry for the key goes, and the key expires
        `lifetime` ticks after `now`. */
    method Insert(key: K, value: V, lifetime: nat, now: nat)
      requires Valid()
      modifies this
      ensures Valid()
      ensures items == old(items)[key := value]
      ensures queue == Push(RemoveKey(old(queue), key), ExpiringKey(now + lifetime, key))
    {
      Remove(key);
      var e := ExpiringKey(now + lifetime, key);
      PushSorted(queue, e);
      PushDistinct(queue, e);
      PushKeysOf(queue, e);
      queue := Push(queue, e);
      items := items[key := value];
    }

    /** `Cache::clean_up`: the expired entries, which lead the queue, and
        their items go; the result is how many went. */
    method CleanUp(now: nat) returns (cleaned: nat)
      requires Valid()
      modifies this
      ensures Valid()
      ensures cleaned <= |old(queue)| && queue == old(queue)[cleaned..]
      ensures cleaned == ExpiredPrefix(old(queue), now)
      ensures forall i :: 0 <= i < |queue| ==> !IsExpired(queue[i], now)
      ensures forall k :: k in items ==> k in old(items) && items[k] == old(items)[k]
    {
      cleaned := 0;
      var q0, m0 := queue, items;
      while queue != [] && IsExpired(queue[0], now)
        invariant Consistent(items, queue)
        invariant cleaned <= |q0| && queue == q0[cleaned..]
        invariant cleaned + ExpiredPrefix(queue, now) == ExpiredPrefix(q0, now)
        invariant forall k :: k in items ==> k in m0 && items[k] == m0[k]
        decreases |queue|
      {
        var next := queue[0];
        DropFirst(items, queue);
        assert next == q0[cleaned];
        items := items - {next.key};
        queue := queue[1..];
        cleaned := cleaned + 1;
      }
      forall i | 0 <= i < |queue| ensures !IsExpired(queue[i], now) {
        assert queue[0].expires <= queue[i].expires;
      }
    }

    /** `Cache::clear`. */
    method Clear()
      modifies this
      ensures Valid() && items == map[] && queue == []
    {
      items := map[];
      queue := [];
    }
  }

  /** In expiry order the expired entries are exactly the leading ones, so
      the head-first sweep of `clean_up` misses none. */
  lemma ExpiredLead<K>(q: seq<ExpiringKey<K>>, now: nat)
    requires Sorted(q)
    ensures forall i :: 0 <= i < |q| ==> (IsExpired(q[i], now) <==> i < ExpiredPrefix(q, now))
  {
    var n := ExpiredPrefix(q, now);
    forall i | n <= i < |q| ensures !IsExpired(q[i], now) {
      assert q[n].expires <= q[i].expires;
    }
  }

  /** What `clean_up` reports: a cache that kept its invariant while the
      first `n` queue entries went holds `n` items fewer. */
  lemma RemovedCount<K, V>(before: map<K, V>, after: map<K, V>, q: seq<ExpiringKey<K>>, n: nat)
    requires Consistent(before, q) && n <= |q| && Consistent(after, q[n..])
    ensures |before| - |after| == n
  {
    SizeOfValid(before, q);
    SizeOfValid(after, q[n..]);
  }

  /** `test_insert`: an inserted key is found with its value. */
  method InsertScenario() returns (found: bool, value: Option<string>)
    ensures found && value == Some("bar")
  {
    var cache := new Cache<string, string>();
    cache.Insert("foo", "bar", 5, 0);
    found := cache.ContainsKey("foo");
    value := cache.Get("foo");
  }

  /** `test_clear`: one item, then none. */
  method ClearScenario() returns (lenBefore: nat, lenAfter: nat, emptyAfter: bool)
    ensures lenBefore == 1 && lenAfter == 0 && emptyAfter
  {
    var cache := new Cache<string, string>();
    cache.Insert("foo", "bar", 5, 0);
    lenBefore := cache.Len();
    cache.Clear();
    lenAfter := cache.Len();
    emptyAfter := cache.IsEmpty();
  }

  /** The queue after `foo` is inserted with no lifetime and `bar` with
      five ticks, both at tick 0. */
  lemma FooThenBar()
    ensures Push(RemoveKey(Push(RemoveKey([], "foo"), ExpiringKey(0, "foo")), "bar"), ExpiringKey(5, "bar"))
         == [ExpiringKey(0, "foo"), ExpiringKey(5, "bar")]
  {
    assert Push([], ExpiringKey(0, "foo")) == [ExpiringKey(0, "foo")];
    assert RemoveKey([ExpiringKey(0, "foo")], "bar") == [ExpiringKey(0, "foo")];
  }

  /** Inserting `foo` again with five ticks moves it behind `bar`. */
  lemma FooAgain()
    ensures Push(RemoveKey([ExpiringKey(0, "foo"), ExpiringKey(5, "bar")], "foo"), ExpiringKey(5, "foo"))
         == [ExpiringKey(5, "bar"), ExpiringKey(5, "foo")]
  {
    assert RemoveKey([ExpiringKey(0, "foo"), ExpiringKey(5, "bar")], "foo") == [ExpiringKey(5, "bar")];
  }

  /** `test_cleanup`: of a key with no lifetime and one with five ticks,
      one tick later only the first is cleaned up. */
  method CleanUpScenario() returns (lenBefore: nat, cleaned: nat, lenAfter: nat)
    ensures lenBefore == 2 && cleaned == 1 && lenAfter == 1
  {
    var cache := new Cache<string, string>();
    cache.Insert("foo", "bar", 0, 0);
    cache.Insert("bar", "cheese", 5, 0);
    FooThenBar();
    assert ExpiredPrefix(cache.queue, 1) == 1 by {
      assert cache.queue[1..] == [ExpiringKey(5, "bar")];
    }
    lenBefore := cache.Len();
    cleaned := cache.CleanUp(1);
    lenAfter := cache.Len();
  }

  /** `test_replace`: inserting a key again gives it the new lifetime. */
  method ReplaceScenario() returns (lenBefore: nat, cleaned: nat, lenAfter: nat)
    ensures lenBefore == 2 && cleaned == 0 && lenAfter == 2
  {
    var cache := new Cache<string, string>();
    cache.Insert("foo", "bar", 0, 0);
    cache.Insert("bar", "cheese", 5, 0);
    FooThenBar();
    cache.Insert("foo", "yeet", 5, 0);
    FooAgain();
    assert ExpiredPrefix(cache.queue, 1) == 0;
    lenBefore := cache.Len();
    cleaned := cache.CleanUp(1);
    lenAfter := cache.Len();
  }

  /** `test_remove`: removing one of two keys leaves one. */
  method RemoveScenario() returns (lenBefore: nat, lenAfter: nat, emptyAfter: bool)
    ensures lenBefore == 2 && lenAfter == 1 && !emptyAfter
  {
    var cache := new Cache<string, string>();
    cache.Insert("foo", "bar", 5, 0);
    cache.Insert("bar", "cheese", 5, 0);
    lenBefore := cache.Len();
    cache.Remove("foo");
    lenAfter := cache.Len();
    emptyAfter := cache.IsEmpty();
  }
}
