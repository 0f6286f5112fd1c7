// The response cache of the C++ server: named entries that are loading or
// loaded, each with an optional expiry timer, a running byte count `size`
// and an optional byte budget `maxSize` enforced by evicting the entry
// whose timer is due soonest. Entries are values in the `cache` map;
// callbacks into code outside the cache are recorded, in order, in
// `fired`; timers are represented by their remaining time.
module CppCache {
  import opened Wrappers
  import StringOrder

  /** The largest `unsigned int`, which `getTime` reports for an entry
      without a running timer. */
  const UINT_MAX: int := 0xFFFF_FFFF

  type UInt = x: int | 0 <= x <= UINT_MAX

  datatype CachedData = CachedData(meta: string, response: int, body: string, lifetime: UInt)

  /** A notification callback with its context argument; both are opaque
      handles here. */
  datatype Callback = Callback(fn: nat, ctx: nat)

  /** One invocation of a callback with the data it was given. */
  datatype Call = Call(cb: Callback, data: CachedData)

  /** The state of one `CacheInfo`. */
  datatype Info = Info(loading: bool, ready: bool, timerActive: bool, dueIn: UInt,
                       data: CachedData, callbacks: seq<Callback>)

  /** A freshly constructed entry: neither loading nor loaded, no timer. */
  const Fresh: Info := Info(false, false, false, 0, CachedData("", 0, "", 0), [])

  /** The bytes an entry accounts for. */
  function SizeOf(d: CachedData): nat { |d.body| }

  /** `getTime`: the time left on the entry's timer, or the largest value
      when no timer runs, so that such entries are evicted last. */
  function Time(i: Info): (r: UInt)
    ensures !i.timerActive ==> r == UINT_MAX
    ensures i.timerActive ==> r == i.dueIn
  {
    if i.timerActive then i.dueIn else UINT_MAX
  }

  /** The bytes `size` should count for an entry: its data once loaded. */
  function Counted(i: Info): nat { if i.ready then SizeOf(i.data) else 0 }

  /** `_get`: the map with an entry for `name`, created fresh when absent. */
  function WithEntry(m: map<string, Info>, name: string): (r: map<string, Info>)
    ensures name in r && r.Keys == m.Keys + {name}
    ensures forall k :: k in m ==> r[k] == m[k]
    ensures name !in m ==> r[name] == Fresh
  {
    if name in m then m else m[name := Fresh]
  }

  /** The entry once `add` has stored `d` in it and `setLoaded` has run. */
  function Stored(i: Info, d: CachedData): (r: Info)
    ensures r.ready && !r.loading && r.data == d && r.callbacks == []
    ensures r.timerActive <==> d.lifetime != 0
    ensures r.timerActive ==> Time(r) == d.lifetime
    ensures Counted(r) == SizeOf(d)
  {
    if d.lifetime != 0 then
      i.(data := d, loading := false, ready := true, timerActive := true, dueIn := d.lifetime, callbacks := [])
    else
      i.(data := d, loading := false, ready := true, timerActive := false, callbacks := [])
  }

  /** Every callback of `cbs`, in order, given `d`. */
  function Calls(cbs: seq<Callback>, d: CachedData): (r: seq<Call>)
    ensures |r| == |cbs|
    ensures forall j :: 0 <= j < |r| ==> r[j] == Call(cbs[j], d)
  {
    seq(|cbs|, j requires 0 <= j < |cbs| => Call(cbs[j], d))
  }

  /** Entry `a` goes before entry `b` when evicting: less time left, and on
      a tie the name that comes first in the map's key order. */
  predicate Before(m: map<string, Info>, a: string, b: string)
    requires a in m && b in m
  {
    Time(m[a]) < Time(m[b]) || (Time(m[a]) == Time(m[b]) && StringOrder.LessEq(a, b))
  }

  /** `v` is the entry `_remove_old_cache` picks from `m`. */
  predicate Evicts(m: map<string, Info>, v: string) {
    v in m && forall k :: k in m ==> Before(m, v, k)
  }

  /** At most one entry can be picked: eviction is deterministic. */
  lemma EvictsUnique(m: map<string, Info>, a: string, b: string)
    requires Evicts(m, a) && Evicts(m, b)
    ensures a == b
  {
    assert Before(m, a, b) && Before(m, b, a);
    StringOrder.LessEqAntisymmetric(a, b);
  }

  /** The bytes of every loaded entry of `m`. */
  ghost function LoadedTotal(m: map<string, Info>): nat
    decreases |m|
  {
    if m == map[] then 0
    else
      var k :| k in m;
      assert |m - {k}| < |m| by { assert (m - {k}).Keys == m.Keys - {k}; }
      Counted(m[k]) + LoadedTotal(m - {k})
  }

  /** The total splits off any one entry, whichever the sum happened to
      take first. */
  lemma {:induction false} TotalRemove(m: map<string, Info>, k: string)
    requires k in m
    ensures LoadedTotal(m) == Counted(m[k]) + LoadedTotal(m - {k})
    decreases |m|
  {
    var j :| j in m && LoadedTotal(m) == Counted(m[j]) + LoadedTotal(m - {j});
    if j != k {
      assert (m - {j}).Keys == m.Keys - {j} && (m - {k}).Keys == m.Keys - {k};
      TotalRemove(m - {j}, k);
      TotalRemove(m - {k}, j);
      assert m - {j} - {k} == m - {k} - {j};
    }
  }

  /** Replacing or adding entry `k` changes the total by the difference of
      what the two entries count. */
  lemma TotalUpdate(m: map<string, Info>, k: string, v: Info)
    ensures LoadedTotal(m[k := v]) + (if k in m then Counted(m[k]) else 0) == LoadedTotal(m) + Counted(v)
  {
    TotalRemove(m[k := v], k);
    if k in m {
      TotalRemove(m, k);
      assert m[k := v] - {k} == m - {k};
    } else {
      assert m[k := v] - {k} == m;
    }
  }

  /** Dropping entry `k` (present or not) lowers the total by what it
      counted. */
  lemma TotalErase(m: map<string, Info>, k: string)
    ensures LoadedTotal(m - {k}) + (if k in m then Counted(m[k]) else 0) == LoadedTotal(m)
  {
    if k in m {
      TotalRemove(m, k);
    } else {
      assert m - {k} == m;
    }
  }

  class Cache {
    /** The byte budget; 0 means unlimited. */
    const maxSize: UInt
    var cache: map<string, Info>
    var size: nat
    /** Every callback invocation made so far, oldest first. */
    var fired: seq<Call>

    /** `size` covers at least the bytes of the loaded entries, so that
        `invalidate` never subtracts more than `size` holds. The code as
        written keeps only this; `Exact` is what it intends. */
    ghost predicate Accounted()
      reads this
    {
      size >= LoadedTotal(cache)
    }

    ghost predicate Exact()
      reads this
    {
      size == LoadedTotal(cache)
    }

    constructor (maxSize: UInt)
      ensures this.maxSize == maxSize && cache == map[] && size == 0 && fired == []
      ensures Accounted() && Exact()
    {
      this.maxSize := maxSize;
      cache := map[];
      size := 0;
      fired := [];
    }

    /** `isLoading`: false for an unknown name. */
    function IsLoading(name: string): (b: bool)
      reads this
      ensures name !in cache ==> !b
      ensures name in cache ==> (b <==> cache[name].loading)
    {
      name in cache && cache[name].loading
    }

    /** `isLoaded`: false for an unknown name. */
    function IsLoaded(name: string): (b: bool)
      reads this
      ensures name !in cache ==> !b
      ensures name in cache ==> (b <==> cache[name].ready)
    {
      name in cache && cache[name].ready
    }

    /** `get`: the stored data; `map::at` throws for an unknown name. */
    function Get(name: string): (r: Option<CachedData>)
      reads this
      ensures r.None? <==> name !in cache
      ensures r.Some? ==> r.value == cache[name].data
    {
      if name in cache then Some(cache[name].data) else None
    }

    /** `loading`: the entry exists afterwards, is loading, not loaded, and
        has no timer; nothing else changes. */
    method Loading(name: string)
      requires Accounted()
      modifies this
      ensures cache == old(WithEntry(cache, name))[name := old(WithEntry(cache, name))[name].(loading := true, ready := false, timerActive := false)]
      ensures IsLoading(name) && !IsLoaded(name)
      ensures size == old(size) && fired == old(fired)
      ensures Accounted()
    {
      var m := WithEntry(cache, name);
      var i := m[name].(loading := true, ready := false, timerActive := false);
      TotalUpdate(m, name, i);
      TotalUpdate(cache, name, Fresh);
      cache := m[name := i];
    }

    /** `invalidate`: the entry is gone and `size` drops by its bytes if it
        was loaded; an unknown name changes nothing. */
    method Invalidate(name: string)
      requires Accounted()
      modifies this
      ensures cache == old(cache) - {name}
      ensures size == old(size) - (if name in old(cache) then Counted(old(cache)[name]) else 0)
      ensures name !in old(cache) ==> cache == old(cache) && size == old(size)
      ensures fired == old(fired)
      ensures Accounted()
      ensures old(Exact()) ==> Exact()
    {
      TotalErase(cache, name);
      if name in cache {
        if cache[name].ready {
          size := size - SizeOf(cache[name].data);
        }
        cache := cache - {name};
      } else {
        assert cache - {name} == cache;
      }
    }

    /** A timer firing (`_timeout` and `_onCacheTimer`) invalidates exactly
        its own entry. */
    method Timeout(name: string)
      requires Accounted() && name in cache && cache[name].timerActive
      modifies this
      ensures cache == old(cache) - {name}
      ensures size == old(size) - Counted(old(cache)[name])
      ensures fired == old(fired)
      ensures Accounted()
    {
      var stopped := cache[name].(timerActive := false);
      TotalUpdate(cache, name, stopped);
      cache := cache[name := stopped];
      Invalidate(name);
    }

    /** The names of the entries in the map's key order. */
    method Names() returns (names: seq<string>)
      ensures StringOrder.Sorted(names)
      ensures forall k :: k in names <==> k in cache
    {
      names := [];
      var rest := cache.Keys;
      while rest != {}
        invariant rest <= cache.Keys
        invariant StringOrder.Sorted(names)
        invariant forall k :: k in names <==> k in cache && k !in rest
        decreases rest
      {
        var k :| k in rest;
        var grown := StringOrder.Insert(k, names);
        forall x ensures x in grown <==> x in names || x == k {
          assert x in grown <==> x in multiset(grown);
          assert x in names <==> x in multiset(names);
        }
        names, rest := grown, rest - {k};
      }
    }

    /** `_remove_old_cache`: on a non-empty cache, the entry with the least
        time left (the first such in key order) is invalidated. */
    method RemoveOldCache() returns (ghost victim: string)
      requires Accounted()
      modifies this
      ensures old(cache) == map[] ==> cache == old(cache) && size == old(size)
      ensures old(cache) != map[] ==> Evicts(old(cache), victim) && cache == old(cache) - {victim}
                                      && size == old(size) - Counted(old(cache)[victim])
      ensures fired == old(fired)
      ensures Accounted()
      ensures old(Exact()) ==> Exact()
    {
      victim := "";
      if cache == map[] {
        return;
      }
      var names := Names();
      var some :| some in cache;
      assert some in names;
      var name := names[0];
      var shortest := Time(cache[name]);
      ghost var at := 0;
      var i := 1;
      while i < |names|
        invariant 1 <= i <= |names| && at < i && names[at] == name
        invariant shortest == Time(cache[name])
        invariant forall j :: 0 <= j < i ==> shortest <= Time(cache[names[j]])
        invariant forall j :: 0 <= j < at ==> shortest < Time(cache[names[j]])
      {
        var t := Time(cache[names[i]]);
        if t < shortest {
          name, shortest, at := names[i], t, i;
        }
        i := i + 1;
      }
      forall k | k in cache ensures Before(cache, name, k) {
        var j :| 0 <= j < |names| && names[j] == k;
        if j == at {
          StringOrder.LessEqTotal(k, k);
        }
      }
      victim := name;
      Invalidate(name);
    }

    /** `setLoaded` on entry `i`: every queued callback is called once, in
        order, with the entry's data, and the queue is emptied. */
    method SetLoaded(i: Info) returns (done: Info)
      modifies this
      ensures done == i.(loading := false, ready := true, callbacks := [])
      ensures fired == old(fired) + Calls(i.callbacks, i.data)
      ensures cache == old(cache) && size == old(size)
    {
      var j := 0;
      while j < |i.callbacks|
        invariant 0 <= j <= |i.callbacks|
        invariant fired == old(fired) + Calls(i.callbacks[..j], i.data)
        invariant cache == old(cache) && size == old(size)
      {
        fired := fired + [Call(i.callbacks[j], i.data)];
        j := j + 1;
      }
      assert i.callbacks[..j] == i.callbacks;
      done := i.(loading := false, ready := true, callbacks := []);
    }

    /** The tail of `add` (lines after the eviction loop): `_get`, then
        `setData`, `size` grown by the entry's bytes, the timer started iff
        the data has a lifetime, and `setLoaded`. */
    method Store(name: string, data: CachedData)
      modifies this
      ensures cache == old(cache)[name := Stored(old(WithEntry(cache, name))[name], data)]
      ensures size == old(size) + SizeOf(data)
      ensures fired == old(fired) + Calls(old(WithEntry(cache, name))[name].callbacks, data)
      ensures LoadedTotal(cache) + Counted(old(WithEntry(cache, name))[name]) == old(LoadedTotal(cache)) + SizeOf(data)
    {
      var prior := WithEntry(cache, name)[name];
      var i := prior.(data := data);
      size := size + SizeOf(data);
      if data.lifetime != 0 {
        i := i.(timerActive := true, dueIn := data.lifetime);
      } else {
        i := i.(timerActive := false);
      }
      i := SetLoaded(i);
      TotalUpdate(cache, name, i);
      cache := cache[name := i];
    }

    /** The eviction loop of `add`: with a budget, entries are invalidated
        in eviction order until `need` more bytes fit. When the cache runs
        empty and they still do not fit, the loop as written never ends;
        `hangs` reports that, with the state at that point. */
    method MakeRoom(need: nat) returns (hangs: bool)
      requires Accounted()
      modifies this
      ensures cache.Keys <= old(cache).Keys && forall k :: k in cache ==> cache[k] == old(cache)[k]
      ensures forall e, k :: e in old(cache) && e !in cache && k in cache ==> Before(old(cache), e, k)
      ensures (maxSize == 0 || old(size) + need <= maxSize) ==> cache == old(cache) && size == old(size)
      ensures hangs <==> maxSize > 0 && cache == map[] && size + need > maxSize
      ensures maxSize > 0 && !hangs ==> size + need <= maxSize
      ensures old(size) - LoadedTotal(old(cache)) == size - LoadedTotal(cache)
      ensures fired == old(fired)
      ensures Accounted()
      ensures old(Exact()) ==> Exact()
    {
      hangs := false;
      if maxSize > 0 {
        while size + need > maxSize
          invariant cache.Keys <= old(cache).Keys && forall k :: k in cache ==> cache[k] == old(cache)[k]
          invariant forall e, k :: e in old(cache) && e !in cache && k in cache ==> Before(old(cache), e, k)
          invariant old(size) + need <= maxSize ==> cache == old(cache) && size == old(size)
          invariant old(size) - LoadedTotal(old(cache)) == size - LoadedTotal(cache)
          invariant fired == old(fired)
          invariant Accounted()
          invariant old(Exact()) ==> Exact()
          decreases |cache|
        {
          if cache == map[] {
            hangs := true;
            return;
          }
          ghost var before := cache;
          ghost var v := RemoveOldCache();
          TotalErase(before, v);
          assert |cache| < |before| by { assert cache.Keys == before.Keys - {v}; }
        }
      }
    }

    /** `add` as written: make room, then store the data, grow `size` by its
        bytes (without taking off what the entry held before), start the
        timer iff the data has a lifetime, and mark the entry loaded,
        calling its queued callbacks. `kept` is the cache after eviction
        and `room` the size then. */
    method Add(name: string, data: CachedData) returns (hangs: bool, ghost kept: map<string, Info>, ghost room: nat)
      requires Accounted()
      modifies this
      ensures kept.Keys <= old(cache).Keys && forall k :: k in kept ==> kept[k] == old(cache)[k]
      ensures forall e, k :: e in old(cache) && e !in kept && k in kept ==> Before(old(cache), e, k)
      ensures (maxSize == 0 || old(size) + SizeOf(data) <= maxSize) ==> kept == old(cache) && room == old(size)
      ensures old(size) - LoadedTotal(old(cache)) == room - LoadedTotal(kept)
      ensures hangs <==> maxSize > 0 && kept == map[] && room + SizeOf(data) > maxSize
      ensures hangs ==> cache == kept && size == room && fired == old(fired)
      ensures !hangs ==> (maxSize == 0 || room + SizeOf(data) <= maxSize)
      ensures !hangs ==> cache == kept[name := Stored(WithEntry(kept, name)[name], data)]
                         && size == room + SizeOf(data)
                         && fired == old(fired) + Calls(WithEntry(kept, name)[name].callbacks, data)
      ensures !hangs ==> IsLoaded(name) && !IsLoading(name) && Get(name) == Some(data)
      ensures Accounted()
    {
      hangs := MakeRoom(SizeOf(data));
      kept, room := cache, size;
      if hangs {
        return;
      }
      Store(name, data);
    }

    /** `add` as intended: the bytes the entry counted before are taken off
        `size` first, and eviction stops on an empty cache. */
    method AddCorrected(name: string, data: CachedData)
      requires Exact()
      modifies this
      ensures cache.Keys <= old(cache).Keys + {name}
      ensures name in cache && cache[name].ready && cache[name].data == data
      ensures forall k :: k in cache && k != name ==> k in old(cache) && cache[k] == old(cache)[k]
      ensures forall e, k :: e in old(cache) && e !in cache && k in cache && k != name ==> Before(old(cache), e, k)
      ensures IsLoaded(name) && Get(name) == Some(data)
      ensures Exact()
    {
      var hangs := MakeRoom(SizeOf(data));
      ghost var kept := cache;
      var prior := WithEntry(cache, name)[name];
      TotalErase(cache, name);
      size := size - Counted(prior);
      Store(name, data);
    }

    /** `loading` as intended: an entry that was loaded stops counting. */
    method LoadingCorrected(name: string)
      requires Exact()
      modifies this
      ensures cache == old(WithEntry(cache, name))[name := old(WithEntry(cache, name))[name].(loading := true, ready := false, timerActive := false)]
      ensures IsLoading(name) && !IsLoaded(name)
      ensures fired == old(fired)
      ensures Exact()
    {
      var m := WithEntry(cache, name);
      var i := m[name].(loading := true, ready := false, timerActive := false);
      TotalUpdate(m, name, i);
      TotalUpdate(cache, name, Fresh);
      TotalErase(m, name);
      size := size - Counted(m[name]);
      cache := m[name := i];
    }

    /** `clear` as written: every entry goes, `size` stays. */
    method Clear()
      requires Accounted()
      modifies this
      ensures cache == map[] && size == old(size) && fired == old(fired)
      ensures Accounted()
    {
      cache := map[];
    }

    /** `clear` as intended: `size` returns to zero with the entries. */
    method ClearCorrected()
      modifies this
      ensures cache == map[] && size == 0 && fired == old(fired)
      ensures Exact()
    {
      cache := map[];
      size := 0;
    }

    /** `getNotified`: false for an unknown name; a loaded entry calls back
        at once; otherwise the callback is queued on the entry. */
    method GetNotified(name: string, cb: Callback) returns (b: bool)
      requires Accounted()
      modifies this
      ensures b <==> name in old(cache)
      ensures !b ==> cache == old(cache) && fired == old(fired)
      ensures b && old(cache)[name].ready ==> cache == old(cache) && fired == old(fired) + [Call(cb, old(cache)[name].data)]
      ensures b && !old(cache)[name].ready ==>
                cache == old(cache)[name := old(cache)[name].(callbacks := old(cache)[name].callbacks + [cb])]
                && fired == old(fired)
      ensures size == old(size)
      ensures Accounted()
    {
      if name !in cache {
        return false;
      }
      var c := cache[name];
      if c.ready {
        fired := fired + [Call(cb, c.data)];
        return true;
      }
      var queued := c.(callbacks := c.callbacks + [cb]);
      TotalUpdate(cache, name, queued);
      cache := cache[name := queued];
      return true;
    }
  }

  /** Adding a name twice and invalidating it leaves an empty cache whose
      `size` still counts the first copy's bytes. */
  method ReAddLeaks() returns (c: Cache)
    ensures c.cache == map[] && c.size == 2
  {
    var d := CachedData("text/gemini", 20, "hi", 0);
    c := new Cache(0);
    var hangs;
    ghost var kept, room;
    hangs, kept, room := c.Add("page", d);
    hangs, kept, room := c.Add("page", d);
    c.Invalidate("page");
  }

  /** The same sequence with the corrected `add` leaves `size` at zero. */
  method ReAddCorrected() returns (c: Cache)
    ensures c.cache == map[] && c.size == 0
  {
    var d := CachedData("text/gemini", 20, "hi", 0);
    c := new Cache(0);
    c.AddCorrected("page", d);
    c.AddCorrected("page", d);
    c.Invalidate("page");
  }

  /** Marking a loaded entry as loading again and invalidating it leaks its
      bytes the same way. */
  method ReloadLeaks() returns (c: Cache)
    ensures c.cache == map[] && c.size == 2
  {
    var d := CachedData("text/gemini", 20, "hi", 0);
    c := new Cache(0);
    var hangs;
    ghost var kept, room;
    hangs, kept, room := c.Add("page", d);
    c.Loading("page");
    c.Invalidate("page");
  }

  /** `clear` keeps the old byte count, so a budget of 3 no longer fits a
      2-byte body on an empty cache: `add` never returns. */
  method ClearThenAddHangs() returns (c: Cache, hangs: bool)
    ensures c.cache == map[] && hangs
  {
    var d := CachedData("text/gemini", 20, "hi", 0);
    c := new Cache(3);
    ghost var kept, room;
    hangs, kept, room := c.Add("page", d);
    c.Clear();
    hangs, kept, room := c.Add("other", d);
  }

  /** A body larger than the budget can never fit, even with everything
      evicted: `add` never returns. */
  method OversizeHangs() returns (c: Cache, hangs: bool)
    ensures hangs
  {
    c := new Cache(1);
    ghost var kept, room;
    hangs, kept, room := c.Add("page", CachedData("text/gemini", 20, "hi", 0));
  }
}
