// The C++ server's `ReusableAllocator` in its two versions: the current one
// (shared/gemcaps/util.hpp) keeps free stack slots and free slots per heap
// chunk, and gives a chunk back once all its slots are free; the older one
// (shared/util.hpp) keeps one stack of free slots and frees chunks only when
// it is destroyed. Slots are abstract ids: a pointer into the object's own
// `stack` array, into a heap chunk, or `nullptr`.
module CppAllocator {

  datatype Slot = Null | StackSlot(index: nat) | HeapSlot(chunk: nat, index: nat)

  predicate Distinct(xs: seq<Slot>) {
    forall i, j :: 0 <= i < j < |xs| ==> xs[i] != xs[j]
  }

  /** The slots of chunk `c`, in address order. */
  function ChunkSlots(c: nat, n: nat): (r: seq<Slot>)
    ensures |r| == n
    ensures forall i :: 0 <= i < n ==> r[i] == HeapSlot(c, i)
  {
    if n == 0 then [] else ChunkSlots(c, n - 1) + [HeapSlot(c, n - 1)]
  }

  /** The slots of the `stack` array, in address order. */
  function StackSlots(n: nat): (r: seq<Slot>)
    ensures |r| == n
    ensures forall i :: 0 <= i < n ==> r[i] == StackSlot(i)
  {
    if n == 0 then [] else StackSlots(n - 1) + [StackSlot(n - 1)]
  }

  /** `n` null pointers, as `std::vector<T *>(n)` holds. */
  function Nulls(n: nat): (r: seq<Slot>)
    ensures |r| == n
    ensures forall i :: 0 <= i < n ==> r[i] == Null
  {
    if n == 0 then [] else Nulls(n - 1) + [Null]
  }

  function Elems(xs: seq<Slot>): set<Slot> {
    set i | 0 <= i < |xs| :: xs[i]
  }

  function HeapSet(c: nat, n: nat): (r: set<Slot>)
    ensures forall s :: s in r <==> s.HeapSlot? && s.chunk == c && s.index < n
  {
    set i | 0 <= i < n :: HeapSlot(c, i)
  }

  lemma {:induction false} HeapSetSize(c: nat, n: nat)
    ensures |HeapSet(c, n)| == n
    decreases n
  {
    if n > 0 {
      HeapSetSize(c, n - 1);
      assert HeapSet(c, n) == HeapSet(c, n - 1) + {HeapSlot(c, n - 1)};
    }
  }

  lemma {:induction false} DistinctSize(xs: seq<Slot>)
    requires Distinct(xs)
    ensures |Elems(xs)| == |xs|
    decreases |xs|
  {
    if xs != [] {
      var front := xs[..|xs| - 1];
      DistinctSize(front);
      assert Elems(xs) == Elems(front) + {xs[|xs| - 1]};
      assert xs[|xs| - 1] !in Elems(front);
    }
  }

  lemma {:induction false} SubsetCard(a: set<Slot>, b: set<Slot>)
    requires a <= b
    ensures |a| <= |b|
    decreases |b|
  {
    if b != {} {
      var y :| y in b;
      SubsetCard(a - {y}, b - {y});
    }
  }

  lemma {:induction false} SubsetSize(a: set<Slot>, b: set<Slot>)
    requires a <= b && |a| == |b|
    ensures a == b
  {
    if a != b {
      var x :| x in b && x !in a;
      SubsetCard(a, b - {x});
    }
  }

  /** Pigeonholes: `n` distinct slots of chunk `c` are all its slots. */
  lemma Covers(xs: seq<Slot>, c: nat, n: nat)
    requires Distinct(xs) && |xs| == n
    requires forall i :: 0 <= i < |xs| ==> xs[i].HeapSlot? && xs[i].chunk == c && xs[i].index < n
    ensures forall s: Slot :: s.HeapSlot? && s.chunk == c && s.index < n ==> s in xs
  {
    DistinctSize(xs);
    HeapSetSize(c, n);
    SubsetSize(Elems(xs), HeapSet(c, n));
    forall s: Slot | s.HeapSlot? && s.chunk == c && s.index < n ensures s in xs {
      assert s in HeapSet(c, n);
      assert s in Elems(xs);
    }
  }

  // ------------------------------------------------- the current version

  class ReusableAllocator {
    const allocSize: nat
    var stackAvail: seq<Slot>
    var stackInUse: set<Slot>
    /** The free slots of every live heap chunk, by chunk. */
    var heapAvail: map<nat, seq<Slot>>
    /** The heap slots handed out, with the chunk each belongs to. */
    var heapInUse: map<Slot, nat>
    /** The next address the underlying allocator hands out. */
    var nextChunk: nat

    /** Free lists hold no slot twice and no slot in use; every slot in use
        belongs to a live chunk; a live chunk has a slot in use. */
    predicate Valid()
      reads this
    {
      && allocSize >= 1
      && Distinct(stackAvail)
      && (forall i :: 0 <= i < |stackAvail| ==>
            stackAvail[i].StackSlot? && stackAvail[i].index < allocSize && stackAvail[i] !in stackInUse)
      && (forall s :: s in stackInUse ==> s.StackSlot? && s.index < allocSize)
      && (forall c :: c in heapAvail ==>
            && c < nextChunk
            && Distinct(heapAvail[c])
            && |heapAvail[c]| < allocSize
            && (forall i :: 0 <= i < |heapAvail[c]| ==>
                  var s := heapAvail[c][i];
                  s.HeapSlot? && s.chunk == c && s.index < allocSize && s !in heapInUse))
      && (forall s :: s in heapInUse ==>
            s.HeapSlot? && heapInUse[s] == s.chunk && s.chunk in heapAvail && s.index < allocSize)
    }

    /** Every slot handed out and not given back. */
    function InUse(): set<Slot>
      reads this
    {
      stackInUse + heapInUse.Keys
    }

    /** `ReusableAllocator()`: every stack slot is free, pushed in address
        order, so the last one is handed out first. */
    constructor (allocSize: nat)
      requires allocSize >= 1
      ensures Valid() && this.allocSize == allocSize
      ensures stackAvail == StackSlots(allocSize) && InUse() == {} && heapAvail == map[]
    {
      this.allocSize := allocSize;
      stackInUse, heapAvail, heapInUse, nextChunk := {}, map[], map[], 0;
      var slots := [];
      var i := 0;
      while i < allocSize
        invariant 0 <= i <= allocSize
        invariant slots == StackSlots(i)
      {
        slots := slots + [StackSlot(i)];
        i := i + 1;
      }
      stackAvail := slots;
    }

    /** `allocate`: the last free stack slot if there is one; else the last
        free slot of some live chunk; else a new chunk of `allocSize` slots
        whose last slot is handed out. The slot was not in use and now is. */
    method Allocate() returns (r: Slot)
      requires Valid()
      modifies this
      ensures Valid()
      ensures r != Null && r !in old(InUse()) && InUse() == old(InUse()) + {r}
      ensures old(stackAvail) != [] ==>
        r == old(stackAvail)[|old(stackAvail)| - 1] && stackAvail == old(stackAvail)[..|old(stackAvail)| - 1]
        && heapAvail == old(heapAvail)
      ensures old(stackAvail) == [] ==> r.HeapSlot? && stackAvail == []
      ensures old(stackAvail) == [] && r.chunk in old(heapAvail) ==>
        old(heapAvail)[r.chunk] != [] && r == Last(old(heapAvail)[r.chunk])
        && heapAvail == old(heapAvail)[r.chunk := old(heapAvail)[r.chunk][..|old(heapAvail)[r.chunk]| - 1]]
      ensures old(stackAvail) == [] && r.chunk !in old(heapAvail) ==>
        (forall c :: c in old(heapAvail) ==> old(heapAvail)[c] == [])
        && r == HeapSlot(old(nextChunk), allocSize - 1)
    {
      if stackAvail != [] {
        r := stackAvail[|stackAvail| - 1];
        stackAvail := stackAvail[..|stackAvail| - 1];
        stackInUse := stackInUse + {r};
        return;
      }
      if c :| c in heapAvail && heapAvail[c] != [] {
        r := PopChunk(c);
        return;
      }
      var c := NewChunk();
      r := PopChunk(c);
    }

    /** The chunk step of `allocate`: a new chunk is obtained and all its
        slots are free, in address order. */
    method NewChunk() returns (c: nat)
      requires Valid() && stackAvail == []
      modifies this
      ensures c == old(nextChunk) && nextChunk == c + 1 && c !in old(heapAvail)
      ensures heapAvail == old(heapAvail)[c := ChunkSlots(c, allocSize)]
      ensures stackAvail == [] && stackInUse == old(stackInUse) && heapInUse == old(heapInUse)
      ensures ValidBut(c)
    {
      c := nextChunk;
      var slots := [];
      var i := 0;
      while i < allocSize
        invariant 0 <= i <= allocSize
        invariant slots == ChunkSlots(c, i)
      {
        slots := slots + [HeapSlot(c, i)];
        i := i + 1;
      }
      nextChunk := nextChunk + 1;
      heapAvail := heapAvail[c := slots];
    }

    /** The heap step of `allocate`: the last free slot of chunk `c`. */
    method PopChunk(c: nat) returns (r: Slot)
      requires c in heapAvail && heapAvail[c] != [] && stackAvail == []
      requires ValidBut(c)
      modifies this
      ensures Valid() && stackAvail == [] && stackInUse == old(stackInUse) && nextChunk == old(nextChunk)
      ensures r == Last(old(heapAvail)[c]) && r !in old(InUse()) && InUse() == old(InUse()) + {r}
      ensures heapAvail == old(heapAvail)[c := old(heapAvail)[c][..|old(heapAvail)[c]| - 1]]
    {
      var free := heapAvail[c];
      r := free[|free| - 1];
      heapAvail := heapAvail[c := free[..|free| - 1]];
      heapInUse := heapInUse[r := c];
    }

    /** `Valid`, except that chunk `c` may have every slot free (it is the
        chunk `allocate` is about to take from). */
    predicate ValidBut(c: nat)
      reads this
    {
      && allocSize >= 1
      && Distinct(stackAvail)
      && (forall i :: 0 <= i < |stackAvail| ==>
            stackAvail[i].StackSlot? && stackAvail[i].index < allocSize && stackAvail[i] !in stackInUse)
      && (forall s :: s in stackInUse ==> s.StackSlot? && s.index < allocSize)
      && (forall d :: d in heapAvail ==>
            && d < nextChunk
            && Distinct(heapAvail[d])
            && |heapAvail[d]| <= allocSize
            && (d != c ==> |heapAvail[d]| < allocSize)
            && (forall i :: 0 <= i < |heapAvail[d]| ==>
                  var s := heapAvail[d][i];
                  s.HeapSlot? && s.chunk == d && s.index < allocSize && s !in heapInUse))
      && (forall s :: s in heapInUse ==>
            s.HeapSlot? && heapInUse[s] == s.chunk && s.chunk in heapAvail && s.index < allocSize)
    }

    /** `deallocate`: a stack slot in use goes back on the stack's free
        list; a heap slot in use goes back on its chunk's free list, and the
        chunk is given back once all its slots are free; anything else is
        ignored. */
    method Deallocate(item: Slot)
      requires Valid()
      modifies this
      ensures Valid() && nextChunk == old(nextChunk)
      ensures InUse() == old(InUse()) - {item}
      ensures item !in old(InUse()) ==>
        stackAvail == old(stackAvail) && heapAvail == old(heapAvail) && heapInUse == old(heapInUse)
        && stackInUse == old(stackInUse)
      ensures item in old(stackInUse) ==>
        stackAvail == old(stackAvail) + [item] && heapAvail == old(heapAvail)
        && stackInUse == old(stackInUse) - {item} && heapInUse == old(heapInUse)
      ensures item in old(heapInUse) ==>
        stackAvail == old(stackAvail) && stackInUse == old(stackInUse)
        && heapInUse == old(heapInUse) - {item}
        && var c := item.chunk;
           var free := old(heapAvail)[c] + [item];
           if |free| == allocSize then heapAvail == old(heapAvail) - {c}
           else heapAvail == old(heapAvail)[c := free]
    {
      if item in stackInUse {
        stackAvail := stackAvail + [item];
        stackInUse := stackInUse - {item};
        return;
      }
      if item in heapInUse {
        ReleaseHeap(item);
      }
    }

    /** The heap branch of `deallocate`. */
    method ReleaseHeap(item: Slot)
      requires Valid() && item in heapInUse
      modifies this
      ensures Valid() && nextChunk == old(nextChunk)
      ensures stackAvail == old(stackAvail) && stackInUse == old(stackInUse)
      ensures heapInUse == old(heapInUse) - {item}
      ensures var c := item.chunk;
        var free := old(heapAvail)[c] + [item];
        if |free| == allocSize then heapAvail == old(heapAvail) - {c}
        else heapAvail == old(heapAvail)[c := free]
    {
      var c := heapInUse[item];
      var free := heapAvail[c] + [item];
      if |free| == allocSize {
        Covers(free, c, allocSize);
        heapAvail := heapAvail - {c};
      } else {
        heapAvail := heapAvail[c := free];
      }
      heapInUse := heapInUse - {item};
    }
  }

  function Last(xs: seq<Slot>): Slot
    requires xs != []
  {
    xs[|xs| - 1]
  }

  /** With every stack slot and every slot of one chunk in use, giving back
      a stack slot `p` and a heap slot `h` and allocating twice yields `p`
      and then `h`: stack slots come first, and a slot given back is the
      next one handed out. */
  method StackPreferred(a: ReusableAllocator, p: Slot, h: Slot) returns (x: Slot, y: Slot)
    requires a.Valid() && a.allocSize >= 2
    requires a.stackAvail == [] && forall c :: c in a.heapAvail ==> a.heapAvail[c] == []
    requires p in a.stackInUse && h in a.heapInUse
    modifies a
    ensures x == p && y == h
  {
    GiveBack(a, p, h);
    x := a.Allocate();
    assert a.stackAvail == [] && a.heapAvail[h.chunk] == [h];
    y := a.Allocate();
  }

  /** The first half of `StackPreferred`: after giving back `p` and `h`,
      `p` is the only free stack slot and `h` the only free heap slot. */
  method GiveBack(a: ReusableAllocator, p: Slot, h: Slot)
    requires a.Valid() && a.allocSize >= 2
    requires a.stackAvail == [] && forall c :: c in a.heapAvail ==> a.heapAvail[c] == []
    requires p in a.stackInUse && h in a.heapInUse
    modifies a
    ensures a.Valid() && a.stackAvail == [p]
    ensures h.chunk in a.heapAvail && a.heapAvail[h.chunk] == [h]
    ensures forall c :: c in a.heapAvail && c != h.chunk ==> a.heapAvail[c] == []
  {
    a.Deallocate(p);
    assert a.stackAvail == [p] && h in a.heapInUse;
    a.Deallocate(h);
  }

  // ------------------------------------------------- the older version

  class LegacyAllocator {
    const allocSize: nat
    var avail: seq<Slot>
    var inUse: set<Slot>
    /** Every chunk obtained, freed only by the destructor. */
    var heap: seq<nat>
    var nextChunk: nat

    predicate Valid()
      reads this
    {
      allocSize >= 1 && forall i :: 0 <= i < |heap| ==> heap[i] < nextChunk
    }

    /** No slot is free twice or free and in use at once, `nullptr` is never
        handed out, and heap slots come from chunks already obtained. */
    predicate Sound()
      reads this
    {
      && Distinct(avail)
      && Null !in avail && Null !in inUse
      && (forall i :: 0 <= i < |avail| ==> avail[i] !in inUse)
      && (forall i :: 0 <= i < |avail| ==> avail[i].HeapSlot? ==> avail[i].chunk < nextChunk)
      && (forall s :: s in inUse && s.HeapSlot? ==> s.chunk < nextChunk)
    }

    /** `ReusableAllocator()` as written: `avail(alloc_size)` already holds
        `allocSize` null pointers before the stack slots are pushed. */
    constructor AsWritten(allocSize: nat)
      requires allocSize >= 1
      ensures Valid() && this.allocSize == allocSize
      ensures avail == Nulls(allocSize) + StackSlots(allocSize) && inUse == {} && heap == []
    {
      this.allocSize := allocSize;
      inUse, heap, nextChunk := {}, [], 0;
      var slots := Nulls(allocSize);
      var i := 0;
      while i < allocSize
        invariant 0 <= i <= allocSize
        invariant slots == Nulls(allocSize) + StackSlots(i)
      {
        slots := slots + [StackSlot(i)];
        i := i + 1;
      }
      avail := slots;
    }

    /** The constructor as intended: only the stack slots are free. */
    constructor (allocSize: nat)
      requires allocSize >= 1
      ensures Valid() && Sound() && this.allocSize == allocSize
      ensures avail == StackSlots(allocSize) && inUse == {} && heap == []
    {
      this.allocSize := allocSize;
      inUse, heap, nextChunk := {}, [], 0;
      var slots := [];
      var i := 0;
      while i < allocSize
        invariant 0 <= i <= allocSize
        invariant slots == StackSlots(i)
      {
        slots := slots + [StackSlot(i)];
        i := i + 1;
      }
      avail := slots;
    }

    /** `allocate`: pops the last free slot, first adding a new chunk's
        slots when none is free; chunks are never given back. */
    method Allocate() returns (r: Slot)
      requires Valid()
      modifies this
      ensures Valid() && inUse == old(inUse) + {r}
      ensures old(avail) != [] ==> r == Last(old(avail)) && avail == old(avail)[..|old(avail)| - 1] && heap == old(heap)
      ensures old(avail) == [] ==>
        r == HeapSlot(old(nextChunk), allocSize - 1) && heap == old(heap) + [old(nextChunk)]
        && avail == ChunkSlots(old(nextChunk), allocSize - 1)
      ensures Sound() <== old(Sound())
      ensures old(Sound()) ==> r != Null && r !in old(inUse)
    {
      if avail == [] {
        AddChunk();
        assert avail[..allocSize - 1] == ChunkSlots(old(nextChunk), allocSize - 1);
      }
      r := Take();
    }

    /** The chunk step of `allocate`: a new chunk is obtained and all its
        slots become free, in address order. */
    method AddChunk()
      requires Valid() && avail == []
      modifies this
      ensures Valid() && inUse == old(inUse) && nextChunk == old(nextChunk) + 1
      ensures heap == old(heap) + [old(nextChunk)] && avail == ChunkSlots(old(nextChunk), allocSize)
      ensures old(Sound()) ==> Sound()
    {
      var c := nextChunk;
      var slots := [];
      var i := 0;
      while i < allocSize
        invariant 0 <= i <= allocSize
        invariant slots == ChunkSlots(c, i)
      {
        slots := slots + [HeapSlot(c, i)];
        i := i + 1;
      }
      nextChunk := nextChunk + 1;
      heap := heap + [c];
      avail := slots;
    }

    /** The pop step of `allocate`: the last free slot is handed out. */
    method Take() returns (r: Slot)
      requires Valid() && avail != []
      modifies this
      ensures Valid() && heap == old(heap) && nextChunk == old(nextChunk)
      ensures r == Last(old(avail)) && avail == old(avail)[..|old(avail)| - 1] && inUse == old(inUse) + {r}
      ensures old(Sound()) ==> Sound() && r != Null && r !in old(inUse)
    {
      r := avail[|avail| - 1];
      avail := avail[..|avail| - 1];
      inUse := inUse + {r};
    }

    /** `deallocate`: a slot in use becomes the next one handed out;
        anything else is ignored. */
    method Deallocate(item: Slot)
      requires Valid()
      modifies this
      ensures Valid() && heap == old(heap) && inUse == old(inUse) - {item}
      ensures item in old(inUse) ==> avail == old(avail) + [item]
      ensures item !in old(inUse) ==> avail == old(avail)
      ensures Sound() <== old(Sound())
    {
      if item !in inUse {
        return;
      }
      inUse := inUse - {item};
      avail := avail + [item];
    }
  }

  /** As written, the `allocSize + 1`-th allocation of a new allocator hands
      out `nullptr`, after the stack slots in reverse order. */
  method NullAfterStack(n: nat) returns (slots: seq<Slot>)
    requires n >= 1
    ensures |slots| == n + 1
    ensures forall i :: 0 <= i < n ==> slots[i] == StackSlot(n - 1 - i)
    ensures slots[n] == Null
  {
    var a := new LegacyAllocator.AsWritten(n);
    slots := [];
    var k := 0;
    while k <= n
      invariant 0 <= k <= n + 1
      invariant a.Valid() && a.allocSize == n
      invariant k <= n ==> a.avail == Nulls(n) + StackSlots(n - k)
      invariant k == n + 1 ==> a.avail == Nulls(n - 1)
      invariant |slots| == k
      invariant forall i :: 0 <= i < k && i < n ==> slots[i] == StackSlot(n - 1 - i)
      invariant k == n + 1 ==> slots[n] == Null
    {
      ghost var before := a.avail;
      var s := a.Allocate();
      if k < n {
        assert before[..|before| - 1] == Nulls(n) + StackSlots(n - k - 1);
      } else {
        assert before == Nulls(n);
        assert before[..|before| - 1] == Nulls(n - 1);
      }
      slots := slots + [s];
      k := k + 1;
    }
  }

  /** The intended allocator never hands out `nullptr`, nor a slot already
      in use, whatever the calls. */
  method NoNullWhenFixed(n: nat, frees: seq<Slot>) returns (slots: seq<Slot>)
    requires n >= 1
    ensures |slots| == |frees| + 1
    ensures forall i :: 0 <= i < |slots| ==> slots[i] != Null
  {
    var a := new LegacyAllocator(n);
    var first := a.Allocate();
    slots := [first];
    var k := 0;
    while k < |frees|
      invariant 0 <= k <= |frees|
      invariant a.Valid() && a.Sound()
      invariant |slots| == k + 1
      invariant forall i :: 0 <= i < |slots| ==> slots[i] != Null
    {
      a.Deallocate(frees[k]);
      var s := a.Allocate();
      slots := slots + [s];
      k := k + 1;
    }
  }
}
