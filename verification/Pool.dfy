/** The growing object pool: blocks of slots, each with a stack of its free slots. */
module Pool {
  /** A pointer to a pool object, or the null pointer. */
  datatype Ptr<T> = Null | Obj(block: Block<T>, slot: nat)

  function Sum(s: seq<nat>): nat {
    if s == [] then 0 else s[0] + Sum(s[1..])
  }

  lemma {:induction false} SumSplit(s: seq<nat>, t: seq<nat>)
    ensures Sum(s + t) == Sum(s) + Sum(t)
  {
    if s == [] {
      assert s + t == t;
    } else {
      assert (s + t)[1..] == s[1..] + t;
      SumSplit(s[1..], t);
    }
  }

  lemma SumUpdate(s: seq<nat>, i: nat, v: nat)
    requires i < |s|
    ensures Sum(s[i := v]) == Sum(s) - s[i] + v
  {
    SumSplit(s[..i], s[i..]);
    SumSplit(s[..i], [v] + s[i + 1..]);
    assert s == s[..i] + s[i..] && s[i := v] == s[..i] + ([v] + s[i + 1..]);
  }

  /** The slots of `n` blocks, the first of `c` and the others of `2 * c` slots. */
  ghost function Room(c: nat, n: nat): nat {
    if n == 0 then 0 else if n == 1 then c else Room(c, n - 1) + 2 * c
  }

  lemma {:induction false} RoomIs(c: nat, n: nat)
    requires n > 0
    ensures Room(c, n) == c * (2 * n - 1)
  {
    if n > 1 {
      RoomIs(c, n - 1);
    }
  }

  /** The counters fall short of the room exactly when one block has a slot left. */
  lemma {:induction false} SumBound(s: seq<nat>, c: nat)
    requires forall i :: 0 <= i < |s| ==> s[i] <= if i == 0 then c else 2 * c
    ensures Sum(s) <= Room(c, |s|)
    ensures (exists i :: 0 <= i < |s| && s[i] < if i == 0 then c else 2 * c) <==> Sum(s) < Room(c, |s|)
  {
    if s != [] {
      var n := |s| - 1;
      assert s == s[..n] + [s[n]];
      SumSplit(s[..n], [s[n]]);
      SumBound(s[..n], c);
      assert forall i :: 0 <= i < n ==> s[..n][i] == s[i];
    }
  }

  /** As many different numbers below `n` as there are, are all of them. */
  lemma {:induction false} Pigeons(s: seq<nat>, n: nat, k: nat)
    requires |s| == n && (forall i :: 0 <= i < n ==> s[i] < n) && (forall i, j :: 0 <= i < j < n ==> s[i] != s[j])
      && k < n
    ensures k in s
  {
    if n - 1 !in s {
      assert forall i :: 0 <= i < n ==> s[i] in s && s[i] < n - 1;
      Crowded(s, n - 1);
    }
    var i :| 0 <= i < n && s[i] == n - 1;
    var t := s[..i] + s[i + 1..];
    if k < n - 1 {
      OneOut(s, i);
      assert forall a :: 0 <= a < |t| ==> t[a] < n - 1;
      Pigeons(t, n - 1, k);
      var j :| 0 <= j < n - 1 && t[j] == k;
      assert s[if j < i then j else j + 1] == k;
    }
  }

  lemma OneOut(s: seq<nat>, i: nat)
    requires i < |s| && forall a, b :: 0 <= a < b < |s| ==> s[a] != s[b]
    ensures var t := s[..i] + s[i + 1..];
      && (forall a, b :: 0 <= a < b < |t| ==> t[a] != t[b])
      && forall a :: 0 <= a < |t| ==> t[a] != s[i] && t[a] in s
  {
  }

  lemma {:induction false} Crowded(s: seq<nat>, n: nat)
    requires |s| > n && (forall i :: 0 <= i < |s| ==> s[i] < n) && forall i, j :: 0 <= i < j < |s| ==> s[i] != s[j]
    ensures false
  {
    assert s[0] < n;
    if n > 0 {
      if i :| 0 <= i < |s| && s[i] == n - 1 {
        OneOut(s, i);
        Crowded(s[..i] + s[i + 1..], n - 1);
      } else {
        Crowded(s, n - 1);
      }
    }
  }

  lemma {:induction false} DistinctSize(s: seq<nat>, t: set<nat>)
    requires (forall i, j :: 0 <= i < j < |s| ==> s[i] != s[j]) && forall k: nat :: k in t <==> k in s
    ensures |t| == |s|
  {
    if s == [] {
      assert t == {};
    } else {
      assert s[0] !in s[1..];
      DistinctSize(s[1..], t - {s[0]});
    }
  }

  /** The numbers below `n`. */
  ghost function Numbers(n: nat): (r: set<nat>)
    ensures |r| == n && forall s: nat :: s in r <==> s < n
  {
    if n == 0 then {} else Numbers(n - 1) + {n - 1}
  }

  class Block<T> {
    const capacity: nat
    const pool: array<T>
    const freeList: array<Ptr<T>>
    var freeListTop: nat
    var used: nat
    var next: Block?<T>

    /** createNewPool */
    constructor (capacity: nat, zero: T)
      requires capacity > 0
      ensures Ok() && this.capacity == capacity && freeListTop == capacity && next == null
      ensures fresh(pool) && fresh(freeList) && (pool as object) != (freeList as object)
      ensures forall s :: 0 <= s < capacity ==> pool[s] == zero && freeList[s] == Obj(this, s)
    {
      this.capacity := capacity;
      pool := new T[capacity](_ => zero);
      freeList := new Ptr<T>[capacity](_ => Null);
      used, freeListTop, next := 0, 0, null;
      new;
      for i := 0 to capacity
        invariant forall j :: 0 <= j < i ==> freeList[j] == Obj(this, j)
        invariant used == 0 && next == null && freeListTop == 0
        invariant forall s :: 0 <= s < capacity ==> pool[s] == zero
        invariant fresh(pool) && fresh(freeList) && fresh(this)
        modifies freeList
      {
        freeList[i] := Obj(this, i);
      }
      freeListTop := capacity;
    }

    /** Live and free objects share the block; the stack holds each free one once. */
    ghost predicate Ok()
      reads this`used, this`freeListTop, freeList
    {
      && capacity > 0 && pool.Length == capacity && freeList.Length == capacity
      && used + freeListTop == capacity
      && (forall i {:trigger freeList[i]} :: 0 <= i < freeListTop ==>
        freeList[i].Obj? && freeList[i].block == this && freeList[i].slot < capacity)
      && (forall i, j {:trigger freeList[i], freeList[j]} :: 0 <= i < j < freeListTop ==> freeList[i] != freeList[j])
    }

    /** The free pointers, the topmost last. */
    ghost function Stack(): (s: seq<Ptr<T>>)
      reads this`freeListTop, freeList
      ensures freeListTop <= freeList.Length ==> s == freeList[..freeListTop]
    {
      if freeListTop <= freeList.Length then freeList[..freeListTop] else []
    }

    /** The slots on the stack. */
    ghost function FreeSlots(): set<nat>
      requires Ok()
      reads this`used, this`freeListTop, freeList
    {
      set i | 0 <= i < freeListTop :: freeList[i].slot
    }

    /** A full stack holds every slot. */
    lemma FullStack()
      requires Ok() && freeListTop == capacity
      ensures forall s: nat :: s < capacity ==> s in FreeSlots()
    {
      var slots := Slots(capacity);
      forall s: nat | s < capacity
        ensures s in FreeSlots()
      {
        Pigeons(slots, capacity, s);
        var i :| 0 <= i < capacity && slots[i] == s;
        assert freeList[i].slot == s;
      }
    }

    ghost function Slots(n: nat): (r: seq<nat>)
      requires Ok() && n <= freeListTop
      reads this`used, this`freeListTop, freeList
      ensures |r| == n && forall i :: 0 <= i < n ==> r[i] == freeList[i].slot
    {
      if n == 0 then [] else Slots(n - 1) + [freeList[n - 1].slot]
    }

    /** The end of objectPoolAlloc: the topmost pointer, after the range check. */
    method Take() returns (r: Ptr<T>)
      requires Ok() && freeListTop > 0
      modifies this`used, this`freeListTop
      ensures Ok() && r.Obj? && r.block == this && r.slot < capacity && used == old(used) + 1
      ensures r.slot in old(FreeSlots()) && FreeSlots() == old(FreeSlots()) - {r.slot}
      ensures old(freeList[..freeListTop]) == freeList[..freeListTop] + [r] && old(Stack()) == Stack() + [r]
    {
      if freeListTop == 0 {
        return Null;
      }
      freeListTop := freeListTop - 1;
      r := freeList[freeListTop];
      if r.Null? || r.block != this || r.slot >= capacity {
        return Null;
      }
      used := used + 1;
      assert forall s :: s in old(FreeSlots()) && s != r.slot ==>
        exists i {:trigger freeList[i]} :: 0 <= i < freeListTop && freeList[i].slot == s;
    }

    /** The end of objectPoolFree: the pointer goes on top. */
    method Put(o: Ptr<T>)
      requires Ok() && o.Obj? && o.block == this && o.slot < capacity && o.slot !in FreeSlots()
        && freeListTop < capacity
      modifies this`used, this`freeListTop, freeList
      ensures Ok() && used == old(used) - 1 && FreeSlots() == old(FreeSlots()) + {o.slot}
      ensures freeList[..freeListTop] == old(freeList[..freeListTop]) + [o] && Stack() == old(Stack()) + [o]
    {
      ghost var was := FreeSlots();
      freeList[freeListTop] := o;
      freeListTop := freeListTop + 1;
      used := used - 1;
      assert freeList[freeListTop - 1].slot == o.slot;
      forall s | s in was
        ensures s in set i | 0 <= i < freeListTop :: freeList[i].slot
      {
        var i :| 0 <= i < freeListTop - 1 && old(freeList[i]).slot == s;
        assert freeList[i].slot == s;
      }
    }
  }

  class ObjectPool<T> {
    const zero: T
    const initialCapacity: nat
    var pools: Block?<T>
    var currentPool: Block?<T>
    ghost var blocks: seq<Block<T>>
    ghost var live: set<Ptr<T>>
    ghost var peak: nat
    ghost var Repr: set<object>

    /** The chain of blocks from `pools`. */
    ghost predicate Chained()
      reads this`pools, this`currentPool, this`blocks, blocks`next
    {
      && |blocks| > 0 && pools == blocks[0] && currentPool in blocks
      && (forall i :: 0 <= i < |blocks| - 1 ==> blocks[i].next == blocks[i + 1])
      && blocks[|blocks| - 1].next == null
      && (forall i, j :: 0 <= i < j < |blocks| ==> blocks[i] != blocks[j])
    }

    /** Blocks have their own arrays. */
    static ghost predicate Apart(bs: seq<Block<T>>, repr: set<object>) {
      && (forall b {:trigger b in bs} :: b in bs ==>
        b in repr && b.pool in repr && b.freeList in repr && b.pool.Length == b.capacity == b.freeList.Length)
      && (forall b, c {:trigger b.pool, c.pool} :: b in bs && c in bs && b != c ==> b.pool != c.pool)
      && (forall b, c {:trigger b.freeList, c.freeList} :: b in bs && c in bs && b != c ==> b.freeList != c.freeList)
      && (forall b, c {:trigger b.pool, c.freeList} :: b in bs && c in bs ==>
        (b.pool as object) != (c.freeList as object))
    }

    static lemma ApartNext(bs: seq<Block<T>>, repr: set<object>, b: Block<T>)
      requires Apart(bs, repr) && b.pool !in repr && b.freeList !in repr && (b.pool as object) != (b.freeList as object)
        && b.pool.Length == b.capacity == b.freeList.Length
      ensures Apart(bs + [b], repr + {b, b.pool, b.freeList})
    {
    }

    static ghost predicate BlockOk(b: Block<T>, live: set<Ptr<T>>)
      reads b`used, b`freeListTop, b.freeList
    {
      b.Ok() && Split(b, live, b.FreeSlots())
    }

    /** Every object of the block is live or free. */
    static ghost predicate Split(b: Block<T>, live: set<Ptr<T>>, free: set<nat>) {
      forall s: nat {:trigger Obj(b, s) in live} :: s < b.capacity ==> (Obj(b, s) in live <==> s !in free)
    }

    static lemma SplitTaken(b: Block<T>, live: set<Ptr<T>>, free: set<nat>, r: Ptr<T>)
      requires Split(b, live, free) && r.Obj?
      ensures Split(b, live + {r}, if r.block == b then free - {r.slot} else free)
      ensures r.block == b && r.slot in free && r.slot < b.capacity ==> r !in live
    {
    }

    static lemma SplitPut(b: Block<T>, live: set<Ptr<T>>, free: set<nat>, r: Ptr<T>)
      requires Split(b, live, free) && r.Obj?
      ensures Split(b, live - {r}, if r.block == b then free + {r.slot} else free)
    {
    }

    /** The `used` counters of the blocks. */
    static ghost function Counts(bs: seq<Block<T>>): (r: seq<nat>)
      reads bs`used
      ensures |r| == |bs| && forall i :: 0 <= i < |bs| ==> r[i] == bs[i].used
    {
      if bs == [] then [] else [bs[0].used] + Counts(bs[1..])
    }

    /** How many blocks there are is settled by the peak of live objects. */
    ghost predicate Grown()
      reads this`live, this`peak, this`blocks, blocks`used
    {
      && (forall i {:trigger blocks[i]} :: 0 <= i < |blocks| ==>
        blocks[i].capacity == if i == 0 then initialCapacity else 2 * initialCapacity)
      && |live| == Sum(Counts(blocks)) && |live| <= peak <= Room(initialCapacity, |blocks|)
      && (|blocks| > 1 ==> Room(initialCapacity, |blocks| - 1) < peak)
    }

    ghost predicate Valid()
      reads this, blocks, Repr
    {
      && initialCapacity > 0 && this in Repr && Apart(blocks, Repr) && Chained()
      && (forall b {:trigger BlockOk(b, live)} :: b in blocks ==> BlockOk(b, live))
      && (forall o {:trigger o in live} :: o in live ==> o.Obj? && o.block in blocks && o.slot < o.block.capacity)
      && Grown()
    }

    /** What the live objects hold. */
    ghost function Contents(): map<Ptr<T>, T>
      requires Valid()
      reads this, blocks, Repr
    {
      map o | o in live :: Content(o)
    }

    ghost function Content(o: Ptr<T>): T
      requires o.Obj? && o.slot < o.block.pool.Length
      reads this, o.block.pool
    {
      o.block.pool[o.slot]
    }

    /** No free object holds anything. */
    ghost predicate Clean()
      requires Valid()
      reads this, blocks, Repr
    {
      forall b, s {:trigger b.pool[s]} :: b in blocks && 0 <= s < b.capacity && Obj(b, s) !in live ==> b.pool[s] == zero
    }

    lemma Footprint()
      requires Valid()
      ensures this in Repr && (forall b :: b in blocks ==> b in Repr) && Contents().Keys == live && Null !in live
      ensures forall o {:trigger o in live} :: o in live ==>
        o.Obj? && o.block in Repr && o.block.pool in Repr && o.block.freeList in Repr
    {
    }

    lemma ContentOf(o: Ptr<T>)
      requires Valid() && o in live
      ensures o in Contents() && o.Obj? && o.slot < o.block.pool.Length && Contents()[o] == Content(o)
    {
    }

    /** objectPoolInit: null for its -1. */
    static method Init(initialCapacity: nat, zero: T) returns (r: ObjectPool?<T>)
      ensures r == null <==> initialCapacity == 0
      ensures r != null ==> r.Valid() && fresh(r.Repr) && r.zero == zero && r.initialCapacity == initialCapacity
      ensures r != null ==> r.Contents() == map[] && r.live == {} && r.Clean() && r.peak == 0
      ensures r != null ==> r.blocks == [r.currentPool]
      ensures r != null ==>
        var s := r.blocks[0].Stack();
        |s| == initialCapacity && forall i :: 0 <= i < |s| ==> s[i] == Obj(r.blocks[0], i)
    {
      if initialCapacity == 0 {
        return null;
      }
      r := new ObjectPool(initialCapacity, zero);
    }

    /** The part of objectPoolInit after its check of the capacity. */
    constructor (initialCapacity: nat, zero: T)
      requires initialCapacity > 0
      ensures Valid() && fresh(Repr) && this.zero == zero && this.initialCapacity == initialCapacity
      ensures Contents() == map[] && live == {} && Clean() && peak == 0 && blocks == [currentPool]
      ensures
        var s := blocks[0].Stack();
        |s| == initialCapacity && forall i :: 0 <= i < |s| ==> s[i] == Obj(blocks[0], i)
    {
      this.initialCapacity, this.zero := initialCapacity, zero;
      var first := new Block<T>(initialCapacity, zero);
      pools, currentPool := first, first;
      blocks, live, peak := [first], {}, 0;
      new;
      Repr := {this, first, first.pool, first.freeList};
      forall s: nat | s < first.capacity
        ensures s in first.FreeSlots()
      {
        assert first.freeList[s].slot == s;
      }
      assert Counts(blocks) == [0];
    }

    /** The first block with a free object, if there is one. */
    method FindBlock() returns (b: Block?<T>)
      requires Valid()
      modifies this`currentPool
      ensures Valid() && currentPool == if b == null then old(currentPool) else b
      ensures old(currentPool) != null && old(currentPool).freeListTop > 0 ==> b == old(currentPool)
      ensures !(old(currentPool) != null && old(currentPool).freeListTop > 0) && b != null ==>
        exists i :: 0 <= i < |blocks| && b == blocks[i] && forall j :: 0 <= j < i ==> blocks[j].freeListTop == 0
      ensures b != null ==> b in blocks && b.freeListTop > 0
      ensures b == null ==> forall c :: c in blocks ==> c.freeListTop == 0
    {
      hide Grown, BlockOk, Apart;
      if currentPool != null && currentPool.freeListTop > 0 {
        return currentPool;
      }
      b := pools;
      ghost var i := 0;
      while b != null
        invariant 0 <= i <= |blocks| && b == if i < |blocks| then blocks[i] else null
        invariant forall j :: 0 <= j < i ==> blocks[j].freeListTop == 0
        decreases |blocks| - i
      {
        if b.freeListTop > 0 {
          currentPool := b;
          return;
        }
        b := b.next;
        i := i + 1;
      }
    }

    /** The new block becomes the last and the current one. */
    method Append(b: Block<T>)
      requires Chained() && b !in blocks && b.next == null
      modifies this`currentPool, this`blocks, blocks`next
      ensures Chained() && blocks == old(blocks) + [b] && currentPool == b
    {
      var last := pools;
      ghost var i := 0;
      while last.next != null
        invariant 0 <= i < |blocks| && last == blocks[i] && last.next == if i + 1 < |blocks| then blocks[i + 1]
          else null
        decreases |blocks| - i
        modifies {}
      {
        last := last.next;
        i := i + 1;
      }
      last.next := b;
      assert forall j :: 0 <= j < i ==> blocks[j] != last;
      ghost var bs := blocks;
      currentPool := b;
      blocks := blocks + [b];
      forall j | 0 <= j < |blocks| - 1
        ensures blocks[j].next == blocks[j + 1]
      {
        assert blocks[j] == bs[j];
        assert j < |bs| - 1 ==> old(bs[j].next) == bs[j + 1];
      }
    }

    /** With every slot taken, one more object needs one more block. */
    lemma Fills()
      requires Valid() && forall c :: c in blocks ==> c.freeListTop == 0
      ensures |live| == Sum(Counts(blocks)) == Room(initialCapacity, |blocks|) && blocks != [] && peak <= |live|
      ensures forall i {:trigger blocks[i]} :: 0 <= i < |blocks| ==>
        blocks[i].capacity == if i == 0 then initialCapacity else 2 * initialCapacity
    {
      var cs := Counts(blocks);
      forall i | 0 <= i < |cs|
        ensures cs[i] == if i == 0 then initialCapacity else 2 * initialCapacity
      {
        assert BlockOk(blocks[i], live);
      }
      SumBound(cs, initialCapacity);
    }

    static lemma {:induction false} CountsAppend(bs: seq<Block<T>>, b: Block<T>)
      ensures Counts(bs + [b]) == Counts(bs) + [b.used]
    {
    }

    lemma GrownNext(bs: seq<Block<T>>, b: Block<T>)
      requires blocks == bs + [b] && bs != [] && b.used == 0 && b.capacity == 2 * initialCapacity && initialCapacity > 0
      requires |live| == Sum(Counts(bs)) == Room(initialCapacity, |bs|) && peak == |live| + 1
      requires forall i {:trigger bs[i]} :: 0 <= i < |bs| ==>
        bs[i].capacity == if i == 0 then initialCapacity else 2 * initialCapacity
      ensures Grown()
    {
      CountsAppend(bs, b);
      SumSplit(Counts(bs), [b.used]);
      assert Sum([b.used]) == 0;
    }

    /** A new block at the end of the chain, of twice the first capacity. */
    method Grow() returns (b: Block<T>)
      requires Valid() && forall c :: c in blocks ==> c.freeListTop == 0
      modifies this, blocks
      ensures Valid() && fresh(Repr - old(Repr)) && old(Repr) <= Repr
      ensures blocks == old(blocks) + [b] && currentPool == b && b.freeListTop == b.capacity && fresh(b) && b in blocks
      ensures live == old(live) && peak == |live| + 1 && old(peak) <= |live| && b.freeListTop > 0
      ensures |b.Stack()| == 2 * initialCapacity && forall i :: 0 <= i < |b.Stack()| ==> b.Stack()[i] == Obj(b, i)
      ensures forall c {:trigger c.Stack()} :: c in old(blocks) ==> c.Stack() == old(c.Stack())
      ensures forall s :: 0 <= s < b.capacity ==> b.pool[s] == zero
    {
      hide Counts, Sum, BlockOk, Grown, Chained, Apart;
      Fills();
      ghost var bs := blocks;
      b := new Block<T>(2 * initialCapacity, zero);
      ApartNext(blocks, Repr, b);
      Append(b);
      peak := |live| + 1;
      Repr := Repr + {b, b.pool, b.freeList};
      GrownNext(bs, b);
      NewBlockOk(b);
      forall c | c in blocks
        ensures BlockOk(c, live)
      {
        if c != b {
          assert old(BlockOk(c, live));
        }
      }
    }

    lemma NewBlockOk(b: Block<T>)
      requires b.Ok() && b.freeListTop == b.capacity
      requires forall s :: 0 <= s < b.capacity ==> b.freeList[s] == Obj(b, s)
      requires forall o :: o in live ==> o.Obj? && o.block != b
      ensures BlockOk(b, live)
    {
      forall s: nat | s < b.capacity
        ensures s in b.FreeSlots()
      {
        assert b.freeList[s].slot == s;
      }
    }

    static function Max(a: nat, b: nat): nat {
      if a < b then b else a
    }

    /** The counter of one block moves by one, as does the number of live objects. */
    lemma GrownStep(cs: seq<nat>, i: nat)
      requires i < |blocks| && |cs| == |blocks| && blocks[i].used == cs[i] - Sum(cs) + |live|
      requires forall j :: 0 <= j < |blocks| && j != i ==> blocks[j].used == cs[j]
      requires forall j {:trigger blocks[j]} :: 0 <= j < |blocks| ==>
        blocks[j].capacity == if j == 0 then initialCapacity else 2 * initialCapacity
      requires |live| <= peak <= Room(initialCapacity, |blocks|)
      requires |blocks| > 1 ==> Room(initialCapacity, |blocks| - 1) < peak
      ensures Grown()
    {
      assert Counts(blocks) == cs[i := blocks[i].used];
      SumUpdate(cs, i, blocks[i].used);
    }

    lemma IsGrown()
      requires Valid()
      ensures |Counts(blocks)| == |blocks| && forall i {:trigger blocks[i]} :: 0 <= i < |blocks| ==>
        Counts(blocks)[i] == blocks[i].used
      ensures forall i, j :: 0 <= i < j < |blocks| ==> blocks[i] != blocks[j]
      ensures |live| == Sum(Counts(blocks)) && |live| <= peak <= Room(initialCapacity, |blocks|)
      ensures |blocks| > 1 ==> Room(initialCapacity, |blocks| - 1) < peak
      ensures forall i {:trigger blocks[i]} :: 0 <= i < |blocks| ==>
        blocks[i].capacity == if i == 0 then initialCapacity else 2 * initialCapacity
    {
    }

    lemma HasRoom(b: Block<T>)
      requires Valid() && b in blocks && b.freeListTop > 0
      ensures |live| < Room(initialCapacity, |blocks|)
    {
      var cs := Counts(blocks);
      forall i | 0 <= i < |cs|
        ensures cs[i] <= if i == 0 then initialCapacity else 2 * initialCapacity
      {
        assert BlockOk(blocks[i], live);
      }
      var i :| 0 <= i < |blocks| && blocks[i] == b;
      assert BlockOk(b, live) && cs[i] < if i == 0 then initialCapacity else 2 * initialCapacity;
      SumBound(cs, initialCapacity);
    }

    /** The topmost free object of block `b` becomes live. */
    method TakeFrom(b: Block<T>) returns (r: Ptr<T>)
      requires b in blocks && b.freeListTop > 0 && forall c {:trigger BlockOk(c, live)} :: c in blocks ==>
        BlockOk(c, live)
      modifies this`live, b`used, b`freeListTop
      ensures r.Obj? && r.block == b && r.slot < b.capacity && r !in old(live) && live == old(live) + {r}
      ensures b.used == old(b.used) + 1 && old(b.Stack()) == b.Stack() + [r]
      ensures forall c {:trigger BlockOk(c, live)} :: c in blocks ==> BlockOk(c, live)
    {
      hide Split, Block.Ok, Block.FreeSlots;
      assert BlockOk(b, live);
      r := b.Take();
      SplitTaken(b, live, old(b.FreeSlots()), r);
      live := live + {r};
      forall c | c in blocks
        ensures BlockOk(c, live)
      {
        assert old(BlockOk(c, live));
        SplitTaken(c, old(live), old(c.FreeSlots()), r);
        if c != b {
          assert c.Ok();
          assert c.FreeSlots() == old(c.FreeSlots());
        }
        assert Split(c, live, c.FreeSlots());
      }
    }

    method Pop(b: Block<T>) returns (r: Ptr<T>)
      requires Valid() && b in blocks && b.freeListTop > 0
      modifies this`live, this`peak, b`used, b`freeListTop
      ensures r.Obj? && r.block == b && r.slot < b.capacity && r !in old(live)
      ensures Valid() && live == old(live) + {r} && peak == Max(old(peak), |live|) && old(b.Stack()) == b.Stack() + [r]
    {
      hide Grown, Sum, Apart, Room, BlockOk, Counts, Chained, Block.Stack;
      HasRoom(b);
      IsGrown();
      ghost var i :| 0 <= i < |blocks| && blocks[i] == b;
      r := TakeCounted(b, i);
    }

    /** One more live object, and the counters with it. */
    method TakeCounted(b: Block<T>, ghost i: nat) returns (r: Ptr<T>)
      requires Grown() && |live| < Room(initialCapacity, |blocks|)
      requires i < |blocks| && blocks[i] == b && b.freeListTop > 0
      requires forall j, k :: 0 <= j < k < |blocks| ==> blocks[j] != blocks[k]
      requires forall c {:trigger BlockOk(c, live)} :: c in blocks ==> BlockOk(c, live)
      modifies this`live, this`peak, b`used, b`freeListTop
      ensures r.Obj? && r.block == b && r.slot < b.capacity && r !in old(live) && live == old(live) + {r}
      ensures peak == Max(old(peak), |live|) && old(b.Stack()) == b.Stack() + [r] && Grown()
      ensures forall c {:trigger BlockOk(c, live)} :: c in blocks ==> BlockOk(c, live)
    {
      hide BlockOk, Sum, Room, Block.Stack;
      ghost var cs := Counts(blocks);
      r := TakeFrom(b);
      peak := Max(peak, |live|);
      GrownStep(cs, i);
    }

    /** A block with a free object, the current one if possible, a new one if need be. */
    method Supply() returns (b: Block<T>)
      requires Valid()
      modifies this, blocks
      ensures Valid() && fresh(Repr - old(Repr)) && old(Repr) <= Repr && b in blocks && b.freeListTop > 0
        && (b in old(blocks) || fresh(b))
      ensures live == old(live) && Contents() == old(Contents()) && (old(Clean()) ==> Clean())
      ensures peak == old(peak) || old(peak) <= |live| == peak - 1
      ensures currentPool == b && forall c {:trigger c.Stack()} :: c in old(blocks) ==> c.Stack() == old(c.Stack())
      ensures old(currentPool != null && currentPool.freeListTop > 0) ==> b == old(currentPool)
      ensures !old(currentPool != null && currentPool.freeListTop > 0) && b in old(blocks) ==>
        exists i :: 0 <= i < |old(blocks)| && b == old(blocks)[i]
          && forall j :: 0 <= j < i ==> old(blocks[j].freeListTop) == 0
      ensures b in old(blocks) ==> blocks == old(blocks)
      ensures b !in old(blocks) ==> forall c :: c in old(blocks) ==> old(c.freeListTop) == 0
      ensures b !in old(blocks) ==> blocks == old(blocks) + [b]
      ensures b !in old(blocks) ==>
        |b.Stack()| == 2 * initialCapacity && forall i :: 0 <= i < |b.Stack()| ==> b.Stack()[i] == Obj(b, i)
    {
      hide Grown, Counts, Chained, BlockOk, Block.Stack;
      var found := FindBlock();
      if found == null {
        b := Grow();
      } else {
        b := found;
      }
    }

    /** objectPoolAlloc */
    method Alloc() returns (r: Ptr<T>)
      requires Valid()
      modifies this, blocks
      ensures Valid() && fresh(Repr - old(Repr)) && old(Repr) <= Repr
      ensures r.Obj? && r !in old(live) && live == old(live) + {r} && peak == Max(old(peak), |live|)
      ensures currentPool == r.block
      ensures old(currentPool != null && currentPool.freeListTop > 0) ==> r.block == old(currentPool)
      ensures !old(currentPool != null && currentPool.freeListTop > 0) && r.block in old(blocks) ==>
        exists i :: 0 <= i < |old(blocks)| && r.block == old(blocks)[i]
          && forall j :: 0 <= j < i ==> old(blocks[j].freeListTop) == 0
      ensures r.block in old(blocks) ==> blocks == old(blocks) && old(r.block.Stack()) == r.block.Stack() + [r]
      ensures r.block !in old(blocks) ==> forall c :: c in old(blocks) ==> old(c.freeListTop) == 0
      ensures r.block !in old(blocks) ==> blocks == old(blocks) + [r.block] && r.slot == 2 * initialCapacity - 1
      ensures r.block !in old(blocks) ==>
        |r.block.Stack()| == r.slot && forall i :: 0 <= i < r.slot ==> r.block.Stack()[i] == Obj(r.block, i)
      ensures forall c {:trigger c.Stack()} :: c in old(blocks) && c != r.block ==> c.Stack() == old(c.Stack())
      ensures Contents() == old(Contents())[r := Content(r)]
      ensures old(Clean()) ==> Clean() && Content(r) == zero
    {
      hide Valid, Clean, Contents, Block.Stack;
      var b := Supply();
      ghost var s := b.Stack();
      r := AllocFrom(b);
      assert r == s[|s| - 1];
    }

    method AllocFrom(b: Block<T>) returns (r: Ptr<T>)
      requires Valid() && b in blocks && b.freeListTop > 0
      modifies this`live, this`peak, b`used, b`freeListTop
      ensures Valid() && Repr == old(Repr) && r.Obj? && r.block == b && old(b.Stack()) == b.Stack() + [r]
      ensures r.Obj? && r.slot < r.block.pool.Length && r !in old(live) && live == old(live) + {r}
      ensures peak == Max(old(peak), |live|)
      ensures Contents() == old(Contents())[r := Content(r)]
      ensures old(Clean()) ==> Clean() && Content(r) == zero
    {
      hide Grown, Counts, Chained, BlockOk, Block.Stack, Apart;
      InPool(b);
      r := Pop(b);
    }

    lemma InPool(b: Block<T>)
      requires Valid() && b in blocks
      ensures b.pool.Length == b.capacity
    {
      hide Grown, Chained, BlockOk;
    }

    /** A pointer into one of the blocks. */
    ghost predicate Ours(o: Ptr<T>)
      reads this`blocks
    {
      o.Obj? && o.block in blocks && o.slot < o.block.capacity
    }

    /** The block a pointer leads into, by the address ranges. */
    method Owner(o: Ptr<T>) returns (b: Block?<T>)
      requires Valid() && o.Obj?
      ensures if b == null then !Ours(o) else Ours(o) && o.block == b
    {
      hide Grown, BlockOk, Apart;
      var current := pools;
      ghost var i := 0;
      while current != null
        invariant 0 <= i <= |blocks| && current == if i < |blocks| then blocks[i] else null
        invariant o.slot < o.block.capacity ==> o.block !in blocks[..i]
        decreases |blocks| - i
      {
        if o.block == current && o.slot < current.capacity {
          return current;
        }
        assert blocks[..i + 1] == blocks[..i] + [blocks[i]];
        current := current.next;
        i := i + 1;
      }
      assert blocks[..i] == blocks;
      return null;
    }

    method PutInto(b: Block<T>, o: Ptr<T>)
      requires b in blocks && o.Obj? && o.block == b && o.slot < b.capacity && o in live
      requires Apart(blocks, Repr) && forall c {:trigger BlockOk(c, live)} :: c in blocks ==> BlockOk(c, live)
      modifies this`live, b`used, b`freeListTop, b.freeList
      ensures live == old(live) - {o} && b.used == old(b.used) - 1 && b.Stack() == old(b.Stack()) + [o]
      ensures forall c {:trigger BlockOk(c, live)} :: c in blocks ==> BlockOk(c, live)
    {
      hide Split, Block.FreeSlots;
      assert BlockOk(b, live);
      NotFree(b, o);
      if b.freeListTop < b.capacity {
        b.Put(o);
      }
      SplitPut(b, live, old(b.FreeSlots()), o);
      live := live - {o};
      forall c | c in blocks
        ensures BlockOk(c, live)
      {
        assert old(BlockOk(c, live));
        SplitPut(c, old(live), old(c.FreeSlots()), o);
        if c != b {
          assert c.freeList != b.freeList;
          assert c.Ok();
          assert c.FreeSlots() == old(c.FreeSlots());
        }
        assert Split(c, live, c.FreeSlots());
      }
    }

    /** A live object is not on the stack, and so the stack is not full. */
    lemma NotFree(b: Block<T>, o: Ptr<T>)
      requires BlockOk(b, live) && o.Obj? && o.block == b && o.slot < b.capacity && o in live
      ensures b.Ok() && o.slot !in b.FreeSlots() && b.freeListTop < b.capacity
    {
      assert Obj(b, o.slot) in live;
      if b.freeListTop == b.capacity {
        b.FullStack();
      }
    }

    method FreeLive(b: Block<T>, o: Ptr<T>)
      requires Valid() && o in live && o.block == b
      modifies this`live, b`used, b`freeListTop, b.freeList
      ensures b.Stack() == old(b.Stack()) + [o]
      ensures forall c {:trigger c.Stack()} :: c in blocks && c != b ==> c.Stack() == old(c.Stack())
      ensures Valid() && live == old(live) - {o} && Contents() == old(Contents()) - {o} && Repr == old(Repr)
      ensures old(Clean()) && old(Content(o)) == zero ==> Clean()
    {
      hide Grown, Sum, Room, BlockOk, Counts, Chained, Block.Stack;
      IsGrown();
      ghost var cs := Counts(blocks);
      ghost var i :| 0 <= i < |blocks| && blocks[i] == b;
      PutInto(b, o);
      GrownStep(cs, i);
    }

    /** The block and the free list that a live object goes back to. */
    ghost function Home(o: Ptr<T>): set<Block<T>>
      reads this`live
    {
      if o in live && o.Obj? then {o.block} else {}
    }

    ghost function HomeList(o: Ptr<T>): set<object>
      reads this`live
    {
      if o in live && o.Obj? then {o.block.freeList} else {}
    }

    /** objectPoolFree: null and pointers into no block are ignored. */
    method Free(o: Ptr<T>)
      requires Valid() && (Ours(o) ==> o in live)
      modifies this`live, Home(o)`used, Home(o)`freeListTop, HomeList(o)
      ensures Valid() && live == old(live) - {o} && Contents() == old(Contents()) - {o} && Repr == old(Repr)
      ensures old(Clean()) && (o in old(live) ==> old(Content(o)) == zero) ==> Clean()
      ensures o in old(live) ==> o.Obj? && o.block.Stack() == old(o.block.Stack()) + [o]
      ensures forall c {:trigger c.Stack()} :: c in blocks && (o in old(live) ==> c != o.block) ==>
        c.Stack() == old(c.Stack())
    {
      hide Grown, BlockOk, Chained, Clean;
      Footprint();
      if o == Null {
        return;
      }
      var b := Owner(o);
      if b != null {
        FreeLive(b, o);
      }
    }

    /** The pointer that was freed last to the current block is the next one handed out. */
    method FreeThenAlloc(o: Ptr<T>) returns (r: Ptr<T>)
      requires Valid() && o in live && o.block == currentPool
      modifies this, blocks, Home(o), HomeList(o)
      ensures r == o && Valid() && live == old(live) && blocks == old(blocks) && currentPool == old(currentPool)
      ensures forall b {:trigger b.Stack()} :: b in blocks ==> b.Stack() == old(b.Stack())
    {
      hide Valid, Contents, Clean, Block.Stack, Ours;
      Listed(o);
      Free(o);
      HasTop(currentPool);
      r := Alloc();
      LastOf(o.block.Stack(), r, old(o.block.Stack()), o);
    }

    lemma Listed(o: Ptr<T>)
      requires Valid() && o in live
      ensures o.Obj? && o.block in blocks
    {
    }

    lemma HasTop(b: Block<T>)
      requires Valid() && b in blocks && b.Stack() != []
      ensures b.freeListTop > 0
    {
    }

    static lemma LastOf(s: seq<Ptr<T>>, x: Ptr<T>, t: seq<Ptr<T>>, y: Ptr<T>)
      requires s + [x] == t + [y]
      ensures s == t && x == y
    {
      assert (s + [x])[|s|] == x && (t + [y])[|t|] == y && |s| == |t|;
      assert (s + [x])[..|s|] == s && (t + [y])[..|t|] == t;
    }

    /** What a live object holds. */
    method Read(o: Ptr<T>) returns (v: T)
      requires Valid() && o in live
      ensures v == Contents()[o]
    {
      hide Grown, Counts, Chained;
      v := o.block.pool[o.slot];
    }

    method Write(o: Ptr<T>, v: T)
      requires Valid() && o in live
      modifies o.block.pool
      ensures Valid() && Contents() == old(Contents())[o := v] && Repr == old(Repr)
      ensures old(Clean()) ==> Clean()
    {
      hide Grown, Counts, Chained;
      o.block.pool[o.slot] := v;
    }

    /** With initial capacity c there are 1 + k blocks, for the least k with c * (1 + 2 * k) not below the peak. */
    lemma BlockCount() returns (k: nat)
      requires Valid()
      ensures |blocks| == 1 + k && peak <= initialCapacity * (1 + 2 * k)
      ensures forall j: nat :: j < k ==> initialCapacity * (1 + 2 * j) < peak
    {
      k := |blocks| - 1;
      RoomIs(initialCapacity, |blocks|);
      if k > 0 {
        RoomIs(initialCapacity, k);
        forall j: nat | j < k
          ensures initialCapacity * (1 + 2 * j) < peak
        {
          Times(initialCapacity, 1 + 2 * j, 2 * k - 1);
        }
      }
    }

    static lemma Times(c: nat, a: nat, b: nat)
      requires a <= b
      ensures c * a <= c * b
    {
    }

    /** In every block, the counter `used` is the number of its live objects. */
    lemma Conservation(b: Block<T>)
      requires Valid() && b in blocks
      ensures |set s | s in Numbers(b.capacity) && Obj(b, s) in live| == b.used
      ensures b.Ok() && |b.FreeSlots()| == b.freeListTop && b.used + b.freeListTop == b.capacity
    {
      hide Grown, Chained, Apart;
      assert BlockOk(b, live);
      var taken := set s | s in Numbers(b.capacity) && Obj(b, s) in live;
      var free := b.FreeSlots();
      var stack := b.Slots(b.freeListTop);
      assert forall s: nat :: s in free <==> s in stack by {
        assert forall i :: 0 <= i < b.freeListTop ==> stack[i] == b.freeList[i].slot;
      }
      DistinctSize(stack, free);
      assert taken + free == Numbers(b.capacity);
    }
  }
}
