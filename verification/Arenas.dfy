/**
 * The arena allocator: a linked list of pools, each given out from its start, and the temporary
 * allocator that adds a pool when none has room.
 */
module Arenas {
  import opened PowersOfTwo
  import opened Sequences

  /** The size of the pool's own record at the start of its block. */
  const POOL_RECORD := 24

  class Pool {
    /** Where the block lies, and how much of it comes after the record. */
    const Address: nat
    const Size: nat
    var Used: nat
    var Next: Pool?
    /** The sizes of the allocations made from this pool, in order. */
    ghost var Sizes: seq<nat>

    ghost predicate Valid()
      reads this
    {
      Used == Sum(Sizes) && Used < Size
    }

    constructor (address: nat, size: nat)
      requires size > POOL_RECORD
      ensures Address == address && Size == size - POOL_RECORD && Used == 0 && Next == null && Sizes == []
      ensures Valid()
    {
      Address, Size, Used, Next, Sizes := address, size - POOL_RECORD, 0, null, [];
    }
  }

  /** The pools are linked in this order. */
  ghost predicate Linked(base: Pool?, pools: seq<Pool>)
    reads pools`Next
  {
    && Distinct(pools)
    && base == (if pools == [] then null else pools[0])
    && (forall i {:trigger NextIs(pools, i)} :: 0 <= i < |pools| ==> NextIs(pools, i))
  }

  ghost predicate NextIs(pools: seq<Pool>, i: nat)
    requires i < |pools|
    reads pools`Next
  {
    pools[i].Next == NextOf(pools, i)
  }

  function NextOf(pools: seq<Pool>, i: nat): Pool?
    requires i < |pools|
  {
    if i + 1 < |pools| then pools[i + 1] else null
  }

  /** A pool that the last one leads to is at the end of the list. */
  lemma LinkedAtEnd(base: Pool?, pools: seq<Pool>, pool: Pool)
    requires Distinct(pools) && pool !in pools && pool.Next == null
    requires base == (if pools == [] then pool else pools[0])
    requires forall k :: 0 <= k < |pools| - 1 ==> NextIs(pools, k)
    requires pools != [] ==> pools[|pools| - 1].Next == pool
    ensures Linked(base, pools + [pool])
  {
    var all := pools + [pool];
    assert Distinct(all);
    forall k | 0 <= k < |all|
      ensures NextIs(all, k)
    {
      assert k < |pools| - 1 ==> NextIs(pools, k);
    }
  }

  /** A pool that the one before it passes over is not in the list. */
  lemma LinkedWithout(base: Pool?, pools: seq<Pool>, i: nat)
    requires Distinct(pools) && i < |pools|
    requires base == (if i > 0 then pools[0] else NextOf(pools, 0))
    requires forall k :: 0 <= k < |pools| && k != i - 1 ==> NextIs(pools, k)
    requires i > 0 ==> pools[i - 1].Next == NextOf(pools, i)
    ensures Linked(base, Without(pools, i))
    ensures forall p :: p in Without(pools, i) ==> p in pools
    ensures TotalOf(pools) == TotalOf(Without(pools, i)) + pools[i].Used
  {
    hide Sum, UsedIn, Distinct;
    var r := Without(pools, i);
    WithoutIsDistinct(pools, i);
    forall k | 0 <= k < |r|
      ensures NextIs(r, k)
    {
      var m := if k < i then k else k + 1;
      assert m != i - 1 ==> NextIs(pools, m);
    }
    var was := UsedIn(pools);
    SumWithout(was, i);
    assert UsedIn(r) == was[..i] + was[i + 1..];
  }

  ghost function UsedIn(pools: seq<Pool>): (used: seq<nat>)
    reads pools`Used
    ensures |used| == |pools| && forall i :: 0 <= i < |pools| ==> used[i] == pools[i].Used
  {
    if pools == [] then [] else UsedIn(pools[..|pools| - 1]) + [pools[|pools| - 1].Used]
  }

  /** How much is used in all pools together. */
  ghost function TotalOf(pools: seq<Pool>): nat
    reads pools`Used
  {
    Sum(UsedIn(pools))
  }

  ghost predicate HasRoom(p: Pool, size: nat)
    reads p
  {
    p.Used + size < p.Size
  }

  /** What an allocation gives. The list of pools must not be empty, or its base is used although it is null. */
  datatype Outcome = Block(address: nat) | OutOfSpace | NullDereference

  class Arena {
    var Base: Pool?
    var PoolsCount: nat
    var TotalUsed: nat
    ghost var Pools: seq<Pool>

    ghost predicate Valid()
      reads this, Pools
    {
      && Linked(Base, Pools)
      && PoolsCount == |Pools|
      && (forall p :: p in Pools ==> p.Valid())
      && TotalUsed >= TotalOf(Pools)
    }

    /** How much of the total was used in pools that were removed since everything was freed. */
    ghost function Surplus(): nat
      requires Valid()
      reads this, Pools
    {
      TotalUsed - TotalOf(Pools)
    }

    constructor ()
      ensures Valid() && Pools == [] && Surplus() == 0
    {
      Base, PoolsCount, TotalUsed, Pools := null, 0, 0, [];
    }

    /** A block becomes a pool at the end of the list, if it is larger than the record. */
    method AddPool(address: nat, size: nat) returns (pool: Pool?)
      requires Valid()
      modifies this, Pools
      ensures Valid() && TotalUsed == old(TotalUsed)
      ensures pool == null <==> size <= POOL_RECORD
      ensures pool == null ==> Pools == old(Pools) && PoolsCount == old(PoolsCount) && Surplus() == old(Surplus())
      ensures pool != null ==>
        && fresh(pool) && Pools == old(Pools) + [pool] && Surplus() == old(Surplus())
        && pool.Address == address && pool.Size == size - POOL_RECORD && pool.Used == 0 && pool.Sizes == []
      ensures forall p :: p in old(Pools) ==> p.Used == old(p.Used) && p.Sizes == old(p.Sizes)
    {
      hide Sum, UsedIn, Distinct;
      if size <= POOL_RECORD {
        return null;
      }
      pool := new Pool(address, size);
      ghost var pools := Pools;
      if Base == null {
        Base := pool;
      } else {
        var it: Pool := Base;
        ghost var i := 0;
        assert NextIs(pools, 0);
        while it.Next != null
          invariant i < |pools| && it == pools[i]
          decreases |pools| - i
        {
          assert NextIs(pools, i);
          it := it.Next;
          i := i + 1;
        }
        assert NextIs(pools, i);
        OthersDiffer(pools, i);
        it.Next := pool;
      }
      PoolsCount := PoolsCount + 1;
      Pools := pools + [pool];
      forall k | 0 <= k < |pools| - 1
        ensures NextIs(pools, k)
      {
        assert old(NextIs(pools, k));
      }
      LinkedAtEnd(Base, pools, pool);
      SumNext(old(UsedIn(pools)), 0);
      assert UsedIn(Pools) == old(UsedIn(pools)) + [0];
    }

    /** The first pool with room, or the last pool. */
    method FindRoom(size: nat) returns (p: Pool, ghost i: nat)
      requires Valid() && Pools != []
      ensures i < |Pools| && p == Pools[i] && forall j :: 0 <= j < i ==> !HasRoom(Pools[j], size)
      ensures HasRoom(p, size) || i == |Pools| - 1
    {
      i := 0;
      p := Base;
      while p.Next != null
        invariant i < |Pools| && p == Pools[i]
        invariant forall j :: 0 <= j < i ==> !HasRoom(Pools[j], size)
        decreases |Pools| - i
      {
        if p.Used + size < p.Size {
          break;
        }
        assert NextIs(Pools, i);
        p := p.Next;
        i := i + 1;
      }
      assert NextIs(Pools, i);
    }

    ghost predicate Full(size: nat)
      reads this, Pools
    {
      forall p :: p in Pools ==> !HasRoom(p, size)
    }

    /** The i-th pool is the first one with room. */
    ghost predicate FirstWithRoom(i: nat, size: nat)
      reads this, Pools
    {
      i < |Pools| && HasRoom(Pools[i], size) && forall j :: 0 <= j < i ==> !HasRoom(Pools[j], size)
    }

    /** The next bytes of a pool with room. */
    method TakeFrom(p: Pool, size: nat, ghost i: nat) returns (address: nat)
      requires Valid() && i < |Pools| && Pools[i] == p && HasRoom(p, size)
      modifies this`TotalUsed, p`Used, p`Sizes
      ensures Valid() && Surplus() == old(Surplus()) && TotalUsed == old(TotalUsed) + size
      ensures address == p.Address + POOL_RECORD + old(p.Used) && p.Sizes == old(p.Sizes) + [size]
      ensures address == BlockStart(ShapeOf(p), |p.Sizes| - 1)
    {
      hide Sum, UsedIn, Distinct;
      address := p.Address + POOL_RECORD + p.Used;
      ghost var sizes := p.Sizes;
      assert p in Pools && p.Used == Sum(sizes);
      SumNext(sizes, size);
      ghost var was := UsedIn(Pools);
      p.Used, p.Sizes := p.Used + size, p.Sizes + [size];
      TotalUsed := TotalUsed + size;
      SumUpdated(was, i, was[i] + size);
      OneMoreUsed(Pools, i, was, size);
      assert ShapeOf(p).sizes[..|p.Sizes| - 1] == sizes;
    }

    lemma OneMoreUsed(pools: seq<Pool>, i: nat, was: seq<nat>, size: nat)
      requires Distinct(pools) && i < |pools| == |was|
      requires forall j :: 0 <= j < |pools| ==> pools[j].Used == if pools[j] == pools[i] then was[i] + size else was[j]
      ensures UsedIn(pools) == was[i := was[i] + size]
    {
      forall j | 0 <= j < |pools|
        ensures pools[j].Used == was[i := was[i] + size][j]
      {
        SameIndex(pools, i, j);
      }
    }

    /** The first pool with room gives out its next bytes; without room in any of them there is no block. */
    method Allocate(size: nat) returns (r: Outcome, ghost i: nat)
      requires Valid()
      modifies this`TotalUsed, Pools
      ensures Valid() && Surplus() == old(Surplus())
      ensures r == NullDereference <==> Pools == []
      ensures r == OutOfSpace <==> Pools != [] && forall p :: p in Pools ==> old(p.Used) + size >= p.Size
      ensures r == OutOfSpace <==> Pools != [] && old(Full(size))
      ensures !r.Block? ==> TotalUsed == old(TotalUsed)
      ensures r.Block? ==> i < |Pools| && old(Pools[i].Used) + size < Pools[i].Size
      ensures r.Block? ==> forall j :: 0 <= j < i ==> old(Pools[j].Used) + size >= Pools[j].Size
      ensures r.Block? ==> old(FirstWithRoom(i, size)) && TotalUsed == old(TotalUsed) + size
      ensures r.Block? ==> r.address == Pools[i].Address + POOL_RECORD + old(Pools[i].Used)
      ensures r.Block? ==> Pools[i].Sizes == old(Pools[i].Sizes) + [size]
      ensures r.Block? ==> r.address == BlockStart(ShapeOf(Pools[i]), |Pools[i].Sizes| - 1)
      ensures forall p :: p in Pools && !(r.Block? && p == Pools[i]) ==> p.Sizes == old(p.Sizes) && p.Used == old(p.Used)
    {
      hide Sum, UsedIn, Distinct;
      i := 0;
      if Base == null {
        return NullDereference, i;
      }
      var p;
      p, i := FindRoom(size);
      if p.Used + size >= p.Size {
        return OutOfSpace, i;
      }
      var address := TakeFrom(p, size, i);
      r := Block(address);
    }

    /** A position in the list is taken by one pool only. */
    lemma OthersDiffer(pools: seq<Pool>, k: nat)
      requires Distinct(pools) && k < |pools|
      ensures forall j :: 0 <= j < |pools| && j != k ==> pools[j] != pools[k]
    {
      forall j | 0 <= j < |pools| && j != k
        ensures pools[j] != pools[k]
      {
        SameIndex(pools, j, k);
      }
    }

    /** The pools are distinct and none is full to its end. */
    lemma AboutPools()
      requires Valid()
      ensures Distinct(Pools) && forall p :: p in Pools ==> p.Used == Sum(p.Sizes) < p.Size
      ensures Base == null <==> Pools == []
    {
    }

    /** Nothing is used any more. */
    method FreeAll()
      requires Valid()
      modifies this`TotalUsed, Pools
      ensures Valid() && TotalUsed == 0 && Surplus() == 0
      ensures forall p :: p in Pools ==> p.Used == 0 && p.Sizes == []
    {
      hide Sum, UsedIn, Distinct;
      SumOfZeros([]);
      var p := Base;
      ghost var i := 0;
      while p != null
        invariant i <= |Pools| && p == (if i < |Pools| then Pools[i] else null)
        invariant Linked(Base, Pools)
        invariant forall k :: 0 <= k < i ==> Pools[k].Used == 0 && Pools[k].Sizes == []
        invariant forall q :: q in Pools ==> q.Valid()
        decreases |Pools| - i
      {
        p.Used, p.Sizes := 0, [];
        assert NextIs(Pools, i);
        p := p.Next;
        i := i + 1;
      }
      TotalUsed := 0;
      SumOfZeros(UsedIn(Pools));
    }

    /** The pool that is looked for, or the last one, and the one before it. */
    method FindPool(pool: Pool) returns (it: Pool, prev: Pool?, ghost i: nat)
      requires Valid() && Pools != []
      ensures i < |Pools| && it == Pools[i] && prev == (if i == 0 then null else Pools[i - 1])
      ensures it == pool <==> pool in Pools
    {
      i := 0;
      it, prev := Base, null;
      while it != pool && it.Next != null
        invariant i < |Pools| && it == Pools[i] && prev == (if i == 0 then null else Pools[i - 1])
        invariant forall j :: 0 <= j < i ==> Pools[j] != pool
        decreases |Pools| - i
      {
        assert NextIs(Pools, i);
        prev := it;
        it := it.Next;
        i := i + 1;
      }
      assert NextIs(Pools, i);
    }

    /** A pool is taken out of the list. */
    method Unlink(it: Pool, prev: Pool?, ghost i: nat)
      requires Valid() && i < |Pools| && it == Pools[i] && prev == (if i == 0 then null else Pools[i - 1])
      modifies this`Base, this`PoolsCount, this`Pools, Pools`Next
      ensures Valid() && Pools == Without(old(Pools), i) && Surplus() == old(Surplus()) + it.Used
    {
      hide Sum, UsedIn, Distinct, Without;
      ghost var pools := Pools;
      assert NextIs(pools, i);
      if prev != null {
        OthersDiffer(pools, i - 1);
        prev.Next := it.Next;
      } else {
        Base := Base.Next;
      }
      PoolsCount := PoolsCount - 1;
      Pools := Without(pools, i);
      forall k | 0 <= k < |pools| && k != i - 1
        ensures NextIs(pools, k)
      {
        assert old(NextIs(pools, k));
      }
      LinkedWithout(Base, pools, i);
    }

    /**
     * A pool leaves the list. What was used in it stays in the total: the total is again the sum of
     * what is used in the pools if and only if nothing was used in the pool that left.
     */
    method RemovePool(pool: Pool) returns (removed: bool, ghost i: nat)
      requires Valid()
      modifies this`Base, this`PoolsCount, this`Pools, Pools`Next
      ensures Valid() && (removed <==> pool in old(Pools))
      ensures !removed ==> Pools == old(Pools) && Surplus() == old(Surplus())
      ensures removed ==> i < |old(Pools)| && old(Pools)[i] == pool && Pools == Without(old(Pools), i)
      ensures removed ==> Surplus() == old(Surplus()) + pool.Used
    {
      hide Without, Distinct;
      if Base == null {
        return false, 0;
      }
      var it, prev;
      it, prev, i := FindPool(pool);
      removed := it == pool;
      if removed {
        Unlink(it, prev, i);
      }
    }

    /** The size of the pool that is added for an allocation. */
    method TemporaryPoolSize(size: nat) returns (poolSize: nat)
      ensures poolSize > POOL_RECORD && if size <= 8192 then poolSize == 8192 else IsLeastPow2(poolSize, 2 * size)
      ensures size < poolSize - POOL_RECORD <==> !(0x2000 - POOL_RECORD <= size <= 0x2000)
    {
      poolSize := 0x2000;
      if poolSize < size {
        poolSize := CeilPow2Loop(size * 2);
      }
    }

    method AddTemporaryPool(size: nat, newBlock: nat)
      requires Valid() && Full(size)
      modifies this, Pools
      ensures Valid() && Surplus() == old(Surplus()) && TotalUsed == old(TotalUsed)
      ensures |Pools| == |old(Pools)| + 1 && old(Pools) <= Pools && fresh(Pools[|old(Pools)|])
      ensures Pools[|old(Pools)|].Address == newBlock && Pools[|old(Pools)|].Sizes == [] && Pools[|old(Pools)|].Used == 0
      ensures var added := Pools[|old(Pools)|].Size + POOL_RECORD;
        if size <= 8192 then added == 8192 else IsLeastPow2(added, 2 * size)
      ensures forall p :: p in old(Pools) ==> p.Sizes == old(p.Sizes) && p.Used == old(p.Used)
      ensures forall j :: 0 <= j < |old(Pools)| ==> !HasRoom(Pools[j], size)
      ensures Full(size) <==> 0x2000 - POOL_RECORD <= size <= 0x2000
    {
      hide Sum, UsedIn, Distinct, Linked;
      var poolSize := TemporaryPoolSize(size);
      var pool := AddPool(newBlock, poolSize);
      assert pool in Pools;
      forall p | p in old(Pools)
        ensures !HasRoom(p, size)
      {
        assert !old(HasRoom(p, size));
      }
    }

    /** The block that was just given out is the last one of the i-th pool. */
    ghost predicate GaveLast(i: nat, size: nat, address: nat)
      reads this, Pools
    {
      && i < |Pools| && Pools[i].Sizes != [] && Pools[i].Sizes[|Pools[i].Sizes| - 1] == size
      && address == BlockStart(ShapeOf(Pools[i]), |Pools[i].Sizes| - 1)
    }

    /**
     * The temporary allocator: when no pool has room it adds one that is meant to be large enough.
     * Without any pool it does not get that far, and for a few sizes the new pool is too small.
     */
    method AllocateTemporary(size: nat, newBlock: nat) returns (r: Outcome, ghost i: nat)
      requires Valid()
      modifies this, Pools
      ensures Valid() && Surplus() == old(Surplus())
      ensures r == NullDereference <==> old(Pools) == []
      ensures r == OutOfSpace <==> old(Pools) != [] && old(Full(size)) && 0x2000 - POOL_RECORD <= size <= 0x2000
      ensures r.Block? ==> GaveLast(i, size, r.address) && TotalUsed == old(TotalUsed) + size
      ensures forall p :: p in old(Pools) && !(r.Block? && p == Pools[i]) ==> p.Sizes == old(p.Sizes)
      ensures old(Pools) <= Pools
      ensures old(Pools != [] && Full(size)) ==>
        && |Pools| == |old(Pools)| + 1 && Pools[|old(Pools)|].Address == newBlock
        && (r.Block? ==> i == |old(Pools)| && r.address == newBlock + POOL_RECORD)
      ensures old(Pools != [] && Full(size)) && size <= 8192 ==> Pools[|old(Pools)|].Size + POOL_RECORD == 8192
      ensures old(Pools != [] && Full(size)) && size > 8192 ==> IsLeastPow2(Pools[|old(Pools)|].Size + POOL_RECORD, 2 * size)
      ensures !old(Pools != [] && Full(size)) ==> Pools == old(Pools) && (r.Block? ==> old(FirstWithRoom(i, size)))
    {
      hide Sum, UsedIn, Distinct, Linked, TotalOf, Full, BlockStart, IsLeastPow2, ShapeOf;
      r, i := Allocate(size);
      if r == OutOfSpace {
        StillFull(size);
        AddTemporaryPool(size, newBlock);
        r, i := Allocate(size);
      }
    }

    twostate lemma StillFull(size: nat)
      requires old(Full(size)) && Pools == old(Pools)
      requires forall p :: p in Pools ==> p.Used == old(p.Used)
      ensures Full(size)
    {
      forall p | p in Pools
        ensures !HasRoom(p, size)
      {
        assert !old(HasRoom(p, size));
      }
    }

    /** Freeing everything is what first adds a pool to the temporary allocator. */
    method FreeAllTemporary(newBlock: nat)
      requires Valid()
      modifies this, Pools
      ensures Valid() && Surplus() == 0 && TotalUsed == 0 && Pools != []
      ensures forall p :: p in Pools ==> p.Used == 0 && p.Sizes == []
      ensures if old(Pools) == [] then |Pools| == 1 && Pools[0].Address == newBlock && Pools[0].Size == 8192 - POOL_RECORD
              else Pools == old(Pools)
    {
      hide Sum, UsedIn, Distinct;
      if Base == null {
        var pool := AddPool(newBlock, 0x2000);
      }
      FreeAll();
    }
  }

  // ----- where blocks lie

  /** A pool as a value: where it is, how large it is, and the blocks it has given out. */
  datatype Shape = Shape(address: nat, size: nat, sizes: seq<nat>)

  ghost function ShapeOf(p: Pool): Shape
    reads p`Sizes
  {
    Shape(p.Address, p.Size, p.Sizes)
  }

  predicate Fits(s: Shape) {
    Sum(s.sizes) < s.size
  }

  function BlockStart(s: Shape, k: nat): nat
    requires k <= |s.sizes|
  {
    s.address + POOL_RECORD + Sum(s.sizes[..k])
  }

  function PoolEnd(s: Shape): nat {
    s.address + POOL_RECORD + s.size
  }

  /** No two pools share memory. */
  predicate Apart(shapes: seq<Shape>) {
    forall i, j :: 0 <= i < j < |shapes| ==>
      PoolEnd(shapes[i]) <= shapes[j].address || PoolEnd(shapes[j]) <= shapes[i].address
  }

  lemma {:induction false} SumMonotone(sizes: seq<nat>, k: nat, m: nat)
    requires k <= m <= |sizes|
    ensures Sum(sizes[..k]) <= Sum(sizes[..m])
    decreases m
  {
    if k < m {
      SumMonotone(sizes, k, m - 1);
      assert sizes[..m] == sizes[..m - 1] + [sizes[m - 1]];
      SumNext(sizes[..m - 1], sizes[m - 1]);
    }
  }

  /** A block lies in its pool, behind the record, and before the next block. */
  lemma BlockInPool(s: Shape, k: nat)
    requires Fits(s) && k < |s.sizes|
    ensures s.address + POOL_RECORD <= BlockStart(s, k)
    ensures BlockStart(s, k) + s.sizes[k] == BlockStart(s, k + 1) <= s.address + POOL_RECORD + Sum(s.sizes) < PoolEnd(s)
  {
    assert s.sizes[..k + 1] == s.sizes[..k] + [s.sizes[k]];
    SumNext(s.sizes[..k], s.sizes[k]);
    SumMonotone(s.sizes, k + 1, |s.sizes|);
    assert s.sizes[..|s.sizes|] == s.sizes;
  }

  /** Two ranges of bytes have none in common. */
  predicate DisjointRanges(a: int, aEnd: int, b: int, bEnd: int) {
    aEnd <= b || bEnd <= a
  }

  /** Different blocks of pools that do not overlap have no byte in common. */
  lemma BlocksApart(shapes: seq<Shape>, i: nat, k: nat, j: nat, m: nat)
    requires Apart(shapes) && i < |shapes| && j < |shapes| && Fits(shapes[i]) && Fits(shapes[j])
    requires k < |shapes[i].sizes| && m < |shapes[j].sizes| && (i != j || k != m)
    ensures DisjointRanges(BlockStart(shapes[i], k), BlockStart(shapes[i], k + 1),
                           BlockStart(shapes[j], m), BlockStart(shapes[j], m + 1))
  {
    BlockInPool(shapes[i], k);
    BlockInPool(shapes[j], m);
    if i == j {
      SumMonotone(shapes[i].sizes, if k < m then k + 1 else m + 1, if k < m then m else k);
    }
  }

  /** No block reaches into the record of any pool. */
  lemma BlocksLeaveRecords(shapes: seq<Shape>, i: nat, k: nat, j: nat)
    requires Apart(shapes) && i < |shapes| && j < |shapes| && Fits(shapes[i]) && k < |shapes[i].sizes|
    ensures DisjointRanges(BlockStart(shapes[i], k), BlockStart(shapes[i], k + 1),
                           shapes[j].address, shapes[j].address + POOL_RECORD)
  {
    BlockInPool(shapes[i], k);
  }
}
