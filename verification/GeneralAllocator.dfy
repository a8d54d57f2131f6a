/**
 * Allocating, growing and freeing with headers, on an arena: where the ranges of the user lie, and
 * what happens to the bytes in them.
 */
module GeneralAllocator {
  import opened AllocationHeaders
  import opened Arenas
  import opened MemoryMoves
  import opened PowersOfTwo
  import opened Sequences
  import opened Utf8
  import opened Utf8Sequences
  import Powers

  /** A range of the user, and the block it was made in. */
  datatype Allocation = Allocation(pool: nat, block: nat, user: nat, size: nat, alignment: nat)

  /** The allocation lies in its block the way the header code lays it out. */
  predicate Placed(a: Allocation, shapes: seq<Shape>, b: Build) {
    && a.pool < |shapes| && a.block < |shapes[a.pool].sizes|
    && 8 <= a.alignment <= 0x8000
    && shapes[a.pool].sizes[a.block] == Required(a.size, a.alignment, b)
    && a.user == UserPointer(BlockStart(shapes[a.pool], a.block), a.alignment, b)
  }

  predicate InPlace(live: seq<Allocation>, shapes: seq<Shape>, b: Build) {
    && (forall n :: 0 <= n < |live| ==> Placed(live[n], shapes, b))
    && (forall n, m :: 0 <= n < m < |live| ==> live[n].pool != live[m].pool || live[n].block != live[m].block)
  }

  /** Every live allocation is in its place, and has its header before it. */
  predicate Consistent(live: seq<Allocation>, memory: seq<Byte>, shapes: seq<Shape>, b: Build)
    requires ValidBuild(b)
  {
    InPlace(live, shapes, b) && forall n :: 0 <= n < |live| ==> HeaderKept(live[n], memory, shapes, b)
  }

  /** The bytes before the user's read as the header that was written for the block. */
  predicate HeaderKept(a: Allocation, memory: seq<Byte>, shapes: seq<Shape>, b: Build)
    requires ValidBuild(b)
  {
    && Placed(a, shapes, b) && b.headerSize <= a.user <= |memory|
    && DecodeHeader(memory[a.user - b.headerSize..a.user], b)
    == EncodeHeader(BlockStart(shapes[a.pool], a.block), a.size, a.alignment, b)
  }

  predicate ValidShapes(shapes: seq<Shape>, memorySize: nat) {
    && Apart(shapes)
    && forall i :: 0 <= i < |shapes| ==> Fits(shapes[i]) && PoolEnd(shapes[i]) <= memorySize
  }

  // ----- where live allocations lie

  /** Aligned, with its header before it and its guard behind it, inside its block. */
  lemma InsideBlock(a: Allocation, shapes: seq<Shape>, b: Build, memorySize: nat)
    requires ValidBuild(b) && ValidShapes(shapes, memorySize) && Placed(a, shapes, b)
    ensures var s := shapes[a.pool];
      && a.user % a.alignment == 0
      && s.address + POOL_RECORD <= BlockStart(s, a.block) <= a.user - b.headerSize < BlockStart(s, a.block) + a.alignment
      && a.user + a.size + b.guardSize <= BlockStart(s, a.block + 1) < PoolEnd(s) <= memorySize
  {
    var s := shapes[a.pool];
    LayoutFits(BlockStart(s, a.block), a.size, a.alignment, b);
    PaddingWithHeaderAligns(BlockStart(s, a.block), a.alignment, b.headerSize);
    BlockInPool(s, a.block);
  }

  /** The header, the bytes and the guard of two live allocations have no byte in common, and none is in a pool's record. */
  lemma LiveRangesApart(live: seq<Allocation>, shapes: seq<Shape>, b: Build, memorySize: nat, n: nat, m: nat, j: nat)
    requires ValidBuild(b) && ValidShapes(shapes, memorySize) && InPlace(live, shapes, b)
    requires n < |live| && m < |live| && n != m && j < |shapes|
    ensures var x, y := live[n], live[m];
      DisjointRanges(x.user - b.headerSize, x.user + x.size + b.guardSize, y.user - b.headerSize, y.user + y.size + b.guardSize)
    ensures var x := live[n];
      DisjointRanges(x.user - b.headerSize, x.user + x.size + b.guardSize, shapes[j].address, shapes[j].address + POOL_RECORD)
    ensures live[n].user != live[m].user
  {
    hide UserPointer, Required, BlockStart, Sum, PoolEnd;
    var x, y := live[n], live[m];
    InsideBlock(x, shapes, b, memorySize);
    InsideBlock(y, shapes, b, memorySize);
    assert x.pool != y.pool || x.block != y.block;
    BlocksApart(shapes, x.pool, x.block, y.pool, y.block);
    BlocksLeaveRecords(shapes, x.pool, x.block, j);
  }

  // ----- what a write changes

  /** Nothing outside of low to high is written. */
  predicate OnlyIn(before: seq<Byte>, after: seq<Byte>, low: int, high: int) {
    |after| == |before| && forall k :: 0 <= k < |before| && !(low <= k < high) ==> after[k] == before[k]
  }

  /** Header, bytes and guard of an allocation are what they were. */
  predicate Untouched(a: Allocation, before: seq<Byte>, after: seq<Byte>, b: Build) {
    && |after| == |before|
    && forall k :: a.user - b.headerSize <= k < a.user + a.size + b.guardSize && 0 <= k < |before| ==> after[k] == before[k]
  }

  /** What is written into one live allocation, its header or its guard leaves all others untouched. */
  lemma OthersUntouched(live: seq<Allocation>, shapes: seq<Shape>, b: Build, last: nat, before: seq<Byte>, after: seq<Byte>)
    requires ValidBuild(b) && ValidShapes(shapes, |before|) && InPlace(live, shapes, b) && last < |live|
    requires var a := live[last]; OnlyIn(before, after, a.user - b.headerSize, a.user + a.size + b.guardSize)
    ensures forall m :: 0 <= m < |live| && m != last ==> Untouched(live[m], before, after, b)
  {
    hide InPlace, ValidShapes;
    forall m | 0 <= m < |live| && m != last
      ensures Untouched(live[m], before, after, b)
    {
      assert |shapes| > 0 by {
        PlacedInPool(live, shapes, b, m);
      }
      LiveRangesApart(live, shapes, b, |before|, last, m, 0);
    }
  }

  lemma PlacedInPool(live: seq<Allocation>, shapes: seq<Shape>, b: Build, n: nat)
    requires InPlace(live, shapes, b) && n < |live|
    ensures Placed(live[n], shapes, b) && live[n].pool < |shapes|
  {
  }

  lemma HeaderStays(a: Allocation, before: seq<Byte>, after: seq<Byte>, shapes: seq<Shape>, b: Build)
    requires ValidBuild(b) && HeaderKept(a, before, shapes, b) && |after| == |before|
    requires forall k :: a.user - b.headerSize <= k < a.user && 0 <= k < |before| ==> after[k] == before[k]
    ensures HeaderKept(a, after, shapes, b)
  {
    assert after[a.user - b.headerSize..a.user] == before[a.user - b.headerSize..a.user];
  }

  // ----- what one more block changes

  function WithBlock(shapes: seq<Shape>, i: nat, size: nat): seq<Shape>
    requires i < |shapes|
  {
    shapes[i := shapes[i].(sizes := shapes[i].sizes + [size])]
  }

  lemma StillPlaced(a: Allocation, shapes: seq<Shape>, i: nat, size: nat, b: Build)
    requires i < |shapes| && Placed(a, shapes, b)
    ensures Placed(a, WithBlock(shapes, i, size), b)
    ensures BlockStart(WithBlock(shapes, i, size)[a.pool], a.block) == BlockStart(shapes[a.pool], a.block)
  {
    if a.pool == i {
      var s := shapes[i].sizes;
      assert (s + [size])[..a.block] == s[..a.block];
    }
  }

  /** One more allocation in the new block, apart from the others. */
  lemma OneMore(live: seq<Allocation>, shapes: seq<Shape>, b: Build, i: nat, a: Allocation)
    requires i < |shapes| && InPlace(live, shapes, b) && a.alignment > 0
    requires var after := WithBlock(shapes, i, Required(a.size, a.alignment, b));
      Placed(a, after, b) && a.pool == i && a.block == |shapes[i].sizes|
    ensures InPlace(live + [a], WithBlock(shapes, i, Required(a.size, a.alignment, b)), b)
  {
    hide UserPointer, EncodeHeader, Required, BlockStart;
    var size := Required(a.size, a.alignment, b);
    var after := WithBlock(shapes, i, size);
    forall n | 0 <= n < |live|
      ensures Placed(live[n], after, b)
      ensures live[n].pool != i || live[n].block != a.block
    {
      assert Placed(live[n], shapes, b);
      StillPlaced(live[n], shapes, i, size, b);
    }
  }

  /** The headers of the others are kept when the new one is written before the user's bytes. */
  lemma OneMoreHeader(live: seq<Allocation>, before: seq<Byte>, after: seq<Byte>, shapes: seq<Shape>, b: Build,
                      i: nat, a: Allocation)
    requires ValidBuild(b) && i < |shapes| && Consistent(live, before, shapes, b) && a.alignment > 0
    requires var shapes' := WithBlock(shapes, i, Required(a.size, a.alignment, b));
      && ValidShapes(shapes', |before|) && InPlace(live + [a], shapes', b)
      && HeaderKept(a, after, shapes', b)
    requires OnlyIn(before, after, a.user - b.headerSize, a.user)
    ensures Consistent(live + [a], after, WithBlock(shapes, i, Required(a.size, a.alignment, b)), b)
    ensures forall m :: 0 <= m < |live| ==> Untouched(live[m], before, after, b)
  {
    hide UserPointer, EncodeHeader, Required, BlockStart, InPlace, ValidShapes, DecodeHeader;
    var size := Required(a.size, a.alignment, b);
    var shapes' := WithBlock(shapes, i, size);
    OthersUntouched(live + [a], shapes', b, |live|, before, after);
    forall n | 0 <= n < |live|
      ensures HeaderKept(live[n], after, shapes', b) && Untouched(live[n], before, after, b)
    {
      assert (live + [a])[n] == live[n];
      assert HeaderKept(live[n], before, shapes, b);
      StillPlaced(live[n], shapes, i, size, b);
      HeaderStays(live[n], before, after, shapes', b);
    }
  }

  /** The header that was just written is the one of the block. */
  lemma HeaderWritten(a: Allocation, before: seq<Byte>, after: seq<Byte>, shapes: seq<Shape>, b: Build, fields: seq<Byte>)
    requires ValidBuild(b) && ValidShapes(shapes, |before|) && Placed(a, shapes, b) && |fields| == b.headerSize
    requires |before| <= 0x1_0000_0000_0000_0000 && b.headerSize <= a.user <= |before|
    requires var h := EncodeHeader(BlockStart(shapes[a.pool], a.block), a.size, a.alignment, b);
      after == Written(before, a.user - b.headerSize, HeaderBytes(h, b, fields))
    ensures HeaderKept(a, after, shapes, b)
    ensures OnlyIn(before, after, a.user - b.headerSize, a.user)
  {
    hide UserPointer, Required, BlockStart, HeaderBytes, DecodeHeader, PaddingWithHeader, ValidShapes;
    var h := EncodeHeader(BlockStart(shapes[a.pool], a.block), a.size, a.alignment, b);
    InsideBlock(a, shapes, b, |before|);
    HeaderRoundTrip(h, b, fields);
    assert after[a.user - b.headerSize..a.user] == HeaderBytes(h, b, fields);
  }

  lemma NewIsPlaced(shapes: seq<Shape>, i: nat, address: nat, userSize: nat, alignment: nat, b: Build) returns (a: Allocation)
    requires i < |shapes| && 8 <= alignment <= 0x8000
    requires address == BlockStart(WithBlock(shapes, i, Required(userSize, alignment, b))[i], |shapes[i].sizes|)
    ensures a == Allocation(i, |shapes[i].sizes|, UserPointer(address, alignment, b), userSize, alignment)
    ensures Placed(a, WithBlock(shapes, i, Required(userSize, alignment, b)), b)
  {
    hide UserPointer, BlockStart, Required;
    a := Allocation(i, |shapes[i].sizes|, UserPointer(address, alignment, b), userSize, alignment);
  }

  lemma ShapesStayValid(shapes: seq<Shape>, i: nat, size: nat, memorySize: nat)
    requires ValidShapes(shapes, memorySize) && i < |shapes|
    requires Fits(WithBlock(shapes, i, size)[i])
    ensures ValidShapes(WithBlock(shapes, i, size), memorySize)
  {
    hide Sum;
  }

  /** A new pool without blocks changes nothing about the allocations. */
  lemma PoolAdded(live: seq<Allocation>, memory: seq<Byte>, shapes: seq<Shape>, b: Build, s: Shape)
    requires ValidBuild(b) && ValidShapes(shapes, |memory|) && Consistent(live, memory, shapes, b)
    requires s.sizes == [] && s.size > 0 && PoolEnd(s) <= |memory|
    requires forall i :: 0 <= i < |shapes| ==> PoolEnd(shapes[i]) <= s.address || PoolEnd(s) <= shapes[i].address
    ensures ValidShapes(shapes + [s], |memory|) && Consistent(live, memory, shapes + [s], b)
  {
    hide UserPointer, EncodeHeader, Required, BlockStart;
    forall n | 0 <= n < |live|
      ensures Placed(live[n], shapes + [s], b) && HeaderKept(live[n], memory, shapes + [s], b)
    {
      assert HeaderKept(live[n], memory, shapes, b);
    }
  }

  lemma RequiredBytes(userSize: nat, alignment: nat, b: Build)
    requires alignment > 0
    ensures Required(userSize, alignment, b) == userSize + alignment + b.headerSize + b.headerSize % alignment + b.guardSize
  {
  }

  /** What is aligned to the larger of 8 and a power of two is aligned to both. */
  lemma AlignedToLess(user: nat, asked: nat)
    requires IsPow2(asked) && user % (if asked < 8 then 8 else asked) == 0
    ensures user % 8 == 0 && user % asked == 0
  {
    var used := if asked < 8 then 8 else asked;
    assert IsPow2(8 / 2 / 2 / 2);
    Pow2Divides(used, 8);
    Pow2Divides(used, asked);
    MultipleOfMultiple(user, used, 8);
    MultipleOfMultiple(user, used, asked);
  }

  lemma MultipleOfMultiple(x: nat, m: nat, k: nat)
    requires m > 0 && k > 0 && x % m == 0 && m % k == 0
    ensures x % k == 0
  {
    var p, q := x / m, m / k;
    assert x == p * m && m == q * k;
    Powers.MulAssociates(p, q, k);
    Powers.DivModUnique(x, k, p * q, 0);
  }

  lemma LastIsAligned(live: seq<Allocation>, memory: seq<Byte>, shapes: seq<Shape>, b: Build, memorySize: nat)
    requires ValidBuild(b) && ValidShapes(shapes, memorySize) && Consistent(live, memory, shapes, b) && live != []
    ensures var a := live[|live| - 1]; a.alignment > 0 && a.user % a.alignment == 0
  {
    InsideBlock(live[|live| - 1], shapes, b, memorySize);
  }

  /** The allocation is in the last block of its pool, and so many bytes from its start on are in the pool. */
  predicate ReachesTo(a: Allocation, shapes: seq<Shape>, n: nat) {
    a.pool < |shapes| && a.block + 1 == |shapes[a.pool].sizes| && a.user + n <= PoolEnd(shapes[a.pool])
  }

  /** Behind the last block of a pool there is no other allocation. */
  lemma NothingBehind(live: seq<Allocation>, shapes: seq<Shape>, b: Build, memorySize: nat, last: nat, n: nat, m: nat)
    requires ValidBuild(b) && ValidShapes(shapes, memorySize) && InPlace(live, shapes, b)
    requires last < |live| && m < |live| && m != last && ReachesTo(live[last], shapes, n)
    ensures DisjointRanges(live[last].user, live[last].user + n,
                           live[m].user - b.headerSize, live[m].user + live[m].size + b.guardSize)
    ensures live[last].user + n <= memorySize
  {
    hide UserPointer, Required, BlockStart, Sum, PoolEnd;
    var x, y := live[last], live[m];
    InsideBlock(x, shapes, b, memorySize);
    InsideBlock(y, shapes, b, memorySize);
    LiveRangesApart(live, shapes, b, memorySize, last, m, 0);
    if x.pool == y.pool {
      BlockInPool(shapes[x.pool], y.block);
      BlockOrder(shapes[x.pool], y.block + 1, x.block);
    }
  }

  lemma BlockOrder(s: Shape, k: nat, m: nat)
    requires k <= m <= |s.sizes|
    ensures BlockStart(s, k) <= BlockStart(s, m)
  {
    SumMonotone(s.sizes, k, m);
  }

  /**
   * Copying to where one live allocation starts keeps all headers, and leaves the others untouched,
   * as long as it stays in the pool.
   */
  lemma CopiedInto(live: seq<Allocation>, shapes: seq<Shape>, b: Build, last: nat, from: nat, n: nat,
                   before: seq<Byte>, after: seq<Byte>)
    requires ValidBuild(b) && ValidShapes(shapes, |before|) && Consistent(live, before, shapes, b)
    requires last < |live| && ReachesTo(live[last], shapes, n)
    requires live[last].user + n <= |before| && from + n <= |before|
    requires after == Moved(before, live[last].user, from, n)
    ensures Consistent(live, after, shapes, b)
    ensures forall m :: 0 <= m < |live| && m != last ==> Untouched(live[m], before, after, b)
  {
    hide Placed, DecodeHeader, EncodeHeader, ValidShapes, ReachesTo;
    assert OnlyIn(before, after, live[last].user, live[last].user + n);
    forall m | 0 <= m < |live| && m != last
      ensures Untouched(live[m], before, after, b)
    {
      NothingBehind(live, shapes, b, |before|, last, n, m);
    }
    forall m | 0 <= m < |live|
      ensures HeaderKept(live[m], after, shapes, b)
    {
      assert m != last ==> Untouched(live[m], before, after, b);
      HeaderStays(live[m], before, after, shapes, b);
    }
  }

  lemma NothingLive(shapes: seq<Shape>, after: seq<Shape>, memory: seq<Byte>, b: Build)
    requires ValidBuild(b) && ValidShapes(shapes, |memory|) && |after| == |shapes|
    requires forall i :: 0 <= i < |shapes| ==> after[i] == shapes[i].(sizes := [])
    ensures ValidShapes(after, |memory|) && Consistent([], memory, after, b)
  {
  }

  lemma OneLess(live: seq<Allocation>, memory: seq<Byte>, shapes: seq<Shape>, b: Build, n: nat)
    requires ValidBuild(b) && n < |live| && Consistent(live, memory, shapes, b)
    ensures Consistent(Without(live, n), memory, shapes, b)
  {
    hide Placed, HeaderKept;
    var r := Without(live, n);
    forall k, m | 0 <= k < m < |r|
      ensures r[k].pool != r[m].pool || r[k].block != r[m].block
    {
      var k', m' := if k < n then k else k + 1, if m < n then m else m + 1;
      assert k' < m';
    }
  }

  lemma HeaderIsKept(live: seq<Allocation>, memory: seq<Byte>, shapes: seq<Shape>, b: Build, n: nat)
    requires ValidBuild(b) && n < |live| && Consistent(live, memory, shapes, b)
    ensures HeaderKept(live[n], memory, shapes, b)
  {
  }

  /** What freeing computes from the header is the block and the size the allocator was asked for. */
  lemma FreeRecoversBlock(a: Allocation, memory: seq<Byte>, shapes: seq<Shape>, b: Build)
    requires ValidBuild(b) && HeaderKept(a, memory, shapes, b)
    ensures var h := DecodeHeader(memory[a.user - b.headerSize..a.user], b);
      && h.alignment > 0
      && BlockOf(a.user, h, b) == BlockStart(shapes[a.pool], a.block)
      && SizeOf(h, b) == shapes[a.pool].sizes[a.block]
  {
    FreeRecovers(BlockStart(shapes[a.pool], a.block), a.size, a.alignment, b);
  }

  lemma InPlaceOf(live: seq<Allocation>, memory: seq<Byte>, shapes: seq<Shape>, b: Build)
    requires ValidBuild(b) && Consistent(live, memory, shapes, b)
    ensures InPlace(live, shapes, b)
  {
  }

  lemma PlacedIn(live: seq<Allocation>, memory: seq<Byte>, shapes: seq<Shape>, b: Build, n: nat)
    requires ValidBuild(b) && n < |live| && Consistent(live, memory, shapes, b)
    ensures Placed(live[n], shapes, b)
  {
  }

  lemma RangeInMemory(live: seq<Allocation>, memory: seq<Byte>, shapes: seq<Shape>, b: Build, n: nat)
    requires ValidBuild(b) && n < |live| && Consistent(live, memory, shapes, b) && ValidShapes(shapes, |memory|)
    ensures live[n].user + live[n].size <= |memory|
  {
    InsideBlock(live[n], shapes, b, |memory|);
  }

  /** A block that was just taken is the last one of its pool, and its range is in memory. */
  lemma AboutNew(live: seq<Allocation>, memory: seq<Byte>, shapes: seq<Shape>, before: seq<Shape>, b: Build, size: nat)
    requires ValidBuild(b) && live != [] && Consistent(live, memory, shapes, b) && ValidShapes(shapes, |memory|)
    requires var a := live[|live| - 1];
      && a.alignment > 0 && a.pool < |before| && a.block == |before[a.pool].sizes|
      && shapes == WithBlock(before, a.pool, Required(a.size, a.alignment, b))
    ensures var a := live[|live| - 1];
      && a.user + a.size <= |memory| && Placed(a, shapes, b)
      && (ReachesTo(a, shapes, size) <==> a.user + size <= PoolEnd(shapes[a.pool]))
      && (a.user + size <= PoolEnd(shapes[a.pool]) ==> a.user + size <= |memory|)
      && (size <= a.size ==> a.user + size <= PoolEnd(shapes[a.pool]))
  {
    hide UserPointer, Required, BlockStart, PoolEnd, Consistent;
    PlacedIn(live, memory, shapes, b, |live| - 1);
    InsideBlock(live[|live| - 1], shapes, b, |memory|);
  }

  /** The header, and then the copy. */
  lemma MovedRange(before: seq<Byte>, between: seq<Byte>, after: seq<Byte>, newUser: nat, user: nat, size: nat, headerSize: nat)
    requires |before| == |between| && OnlyIn(before, between, newUser - headerSize, newUser)
    requires newUser + size <= |between| && user + size <= |between| && after == Moved(between, newUser, user, size)
    requires between[user..user + size] == before[user..user + size]
    ensures OnlyIn(before, after, newUser - headerSize, newUser + size)
    ensures after[newUser..newUser + size] == before[user..user + size]
  {
  }

  lemma NothingTouched(live: seq<Allocation>, memory: seq<Byte>, b: Build)
    ensures forall m :: 0 <= m < |live| ==> Untouched(live[m], memory, memory, b)
  {
  }

  lemma UntouchedTwice(a: Allocation, before: seq<Byte>, between: seq<Byte>, after: seq<Byte>, b: Build)
    requires Untouched(a, before, between, b) && Untouched(a, between, after, b)
    ensures Untouched(a, before, after, b)
  {
  }

  lemma AllUntouchedTwice(live: seq<Allocation>, a: Allocation, before: seq<Byte>, between: seq<Byte>, after: seq<Byte>, b: Build)
    requires forall m :: 0 <= m < |live| ==> Untouched(live[m], before, between, b)
    requires forall m :: 0 <= m < |live| ==> Untouched((live + [a])[m], between, after, b)
    ensures forall m :: 0 <= m < |live| ==> Untouched(live[m], before, after, b)
  {
    hide Untouched;
    forall m | 0 <= m < |live|
      ensures Untouched(live[m], before, after, b)
    {
      assert (live + [a])[m] == live[m];
      UntouchedTwice(live[m], before, between, after, b);
    }
  }

  lemma SameRange(a: Allocation, before: seq<Byte>, between: seq<Byte>, b: Build)
    requires Untouched(a, before, between, b) && a.user + a.size <= |before|
    ensures between[a.user..a.user + a.size] == before[a.user..a.user + a.size]
  {
  }

  // ----- the allocator

  class Heap {
    const build: Build
    const arena: Arena
    /** All of memory; an address is an index. */
    const Memory: array<Byte>
    /** The allocations that were not freed since everything was freed last. */
    ghost var Live: seq<Allocation>

    ghost function Shapes(): (shapes: seq<Shape>)
      reads this, arena, arena.Pools
      ensures |shapes| == |arena.Pools| && forall i :: 0 <= i < |shapes| ==> shapes[i] == ShapeOf(arena.Pools[i])
    {
      ShapesOf(arena.Pools)
    }

    ghost predicate Valid()
      reads this, Memory, arena, arena.Pools
    {
      && ValidBuild(build) && Memory.Length <= 0x1_0000_0000_0000_0000
      && arena.Valid() && arena.Surplus() == 0
      && ValidShapes(Shapes(), Memory.Length)
      && Consistent(Live, Memory[..], Shapes(), build)
    }

    constructor (b: Build, memory: array<Byte>)
      requires ValidBuild(b) && memory.Length <= 0x1_0000_0000_0000_0000
      ensures Valid() && build == b && Memory == memory && Live == [] && arena.Pools == []
      ensures fresh(arena)
    {
      build, Memory, Live := b, memory, [];
      arena := new Arena();
    }

    /** A block becomes a pool; it must lie in memory and share none with the other pools. */
    method AddPool(address: nat, size: nat) returns (ok: bool)
      requires Valid() && address + size <= Memory.Length
      requires forall i :: 0 <= i < |Shapes()| ==>
        PoolEnd(Shapes()[i]) <= address || address + size <= Shapes()[i].address
      modifies arena, arena.Pools
      ensures Valid() && Live == old(Live) && (ok <==> size > POOL_RECORD)
      ensures Shapes() == old(Shapes()) + if ok then [Shape(address, size - POOL_RECORD, [])] else []
      ensures forall i :: |old(arena.Pools)| <= i < |arena.Pools| ==> fresh(arena.Pools[i])
    {
      hide Consistent, ValidShapes, Sum, ShapesOf, Arena.Valid, Arena.Surplus;
      ghost var shapes := Shapes();
      var pool := arena.AddPool(address, size);
      ok := pool != null;
      if ok {
        assert Shapes() == shapes + [ShapeOf(pool)];
        PoolAdded(Live, Memory[..], shapes, build, ShapeOf(pool));
      } else {
        assert Shapes() == shapes;
      }
    }

    /** Some pool has room for what an allocation requests. */
    ghost predicate HasRoomFor(userSize: nat, alignment: nat)
      requires alignment > 0
      reads arena, arena.Pools
    {
      arena.Pools != [] && !arena.Full(Required(userSize, alignment, build))
    }

    /** Writes bytes into memory. */
    method WriteBytes(at: nat, bytes: seq<Byte>)
      requires at + |bytes| <= Memory.Length
      modifies Memory
      ensures Memory[..] == Written(old(Memory[..]), at, bytes)
    {
      for i := 0 to |bytes|
        invariant forall k :: at <= k < at + i ==> Memory[k] == bytes[k - at]
        invariant forall k :: 0 <= k < Memory.Length && !(at <= k < at + i) ==> Memory[k] == old(Memory[k])
      {
        Memory[at + i] := bytes[i];
      }
    }

    /** A block from the arena, its place among the others; nothing is written yet. */
    method TakeBlock(userSize: nat, alignment: nat) returns (ok: bool, block: nat, ghost a: Allocation)
      requires Valid() && 8 <= alignment <= 0x8000
      modifies arena`TotalUsed, arena.Pools
      ensures ValidBuild(build) && arena.Valid() && arena.Surplus() == 0 && ValidShapes(Shapes(), Memory.Length)
      ensures ok <==> old(HasRoomFor(userSize, alignment))
      ensures !ok ==> Shapes() == old(Shapes())
      ensures ok ==>
        && a == Allocation(a.pool, a.block, UserPointer(block, alignment, build), userSize, alignment)
        && a.pool < |old(Shapes())| && a.block == |old(Shapes())[a.pool].sizes|
        && Shapes() == WithBlock(old(Shapes()), a.pool, Required(userSize, alignment, build))
        && Placed(a, Shapes(), build) && block == BlockStart(Shapes()[a.pool], a.block)
    {
      hide Consistent, ValidShapes, Sum, ShapesOf, Arena.Valid, Arena.Surplus, Arena.Full, UserPointer, Required, BlockStart, Distinct, Placed;
      a := Allocation(0, 0, 0, 0, 0);
      block := 0;
      var required := Required(userSize, alignment, build);
      ghost var shapes := Shapes();
      arena.AboutPools();
      ghost var i;
      var r;
      r, i := arena.Allocate(required);
      arena.AboutPools();
      ok := r.Block?;
      if ok {
        arena.OthersDiffer(arena.Pools, i);
        ghost var after := WithBlock(shapes, i, required);
        assert Shapes() == after;
        ShapesStayValid(shapes, i, required, Memory.Length);
        block := r.address;
        a := NewIsPlaced(shapes, i, r.address, userSize, alignment, build);
      } else {
        assert Shapes() == shapes;
      }
    }

    /** Writes the header of a new allocation before its bytes. */
    method WriteHeader(block: nat, userSize: nat, alignment: nat, fields: seq<Byte>, ghost a: Allocation) returns (user: nat)
      requires ValidBuild(build) && Memory.Length <= 0x1_0000_0000_0000_0000 && ValidShapes(Shapes(), Memory.Length)
      requires Placed(a, Shapes(), build) && block == BlockStart(Shapes()[a.pool], a.block)
      requires a.size == userSize && a.alignment == alignment && |fields| == build.headerSize
      modifies Memory
      ensures user == a.user && HeaderKept(a, Memory[..], Shapes(), build)
      ensures OnlyIn(old(Memory[..]), Memory[..], user - build.headerSize, user)
    {
      hide ValidShapes, ShapesOf, UserPointer, EncodeHeader, HeaderBytes, Required, BlockStart, Written, PoolEnd;
      ghost var before := Memory[..];
      user := UserPointer(block, alignment, build);
      InsideBlock(a, Shapes(), build, Memory.Length);
      WriteBytes(user - build.headerSize, HeaderBytes(EncodeHeader(block, userSize, alignment, build), build, fields));
      HeaderWritten(a, before, Memory[..], Shapes(), build, fields);
    }

    /**
     * A block from the arena with a header in it. Nothing outside of the header is written; what
     * the fields hold that are not read here is given.
     */
    method AllocateAndEncode(userSize: nat, alignment: nat, fields: seq<Byte>) returns (ok: bool, user: nat, ghost a: Allocation)
      requires Valid() && 8 <= alignment <= 0x8000 && |fields| == build.headerSize
      modifies this, Memory, arena`TotalUsed, arena.Pools
      ensures Valid()
      ensures ok <==> old(HasRoomFor(userSize, alignment))
      ensures !ok ==> Live == old(Live) && Memory[..] == old(Memory[..]) && Shapes() == old(Shapes())
      ensures ok ==> Live == old(Live) + [a] && a.user == user && a.size == userSize && a.alignment == alignment
      ensures ok ==> a.pool < |old(Shapes())| && a.block == |old(Shapes())[a.pool].sizes|
      ensures ok ==> Shapes() == WithBlock(old(Shapes()), a.pool, Required(userSize, alignment, build))
      ensures ok ==> OnlyIn(old(Memory[..]), Memory[..], user - build.headerSize, user)
      ensures ok ==> forall m :: 0 <= m < |old(Live)| ==> Untouched(old(Live)[m], old(Memory[..]), Memory[..], build)
    {
      hide Consistent, ValidShapes, ShapesOf, Arena.Valid, Arena.Surplus, Arena.Full, UserPointer, Required, BlockStart, Placed, InPlace, HeaderKept;
      hide WithBlock, Untouched, OnlyIn;
      user := 0;
      ghost var shapes, before := Shapes(), Memory[..];
      var block;
      ok, block, a := TakeBlock(userSize, alignment);
      if ok {
        user := WriteHeader(block, userSize, alignment, fields, a);
        InPlaceOf(Live, before, shapes, build);
        OneMore(Live, shapes, build, a.pool, a);
        OneMoreHeader(Live, before, Memory[..], shapes, build, a.pool, a);
        Live := Live + [a];
      }
    }

    /**
     * A range of the user's size, aligned to what was asked for, to what the context says when that
     * is 0, and to a pointer in any case. Without room in the arena the program stops (ok is false).
     */
    method Allocate(userSize: nat, alignment: nat, contextAlignment: nat, fields: seq<Byte>) returns (ok: bool, user: nat, ghost a: Allocation)
      requires Valid() && |fields| == build.headerSize
      requires alignment <= 0x8000 && contextAlignment <= 0x8000
      requires IsPow2(contextAlignment) && (alignment == 0 || IsPow2(alignment))
      modifies this, Memory, arena`TotalUsed, arena.Pools
      ensures Valid()
      ensures !ok ==> Live == old(Live) && Memory[..] == old(Memory[..]) && Shapes() == old(Shapes())
      ensures ok ==> Live == old(Live) + [a] && a.user == user && a.size == userSize && a.pool < |old(Shapes())|
      ensures var asked := if alignment == 0 then contextAlignment else alignment;
        var used := if asked < 8 then 8 else asked;
        var required := userSize + used + build.headerSize + build.headerSize % used + build.guardSize;
        && (ok <==> exists i :: 0 <= i < |old(Shapes())| && Sum(old(Shapes())[i].sizes) + required < old(Shapes())[i].size)
        && (ok ==> a.alignment == used && Shapes() == WithBlock(old(Shapes()), a.pool, required))
      ensures ok ==> user % 8 == 0 && if alignment != 0 then user % alignment == 0 else user % contextAlignment == 0
      ensures ok ==> OnlyIn(old(Memory[..]), Memory[..], user - build.headerSize, user)
      ensures ok ==> forall m :: 0 <= m < |old(Live)| ==> Untouched(old(Live)[m], old(Memory[..]), Memory[..], build)
    {
      hide Consistent, Placed, UserPointer, Required, BlockStart, Sum, Arena.Valid, Arena.Surplus, Arena.Full, ShapesOf, ValidShapes, Untouched, OnlyIn;
      var used := if alignment == 0 then contextAlignment else alignment;
      ghost var asked := used;
      used := EffectiveAlignment(used);
      RequiredBytes(userSize, used, build);
      RoomByShapes(Required(userSize, used, build));
      ok, user, a := AllocateAndEncode(userSize, used, fields);
      if ok {
        LastIsAligned(Live, Memory[..], Shapes(), build, Memory.Length);
        AlignedToLess(user, asked);
      }
    }

    /** The header before the user's bytes, as it reads. */
    method ReadHeader(user: nat, ghost n: nat) returns (header: Header)
      requires Valid() && n < |Live| && Live[n].user == user
      ensures build.headerSize <= user <= Memory.Length
      ensures header == DecodeHeader(Memory[user - build.headerSize..user], build)
      ensures header.size == Live[n].size && 8 <= header.alignment == Live[n].alignment <= 0x8000
      ensures HeaderKept(Live[n], Memory[..], Shapes(), build)
    {
      hide Consistent, UserPointer, Required, BlockStart, Sum, Arena.Valid, ShapesOf, ValidShapes, DecodeHeader;
      HeaderIsKept(Live, Memory[..], Shapes(), build, n);
      FitsU16(Live[n].alignment);
      header := DecodeHeader(Memory[user - build.headerSize..user], build);
      assert Memory[user - build.headerSize..user] == Memory[..][user - build.headerSize..user];
    }

    /** The block and the size, read from the header before the user's bytes. */
    method BlockAndSize(user: nat, ghost n: nat) returns (block: int, size: nat)
      requires Valid() && n < |Live| && Live[n].user == user
      ensures var a := Live[n];
        && a.pool < |Shapes()| && a.block < |Shapes()[a.pool].sizes|
        && block == BlockStart(Shapes()[a.pool], a.block) && size == Shapes()[a.pool].sizes[a.block]
    {
      hide Consistent, UserPointer, Required, BlockStart, Sum, Arena.Valid, Arena.Surplus, ShapesOf, EncodeHeader;
      hide ValidShapes, DecodeHeader;
      var header := ReadHeader(user, n);
      FreeRecoversBlock(Live[n], Memory[..], Shapes(), build);
      assert Memory[user - build.headerSize..user] == Memory[..][user - build.headerSize..user];
      block := BlockOf(user, header, build);
      size := SizeOf(header, build);
    }

    /** What freeing hands to the allocator, which for an arena is only noted. */
    method Free(user: nat, ghost n: nat) returns (block: int, size: nat)
      requires Valid() && n < |Live| && Live[n].user == user
      modifies `Live
      ensures Valid() && Live == Without(old(Live), n)
      ensures var a := old(Live)[n];
        && a.pool < |Shapes()| && a.block < |Shapes()[a.pool].sizes|
        && block == BlockStart(Shapes()[a.pool], a.block) && size == Shapes()[a.pool].sizes[a.block]
    {
      hide Consistent, UserPointer, Required, BlockStart, Sum, Arena.Valid, Arena.Surplus, ShapesOf, EncodeHeader;
      hide ValidShapes, Without;
      block, size := BlockAndSize(user, n);
      OneLess(Live, Memory[..], Shapes(), build, n);
      Live := Without(Live, n);
    }

    /** The bytes of one live allocation are copied to where the last one starts. */
    method MoveBytes(user: nat, newUser: nat, size: nat, ghost n: nat)
      requires Valid() && n < |Live| - 1 && Live[n].user == user && Live[n].size == size
      requires Live[|Live| - 1].user == newUser && newUser + size <= Memory.Length
      modifies Memory
      ensures user + size <= Memory.Length && Memory[..] == Moved(old(Memory[..]), newUser, user, size)
      ensures ReachesTo(Live[|Live| - 1], Shapes(), size) ==>
        Valid() && forall m :: 0 <= m < |Live| - 1 ==> Untouched(Live[m], old(Memory[..]), Memory[..], build)
    {
      hide Consistent, Placed, UserPointer, Required, BlockStart, Sum, Arena.Valid, Arena.Surplus, ShapesOf, EncodeHeader, ValidShapes, Untouched, ReachesTo;
      RangeInMemory(Live, Memory[..], Shapes(), build, n);
      ghost var before := Memory[..];
      CopyMemory(Memory, newUser, user, size);
      if ReachesTo(Live[|Live| - 1], Shapes(), size) {
        CopiedInto(Live, Shapes(), build, |Live| - 1, user, size, before, Memory[..]);
      }
    }

    /** The last allocation takes the bytes of another one, which is freed. */
    method MoveInto(user: nat, newUser: nat, size: nat, ghost n: nat)
      requires Valid() && n < |Live| - 1 && Live[n].user == user && Live[n].size == size
      requires Live[|Live| - 1].user == newUser && newUser + size <= Memory.Length
      modifies `Live, Memory
      ensures Live == Without(old(Live), n)
      ensures user + size <= Memory.Length && Memory[..] == Moved(old(Memory[..]), newUser, user, size)
      ensures old(ReachesTo(Live[|Live| - 1], Shapes(), size)) ==>
        Valid() && forall m :: 0 <= m < |old(Live)| - 1 ==> Untouched(old(Live)[m], old(Memory[..]), Memory[..], build)
    {
      hide Consistent, Untouched, Arena.Valid, Arena.Surplus, ShapesOf, ValidShapes, Without, ReachesTo;
      MoveBytes(user, newUser, size, n);
      if ReachesTo(Live[|Live| - 1], Shapes(), size) {
        OneLess(Live, Memory[..], Shapes(), build, n);
      }
      Live := Without(Live, n);
    }

    /** Where the pool of an allocation ends. */
    ghost function EndOf(a: Allocation): nat
      requires a.pool < |Shapes()|
      reads this, arena, arena.Pools
    {
      PoolEnd(Shapes()[a.pool])
    }

    /**
     * A new block takes the bytes of an allocation, which is freed. All the old bytes are copied,
     * also when the new size is less; behind the end of memory the program stops.
     */
    method MoveToNewBlock(user: nat, size: nat, newSize: nat, alignment: nat, fields: seq<Byte>, ghost n: nat)
      returns (ok: bool, crashed: bool, newUser: nat, ghost a: Allocation)
      requires Valid() && n < |Live| && Live[n].user == user && Live[n].size == size
      requires 8 <= alignment == Live[n].alignment <= 0x8000 && |fields| == build.headerSize
      modifies this, arena`TotalUsed, arena.Pools, Memory
      ensures ok <==> old(HasRoomFor(newSize, alignment))
      ensures !ok ==> !crashed && Valid() && Live == old(Live) && Memory[..] == old(Memory[..])
      ensures ok ==> a.user == newUser && a.size == newSize && a.alignment == alignment && newUser + newSize <= Memory.Length
      ensures ok ==> a.pool < |old(Shapes())| && Shapes() == WithBlock(old(Shapes()), a.pool, Required(newSize, alignment, build))
      ensures ok ==> Placed(a, Shapes(), build)
      ensures ok ==> (crashed <==> newUser + size > Memory.Length)
      ensures ok && !crashed ==>
        && Live == Without(old(Live) + [a], n)
        && user + size <= Memory.Length && Memory[newUser..newUser + size] == old(Memory[..])[user..user + size]
        && OnlyIn(old(Memory[..]), Memory[..], newUser - build.headerSize, newUser + size)
      ensures ok && newUser + size <= EndOf(a) ==>
        !crashed && Valid() && forall m :: 0 <= m < |old(Live)| ==> Untouched(old(Live)[m], old(Memory[..]), Memory[..], build)
      ensures ok && size <= newSize ==> newUser + size <= EndOf(a)
    {
      hide Consistent, Arena.Valid, Arena.Surplus, Arena.Full, ShapesOf, ValidShapes, Required, Untouched, OnlyIn, Without, WithBlock, ReachesTo, Placed, PoolEnd;
      hide HasRoomFor, Moved;
      ghost var live, before, shapes := Live, Memory[..], Shapes();
      RangeInMemory(live, before, shapes, build, n);
      crashed := false;
      ok, newUser, a := AllocateAndEncode(newSize, alignment, fields);
      if ok {
        ghost var between := Memory[..];
        assert Live[|Live| - 1] == a && Live[n] == live[n];
        AboutNew(Live, between, Shapes(), shapes, build, size);
        crashed := newUser + size > Memory.Length;
        if crashed {
          return;
        }
        SameRange(live[n], before, between, build);
        MoveInto(user, newUser, size, n);
        MovedRange(before, between, Memory[..], newUser, user, size, build.headerSize);
        if newUser + size <= EndOf(a) {
          AllUntouchedTwice(live, a, before, between, Memory[..], build);
        }
        assert Memory[newUser..newUser + size] == Memory[..][newUser..newUser + size];
      }
    }

    /** Some pool has room for the allocation when it gets another size. */
    ghost predicate HasRoomToMove(n: nat, newSize: nat)
      requires Valid() && n < |Live|
      reads this, Memory, arena, arena.Pools
    {
      PlacedIn(Live, Memory[..], Shapes(), build, n);
      HasRoomFor(newSize, Live[n].alignment)
    }

    /**
     * Resizes an allocation: an arena never resizes in place, so the bytes move to a new block. It
     * copies as many bytes as there were. When there are to be fewer, the copy goes on behind the
     * new range; that is harmless as long as it ends in the pool of the new block.
     */
    method Reallocate(user: nat, newSize: nat, fields: seq<Byte>, ghost n: nat)
      returns (ok: bool, crashed: bool, newUser: nat, ghost a: Allocation)
      requires Valid() && n < |Live| && Live[n].user == user && |fields| == build.headerSize
      modifies this, arena`TotalUsed, arena.Pools, Memory
      ensures ok <==> newSize == old(Live)[n].size || old(HasRoomToMove(n, newSize))
      ensures !ok ==> !crashed && Valid() && Live == old(Live) && Memory[..] == old(Memory[..])
      ensures newSize == old(Live)[n].size ==>
        ok && !crashed && Valid() && newUser == user && a == old(Live)[n] && Live == old(Live) && Memory[..] == old(Memory[..])
      ensures ok ==> a.pool < |Shapes()|
      ensures ok && newSize != old(Live)[n].size ==>
        && a.user == newUser && a.size == newSize && a.alignment == old(Live)[n].alignment
        && a.pool < |old(Shapes())| && Shapes() == WithBlock(old(Shapes()), a.pool, Required(newSize, a.alignment, build))
        && Placed(a, Shapes(), build) && newUser + newSize <= Memory.Length
        && (crashed <==> newUser + old(Live)[n].size > Memory.Length)
      ensures ok && !crashed && newSize != old(Live)[n].size ==>
        var size := old(Live)[n].size;
        && Live == Without(old(Live) + [a], n)
        && user + size <= Memory.Length && Memory[newUser..newUser + size] == old(Memory[..])[user..user + size]
        && OnlyIn(old(Memory[..]), Memory[..], newUser - build.headerSize, newUser + size)
      ensures ok && (newSize >= old(Live)[n].size || newUser + old(Live)[n].size <= EndOf(a)) ==>
        !crashed && Valid() && forall m :: 0 <= m < |old(Live)| ==> Untouched(old(Live)[m], old(Memory[..]), Memory[..], build)
    {
      hide Consistent, Arena.Valid, Arena.Surplus, Arena.Full, ShapesOf, ValidShapes, Required, Untouched, HeaderKept, DecodeHeader, Without, OnlyIn, EndOf, WithBlock;
      hide Moved;
      var header := ReadHeader(user, n);
      if header.size == newSize {
        NothingTouched(Live, Memory[..], build);
        PlacedIn(Live, Memory[..], Shapes(), build, n);
        a := Live[n];
        return true, false, user, a;
      }
      ok, crashed, newUser, a := MoveToNewBlock(user, header.size, newSize, header.alignment, fields, n);
    }

    /** Whether there is room, by the blocks of the pools. */
    lemma RoomByShapes(size: nat)
      requires Valid()
      ensures arena.Pools != [] && !arena.Full(size) <==>
        exists i :: 0 <= i < |Shapes()| && Sum(Shapes()[i].sizes) + size < Shapes()[i].size
    {
      hide Consistent, ValidShapes, ShapesOf, Sum;
      arena.AboutPools();
      if i :| 0 <= i < |Shapes()| && Sum(Shapes()[i].sizes) + size < Shapes()[i].size {
        assert HasRoom(arena.Pools[i], size);
      }
    }

    method FreeAll()
      requires Valid()
      modifies `Live, arena`TotalUsed, arena.Pools
      ensures Valid() && Live == [] && arena.TotalUsed == 0
      ensures |Shapes()| == |old(Shapes())| && forall i :: 0 <= i < |Shapes()| ==> Shapes()[i] == old(Shapes())[i].(sizes := [])
    {
      hide Sum, Arena.Valid, ShapesOf, ValidShapes, Consistent;
      ghost var shapes := Shapes();
      arena.FreeAll();
      Live := [];
      NothingLive(shapes, Shapes(), Memory[..], build);
    }
  }

  /** An empty pool of 206 bytes, which are all of memory. */
  method OnePool() returns (heap: Heap)
    ensures fresh(heap) && fresh(heap.arena) && fresh(heap.Memory)
    ensures forall i :: 0 <= i < |heap.arena.Pools| ==> fresh(heap.arena.Pools[i])
    ensures heap.Valid() && heap.build == Build(32, 0, 16, 24) && heap.Memory.Length == 206 && heap.Live == []
    ensures heap.Shapes() == [Shape(0, 182, [])]
  {
    hide Heap.Valid, Heap.Shapes, ShapesOf, Arena.Valid, Arena.Surplus, Linked, Distinct, UsedIn, Sum;
    var memory := new Byte[206];
    heap := new Heap(Build(32, 0, 16, 24), memory);
    ghost var shapes := heap.Shapes();
    assert shapes == [];
    var pooled := heap.AddPool(0, 206);
    assert heap.Shapes() == shapes + [Shape(0, 182, [])];
  }

  /**
   * One hundred bytes become one, in a pool with little room behind them: copying one hundred
   * bytes runs over the end of the pool.
   */
  method ShrinkRunsOver(fields: seq<Byte>) returns (crashed: bool)
    requires |fields| == 32
    ensures crashed
  {
    hide Consistent, ValidShapes, ShapesOf, Arena.Valid, Arena.Surplus, Arena.Full, Untouched, OnlyIn, Without, Sum, UserPointer, BlockStart;
    hide Heap.Valid;
    var heap := OnePool();
    SmallPool();
    heap.RoomByShapes(140);
    assert Sum(heap.Shapes()[0].sizes) + 140 < heap.Shapes()[0].size;
    var ok, user, a := heap.Allocate(100, 8, 8, fields);
    assert heap.Shapes() == [Shape(0, 182, [140])] by {
      assert [] + [140] == [140];
    }
    heap.RoomByShapes(41);
    assert Sum(heap.Shapes()[0].sizes) + 41 < heap.Shapes()[0].size;
    var moved, newUser;
    ghost var shapes := heap.Shapes();
    ghost var last;
    moved, crashed, newUser, last := heap.Reallocate(user, 1, fields, 0);
    assert moved;
    assert heap.Shapes() == [Shape(0, 182, [140, 41])] by {
      assert [140] + [41] == [140, 41];
    }
    assert last.block == 1;
  }

  lemma SmallPool()
    ensures Sum([]) == 0 && Sum([140]) == 140
    ensures BlockStart(Shape(0, 182, [140, 41]), 1) == 164 && UserPointer(164, 8, Build(32, 0, 16, 24)) == 200
    ensures Required(100, 8, Build(32, 0, 16, 24)) == 140 && Required(1, 8, Build(32, 0, 16, 24)) == 41
  {
    hide Sum, UserPointer, Required;
    SumOfZeros([]);
    SumNext([], 140);
    assert [] + [140] == [140] && [140, 41][..1] == [140];
    SmallLayout();
  }

  lemma SmallLayout()
    ensures UserPointer(164, 8, Build(32, 0, 16, 24)) == 200
    ensures Required(100, 8, Build(32, 0, 16, 24)) == 140 && Required(1, 8, Build(32, 0, 16, 24)) == 41
  {
    assert PaddingForPointer(164, 8) == 4 && MultipleFor(28, 8) == 32;
  }

  ghost function ShapesOf(pools: seq<Pool>): (shapes: seq<Shape>)
    reads pools`Sizes
    ensures |shapes| == |pools| && forall i :: 0 <= i < |shapes| ==> shapes[i] == ShapeOf(pools[i])
  {
    if pools == [] then [] else ShapesOf(pools[..|pools| - 1]) + [ShapeOf(pools[|pools| - 1])]
  }
}
