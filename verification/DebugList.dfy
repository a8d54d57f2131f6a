/**
 * The list of allocation headers that debug builds keep: doubly linked, with the previous pointer
 * of the head used for the tail.
 */
module DebugList {
  import opened Sequences

  class Header {
    /** The allocator the memory is from. */
    const alloc: nat
    var next: Header?
    var previous: Header?

    constructor (alloc: nat)
      ensures this.alloc == alloc && next == null && previous == null
    {
      this.alloc, next, previous := alloc, null, null;
    }
  }

  /** What the next pointer of the i-th header is. */
  function NextOf(hs: seq<Header>, i: nat): Header?
    requires i < |hs|
  {
    if i + 1 < |hs| then hs[i + 1] else null
  }

  /** What the previous pointer of the i-th header is: the head points to the tail. */
  function PreviousOf(hs: seq<Header>, i: nat): Header
    requires i < |hs|
  {
    if i > 0 then hs[i - 1] else hs[|hs| - 1]
  }

  ghost predicate LinkedAt(hs: seq<Header>, i: nat)
    requires i < |hs|
    reads hs
  {
    hs[i].next == NextOf(hs, i) && hs[i].previous == PreviousOf(hs, i)
  }

  /** The headers form a list in this order. */
  ghost predicate Linked(head: Header?, hs: seq<Header>)
    reads hs
  {
    && Distinct(hs)
    && head == (if hs == [] then null else hs[0])
    && forall i {:trigger LinkedAt(hs, i)} :: 0 <= i < |hs| ==> LinkedAt(hs, i)
  }

  /** The last header has no next one, and the head's previous pointer leads to it. */
  lemma PlaceInList(head: Header?, hs: seq<Header>, i: nat)
    requires Linked(head, hs) && i < |hs|
    ensures hs[i].previous == hs[i] <==> |hs| == 1
    ensures head == hs[i] <==> i == 0
    ensures hs[i].next == null <==> i == |hs| - 1
    ensures LinkedAt(hs, i)
  {
    assert LinkedAt(hs, i);
    SameIndex(hs, 0, i);
    SameIndex(hs, |hs| - 1, i);
    if i > 0 {
      SameIndex(hs, i - 1, i);
    }
  }

  class DebugMemory {
    var Head: Header?
    ghost var Headers: seq<Header>

    ghost predicate Valid()
      reads this, Headers
    {
      Linked(Head, Headers)
    }

    constructor ()
      ensures Valid() && Headers == []
    {
      Head, Headers := null, [];
    }

    /** A header goes to the front. */
    method AddHeader(h: Header)
      requires Valid() && h !in Headers
      modifies this, h, Headers
      ensures Valid() && Headers == [h] + old(Headers)
    {
      ghost var hs := Headers;
      if Head != null {
        PlaceInList(Head, hs, 0);
      }
      h.next := Head;
      if Head != null {
        h.previous := Head.previous;
        Head.previous := h;
      } else {
        h.previous := h;
      }
      Head := h;
      Headers := [h] + Headers;
      forall k | 0 < k < |Headers|
        ensures LinkedAt(Headers, k)
      {
        assert old(LinkedAt(hs, k - 1));
        SameIndex(hs, k - 1, 0);
      }
    }

    /** A header leaves the list; the others stay in order. */
    method UnlinkHeader(h: Header, ghost i: nat)
      requires Valid() && i < |Headers| && Headers[i] == h
      modifies this, Headers
      ensures Valid() && Headers == Without(old(Headers), i)
      ensures h.next == old(h.next) && h.previous == old(h.previous)
    {
      hide Without;
      PlaceInList(Head, Headers, i);
      if h.previous == h {
        Head := null;
        Headers := Without(Headers, i);
      } else if Head == h {
        UnlinkHead(h);
      } else {
        UnlinkInner(h, i);
      }
    }

    method UnlinkHead(h: Header)
      requires Valid() && |Headers| > 1 && Headers[0] == h
      modifies this, Headers
      ensures Valid() && Headers == Without(old(Headers), 0)
      ensures h.next == old(h.next) && h.previous == old(h.previous)
    {
      hide Without, Distinct;
      ghost var hs := Headers;
      PlaceInList(Head, hs, 0);
      SameIndex(hs, 0, 1);
      h.next.previous := h.previous;
      Head := h.next;
      Headers := Without(hs, 0);
      WithoutIsDistinct(hs, 0);
      forall k | 0 <= k < |Headers|
        ensures LinkedAt(Headers, k)
      {
        assert old(LinkedAt(hs, k + 1));
        SameIndex(hs, k + 1, 1);
      }
    }

    method UnlinkInner(h: Header, ghost i: nat)
      requires Valid() && 0 < i < |Headers| && Headers[i] == h
      modifies this, Headers
      ensures Valid() && Headers == Without(old(Headers), i)
      ensures h.next == old(h.next) && h.previous == old(h.previous)
    {
      hide Without, Distinct;
      ghost var hs := Headers;
      ghost var last := |hs| - 1;
      PlaceInList(Head, hs, i);
      SameIndex(hs, i - 1, i);
      h.previous.next := h.next;
      ghost var after := if i < last then i + 1 else 0;
      SameIndex(hs, i, after);
      if h.next != null {
        h.next.previous := h.previous;
      } else {
        Head.previous := h.previous;
      }
      Headers := Without(hs, i);
      WithoutIsDistinct(hs, i);
      forall k | 0 <= k < |Headers|
        ensures LinkedAt(Headers, k)
      {
        var m := if k < i then k else k + 1;
        assert old(LinkedAt(hs, m));
        SameIndex(hs, m, i - 1);
        SameIndex(hs, m, after);
      }
    }

    /** A header takes the place of another one. */
    method SwapHeader(o: Header, n: Header, ghost i: nat)
      requires Valid() && i < |Headers| && Headers[i] == o && n !in Headers
      modifies this, n, Headers
      ensures Valid() && Headers == old(Headers)[i := n]
    {
      hide Distinct;
      ghost var hs := Headers;
      PlaceInList(Head, hs, i);
      if Head == o {
        SwapHead(o, n);
      } else {
        SwapInner(o, n, i);
      }
    }

    method SwapHead(o: Header, n: Header)
      requires Valid() && |Headers| > 0 && Headers[0] == o && n !in Headers
      modifies this, n, Headers
      ensures Valid() && Headers == old(Headers)[0 := n]
    {
      hide Distinct;
      ghost var hs := Headers;
      PlaceInList(Head, hs, 0);
      Head := n;
      n.next := o.next;
      if o.next == null {
        n.previous := n;
      } else {
        n.previous := o.previous;
        n.next.previous := n;
      }
      Headers := hs[0 := n];
      SwappedIsDistinct(hs, 0, n);
      forall k | 0 <= k < |Headers|
        ensures LinkedAt(Headers, k)
      {
        assert old(LinkedAt(hs, k));
        if |hs| > 1 {
          SameIndex(hs, k, 1);
        }
      }
    }

    method SwapInner(o: Header, n: Header, ghost i: nat)
      requires Valid() && 0 < i < |Headers| && Headers[i] == o && n !in Headers
      modifies this, n, Headers
      ensures Valid() && Headers == old(Headers)[i := n]
    {
      hide Distinct;
      ghost var hs := Headers;
      ghost var last := |hs| - 1;
      PlaceInList(Head, hs, i);
      n.next := o.next;
      n.previous := o.previous;
      n.previous.next := n;
      ghost var after := if i < last then i + 1 else 0;
      SameIndex(hs, i, i - 1);
      if o.next == null {
        Head.previous := n;
      } else {
        n.next.previous := n;
      }
      Headers := hs[i := n];
      SwappedIsDistinct(hs, i, n);
      forall k | 0 <= k < |Headers|
        ensures LinkedAt(Headers, k)
      {
        assert old(LinkedAt(hs, k));
        SameIndex(hs, k, i - 1);
        SameIndex(hs, k, after);
      }
    }

    /**
     * Freeing everything of one allocator takes every header out of the list, of whatever
     * allocator: the list is then what it should be exactly when all headers were of that one.
     */
    method UnlinkAll(alloc: nat)
      requires Valid()
      modifies this, Headers
      ensures Valid() && Headers == []
      ensures Headers == Foreign(old(Headers), alloc) <==> forall h :: h in old(Headers) ==> h.alloc == alloc
    {
      hide Distinct, Without;
      var h := Head;
      ghost var all := Headers;
      while h != null
        invariant Valid() && h == Head && forall k :: 0 <= k < |Headers| ==> Headers[k] in all
        decreases |Headers|
      {
        assert LinkedAt(Headers, 0);
        WithoutIsDistinct(Headers, 0);
        assert forall x :: x in Headers ==> x in all;
        var tmp := h.next;
        UnlinkHeader(h, 0);
        h := tmp;
      }
      NothingForeign(all, alloc);
    }
  }

  /** The headers of other allocators, in order. */
  function Foreign(hs: seq<Header>, alloc: nat): seq<Header> {
    if hs == [] then [] else (if hs[0].alloc == alloc then [] else [hs[0]]) + Foreign(hs[1..], alloc)
  }

  lemma {:induction false} NothingForeign(hs: seq<Header>, alloc: nat)
    ensures Foreign(hs, alloc) == [] <==> forall h :: h in hs ==> h.alloc == alloc
  {
    if hs != [] {
      NothingForeign(hs[1..], alloc);
      assert hs == [hs[0]] + hs[1..];
    }
  }

  /** Two allocators with one header each: freeing everything of the first takes both headers out. */
  method UnlinksForeignHeader() returns (memory: DebugMemory, kept: Header)
    ensures memory.Valid() && memory.Headers == [] && kept.alloc != 1
  {
    memory := new DebugMemory();
    var own := new Header(1);
    kept := new Header(2);
    memory.AddHeader(kept);
    memory.AddHeader(own);
    memory.UnlinkAll(1);
  }

  lemma SwappedIsDistinct(hs: seq<Header>, i: nat, n: Header)
    requires Distinct(hs) && i < |hs| && n !in hs
    ensures Distinct(hs[i := n])
  {
  }
}
