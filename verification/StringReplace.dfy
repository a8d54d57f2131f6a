/**
 * Replacing every occurrence of a substring in place, with a search that compares as many bytes
 * as the target has without looking where the array ends.
 */
module StringReplace {
  import opened MemoryMoves
  import opened Strings
  import opened Utf8
  import opened Utf8Sequences

  // ----- what replacing means

  predicate MatchAt<T(==)>(s: seq<T>, target: seq<T>, p: int) {
    0 <= p && p + |target| <= |s| && s[p..p + |target|] == target
  }

  /** From left to right, every match gives way to the replacement, and the search goes on behind it. */
  function ReplaceEach<T(==)>(s: seq<T>, target: seq<T>, replacement: seq<T>): seq<T>
    requires target != []
    decreases |s|
  {
    if |s| < |target| then s
    else if target <= s then replacement + ReplaceEach(s[|target|..], target, replacement)
    else [s[0]] + ReplaceEach(s[1..], target, replacement)
  }

  predicate NoMatchBefore<T(==)>(s: seq<T>, target: seq<T>, n: int) {
    forall p :: 0 <= p < n ==> !MatchAt(s, target, p)
  }

  /** What has no match in front is kept. */
  lemma {:induction false} ReplaceKeepsFront<T>(s: seq<T>, target: seq<T>, replacement: seq<T>, n: nat)
    requires target != [] && n <= |s| && NoMatchBefore(s, target, n)
    ensures ReplaceEach(s, target, replacement) == s[..n] + ReplaceEach(s[n..], target, replacement)
  {
    if n > 0 {
      if |s| >= |target| {
        assert s[0..0 + |target|] == s[..|target|];
        assert !MatchAt(s, target, 0);
        MatchFurtherOn(s, target, n);
        ReplaceKeepsFront(s[1..], target, replacement, n - 1);
        assert s[1..][n - 1..] == s[n..];
        assert [s[0]] + s[1..][..n - 1] == s[..n];
      }
    }
  }

  lemma MatchFurtherOn<T>(s: seq<T>, target: seq<T>, n: nat)
    requires 0 < n <= |s| && NoMatchBefore(s, target, n)
    ensures NoMatchBefore(s[1..], target, n - 1)
  {
    forall p | 0 <= p < n - 1
      ensures !MatchAt(s[1..], target, p)
    {
      var q := p + 1;
      assert !MatchAt(s, target, q);
      if p + |target| <= |s[1..]| {
        assert s[1..][p..p + |target|] == s[q..q + |target|];
      }
    }
  }

  lemma ReplaceAtMatch<T>(s: seq<T>, target: seq<T>, replacement: seq<T>, p: nat)
    requires target != [] && MatchAt(s, target, p) && NoMatchBefore(s, target, p)
    ensures ReplaceEach(s, target, replacement)
         == s[..p] + replacement + ReplaceEach(s[p + |target|..], target, replacement)
  {
    hide ReplaceEach, MatchAt, NoMatchBefore;
    MatchIsPrefix(s, target, p);
    ReplaceKeepsFront(s, target, replacement, p);
    ReplaceFront(s[p..], target, replacement);
    AppendAssociates(s[..p], replacement, ReplaceEach(s[p + |target|..], target, replacement));
  }

  lemma MatchIsPrefix<T>(s: seq<T>, target: seq<T>, p: nat)
    requires MatchAt(s, target, p)
    ensures p + |target| <= |s| && target <= s[p..] && s[p..][|target|..] == s[p + |target|..]
  {
    assert s[p..][..|target|] == s[p..p + |target|];
  }

  lemma AppendAssociates<T>(a: seq<T>, b: seq<T>, c: seq<T>)
    ensures a + (b + c) == a + b + c
  {
  }

  lemma ReplaceFront<T>(s: seq<T>, target: seq<T>, replacement: seq<T>)
    requires target != [] && target <= s
    ensures ReplaceEach(s, target, replacement) == replacement + ReplaceEach(s[|target|..], target, replacement)
  {
  }

  lemma ReplaceNothing<T>(s: seq<T>, target: seq<T>, replacement: seq<T>)
    requires target != [] && NoMatchBefore(s, target, |s|)
    ensures ReplaceEach(s, target, replacement) == s
  {
    ReplaceKeepsFront(s, target, replacement, |s|);
    assert s[..|s|] == s && s[|s|..] == [];
  }

  /** Where the first match is, or -1. */
  function FirstMatch<T(==)>(s: seq<T>, target: seq<T>): (p: int)
    requires target != []
    ensures p == -1 || 0 <= p <= |s| - |target|
    decreases |s|
  {
    if |s| < |target| then -1
    else if target <= s then 0
    else var p := FirstMatch(s[1..], target); if p == -1 then -1 else p + 1
  }

  /** The first match is the match without one before it, and -1 says that there is none. */
  lemma {:induction false} FirstMatchIsFirst<T>(s: seq<T>, target: seq<T>)
    requires target != []
    ensures var p := FirstMatch(s, target);
      -1 <= p && if p == -1 then NoMatchBefore(s, target, |s|) else MatchAt(s, target, p) && NoMatchBefore(s, target, p)
    decreases |s|
  {
    MatchInFront(s, target);
    if |s| >= |target| && !(target <= s) {
      FirstMatchIsFirst(s[1..], target);
      forall q | 0 < q <= |s|
        ensures MatchAt(s, target, q) <==> MatchAt(s[1..], target, q - 1)
      {
        MatchBehind(s, target, q);
      }
      FirstMatchBehind(s, target);
    }
  }

  lemma MatchInFront<T>(s: seq<T>, target: seq<T>)
    ensures MatchAt(s, target, 0) <==> target <= s
  {
    if |s| >= |target| {
      assert s[0..0 + |target|] == s[..|target|];
    }
  }

  lemma MatchBehind<T>(s: seq<T>, target: seq<T>, q: nat)
    requires 0 < q <= |s|
    ensures MatchAt(s, target, q) <==> MatchAt(s[1..], target, q - 1)
  {
    if q + |target| <= |s| {
      assert s[1..][q - 1..q - 1 + |target|] == s[q..q + |target|];
    }
  }

  lemma FirstMatchBehind<T>(s: seq<T>, target: seq<T>)
    requires target != [] && |s| >= |target| && !MatchAt(s, target, 0) && !(target <= s)
    requires forall q {:trigger MatchAt(s, target, q)} :: 0 < q <= |s| ==> (MatchAt(s, target, q) <==> MatchAt(s[1..], target, q - 1))
    requires var p := FirstMatch(s[1..], target);
      -1 <= p && if p == -1 then NoMatchBefore(s[1..], target, |s[1..]|)
                 else MatchAt(s[1..], target, p) && NoMatchBefore(s[1..], target, p)
    ensures var p := FirstMatch(s, target);
      -1 <= p && if p == -1 then NoMatchBefore(s, target, |s|) else MatchAt(s, target, p) && NoMatchBefore(s, target, p)
  {
    hide MatchAt;
    var p := FirstMatch(s, target);
    assert p != -1 ==> (MatchAt(s, target, p) <==> MatchAt(s[1..], target, p - 1));
    forall q | 0 <= q < (if p == -1 then |s| else p)
      ensures !MatchAt(s, target, q)
    {
      assert q > 0 ==> !MatchAt(s[1..], target, q - 1);
    }
  }

  /** Where the result is finished with the last replacement: from there on nothing was replaced. */
  function LastEnd<T(==)>(s: seq<T>, target: seq<T>, replacement: seq<T>): nat
    requires target != []
    decreases |s|
  {
    FirstMatchIsFirst(s, target);
    var p := FirstMatch(s, target);
    if p == -1 then 0 else p + |replacement| + LastEnd(s[p + |target|..], target, replacement)
  }

  lemma FirstMatchUnique<T>(s: seq<T>, target: seq<T>, p: nat)
    requires target != [] && MatchAt(s, target, p) && NoMatchBefore(s, target, p)
    ensures FirstMatch(s, target) == p
  {
    FirstMatchIsFirst(s, target);
  }

  lemma LastEndAtMatch<T>(s: seq<T>, target: seq<T>, replacement: seq<T>, p: nat)
    requires target != [] && MatchAt(s, target, p) && NoMatchBefore(s, target, p)
    ensures LastEnd(s, target, replacement) == p + |replacement| + LastEnd(s[p + |target|..], target, replacement)
  {
    FirstMatchUnique(s, target, p);
  }

  lemma NoFirstMatch<T>(s: seq<T>, target: seq<T>)
    requires target != [] && NoMatchBefore(s, target, |s|)
    ensures FirstMatch(s, target) == -1
  {
    FirstMatchIsFirst(s, target);
  }

  // ----- replacing by cutting into pieces

  /** The pieces with something between each two of them. */
  function Joined<T>(pieces: seq<seq<T>>, between: seq<T>): seq<T>
    requires pieces != []
  {
    if |pieces| == 1 then pieces[0] else pieces[0] + between + Joined(pieces[1..], between)
  }

  /** The pieces the targets leave when each is taken at the first place where it matches. */
  predicate IsCut<T(==)>(s: seq<T>, target: seq<T>, pieces: seq<seq<T>>) {
    && pieces != [] && s == Joined(pieces, target)
    && (forall i :: 0 <= i < |pieces| - 1 ==> NoMatchBefore(pieces[i] + target, target, |pieces[i]|))
    && NoMatchBefore(pieces[|pieces| - 1], target, |pieces[|pieces| - 1]|)
  }

  /** Replacing puts the replacement between these pieces instead of the target, and ends before the last one. */
  lemma {:induction false} ReplaceJoins<T>(s: seq<T>, target: seq<T>, replacement: seq<T>, pieces: seq<seq<T>>)
    requires target != [] && IsCut(s, target, pieces)
    ensures ReplaceEach(s, target, replacement) == Joined(pieces, replacement)
    ensures LastEnd(s, target, replacement) == |Joined(pieces, replacement)| - |pieces[|pieces| - 1]|
    decreases |pieces|
  {
    hide ReplaceEach, MatchAt, NoMatchBefore, FirstMatch;
    if |pieces| == 1 {
      ReplaceNothing(s, target, replacement);
      NoFirstMatch(s, target);
    } else {
      var front, rest := pieces[0], Joined(pieces[1..], target);
      ReplaceJoins(rest, target, replacement, pieces[1..]);
      CutInFront(front, target, rest);
      ReplaceAtMatch(s, target, replacement, |front|);
      LastEndAtMatch(s, target, replacement, |front|);
      assert s[..|front|] == front && s[|front| + |target|..] == rest;
    }
  }

  /** The first match does not depend on what comes behind it. */
  lemma CutInFront<T>(front: seq<T>, target: seq<T>, rest: seq<T>)
    requires NoMatchBefore(front + target, target, |front|)
    ensures MatchAt(front + target + rest, target, |front|) && NoMatchBefore(front + target + rest, target, |front|)
  {
    var s := front + target + rest;
    forall p | 0 <= p < |front|
      ensures !MatchAt(s, target, p)
    {
      assert !MatchAt(front + target, target, p);
      assert s[p..p + |target|] == (front + target)[p..p + |target|];
    }
  }

  lemma CutBehind<T>(s: seq<T>, target: seq<T>, p: nat)
    requires MatchAt(s, target, p) && NoMatchBefore(s, target, p)
    ensures s == s[..p] + target + s[p + |target|..] && NoMatchBefore(s[..p] + target, target, p)
  {
    assert s == s[..p] + s[p..p + |target|] + s[p + |target|..];
    forall q | 0 <= q < p
      ensures !MatchAt(s[..p] + target, target, q)
    {
      assert !MatchAt(s, target, q);
      assert s[q..q + |target|] == (s[..p] + target)[q..q + |target|];
    }
  }

  /** Every sequence can be cut in this way. */
  lemma {:induction false} CutExists<T>(s: seq<T>, target: seq<T>) returns (pieces: seq<seq<T>>)
    requires target != []
    ensures IsCut(s, target, pieces)
    decreases |s|
  {
    hide MatchAt, NoMatchBefore, FirstMatch;
    FirstMatchIsFirst(s, target);
    var p := FirstMatch(s, target);
    if p == -1 {
      pieces := [s];
    } else {
      CutBehind(s, target, p);
      var rest := CutExists(s[p + |target|..], target);
      pieces := [s[..p]] + rest;
      assert pieces[1..] == rest;
    }
  }

  // ----- bytes and code points

  /** A match of bytes does not start inside the first code point. */
  lemma NoMatchInsideUnit(cps: seq<Encodable>, target: seq<Encodable>)
    requires cps != [] && target != [] && !(target <= cps)
    ensures SizeOfCodePoint(cps[0]) <= |Encode(cps)|
    ensures NoMatchBefore(Encode(cps), Encode(target), SizeOfCodePoint(cps[0]))
  {
    var s, t := Encode(cps), Encode(target);
    FrontUnit(cps[0], s);
    FrontUnit(target[0], t);
    forall p | 0 <= p < SizeOfCodePoint(cps[0])
      ensures !MatchAt(s, t, p)
    {
      if MatchAt(s, t, p) {
        assert s[p] == t[0];
        assert p == 0;
        assert t <= s;
        PrefixOfBytes(target, cps);
      }
    }
  }

  /** Replacing in the bytes is replacing in the code points. */
  lemma {:induction false} ReplaceBytesIsReplaceCps(cps: seq<Encodable>, target: seq<Encodable>, replacement: seq<Encodable>)
    requires target != []
    ensures Encode(target) != []
    ensures Encode(ReplaceEach(cps, target, replacement))
         == ReplaceEach(Encode(cps), Encode(target), Encode(replacement))
    decreases |cps|
  {
    FrontUnit(target[0], Encode(target));
    if target <= cps {
      var rest := cps[|target|..];
      assert cps == target + rest;
      EncodeAppend(target, rest);
      ReplaceBytesIsReplaceCps(rest, target, replacement);
      EncodeAppend(replacement, ReplaceEach(rest, target, replacement));
      assert Encode(cps)[|Encode(target)|..] == Encode(rest);
    } else if cps != [] {
      var size := SizeOfCodePoint(cps[0]);
      NoMatchInsideUnit(cps, target);
      ReplaceKeepsFront(Encode(cps), Encode(target), Encode(replacement), size);
      ReplaceBytesIsReplaceCps(cps[1..], target, replacement);
      assert Encode(cps)[size..] == Encode(cps[1..]) && Encode(cps)[..size] == EncodeCp(cps[0]);
      ReplaceStepsOver(cps, target, replacement);
      EncodeAppend([cps[0]], ReplaceEach(cps[1..], target, replacement));
      EncodeSingle(cps[0]);
    }
  }

  lemma ReplaceStepsOver<T>(s: seq<T>, target: seq<T>, replacement: seq<T>)
    requires target != [] && s != [] && !(target <= s)
    ensures ReplaceEach(s, target, replacement) == [s[0]] + ReplaceEach(s[1..], target, replacement)
  {
    assert s == [s[0]] + s[1..];
  }

  // ----- searching

  /** The byte at a position: in the block, or whatever memory holds behind it. */
  function ByteAt(block: seq<Byte>, behind: int -> Byte, p: nat): Byte {
    if p < |block| then block[p] else behind(p)
  }

  /** What the search takes for a match. */
  predicate LooksLikeMatch(block: seq<Byte>, behind: int -> Byte, target: seq<Byte>, p: nat) {
    forall k :: 0 <= k < |target| ==> ByteAt(block, behind, p + k) == target[k]
  }

  /** The first place from start on that looks like a match. */
  predicate FirstLook(block: seq<Byte>, behind: int -> Byte, target: seq<Byte>, start: nat, at: nat) {
    && start <= at && LooksLikeMatch(block, behind, target, at)
    && forall p :: start <= p < at ==> !LooksLikeMatch(block, behind, target, p)
  }

  /** The first match from start on, or -1 when there is none. */
  predicate IsFirstMatch(s: seq<Byte>, target: seq<Byte>, start: nat, index: int) {
    if index == -1 then NoMatchIn(s, target, start, |s|)
    else start <= index && MatchAt(s, target, index) && NoMatchIn(s, target, start, index)
  }

  lemma MatchLooksLikeOne(block: seq<Byte>, behind: int -> Byte, count: nat, target: seq<Byte>, p: nat)
    requires count <= |block| && p + |target| <= count
    ensures MatchAt(block[..count], target, p) <==> LooksLikeMatch(block, behind, target, p)
  {
    var s := block[..count];
    var window := s[p..p + |target|];
    assert forall k :: 0 <= k < |target| ==> window[k] == ByteAt(block, behind, p + k);
  }

  /**
   * The search for a subarray. It stops at the first place that looks like a match. The result is
   * right exactly when there is a match from start on, or no place looks like one; otherwise it is
   * a place from which the target runs over the end of the array.
   */
  method FindSubarray(block: seq<Byte>, behind: int -> Byte, count: nat, target: seq<Byte>, start: nat)
    returns (index: int)
    requires start < count <= |block| && target != []
    ensures -1 <= index < count
    ensures index != -1 ==> FirstLook(block, behind, target, start, index)
    ensures index == -1 ==> forall p :: start <= p < count ==> !LooksLikeMatch(block, behind, target, p)
    ensures IsFirstMatch(block[..count], target, start, index) <==>
      || (exists p :: start <= p && MatchAt(block[..count], target, p))
      || (forall p :: start <= p < count ==> !LooksLikeMatch(block, behind, target, p))
    ensures IsFirstMatch(block[..count], target, start, index) <==> index == -1 || index + |target| <= count
    ensures index != -1 && index + |target| > count ==> IsFirstMatch(block[..count], target, start, -1)
  {
    ghost var s := block[..count];
    for it := start to count
      invariant NoMatchIn(s, target, start, it)
      invariant forall p :: start <= p < it ==> !LooksLikeMatch(block, behind, target, p)
    {
      var progress := 0;
      while progress != |target|
        invariant 0 <= progress <= |target|
        invariant forall k :: 0 <= k < progress ==> ByteAt(block, behind, it + k) == target[k]
      {
        if ByteAt(block, behind, it + progress) != target[progress] { break; }
        progress := progress + 1;
      }
      if it + |target| <= count {
        MatchLooksLikeOne(block, behind, count, target, it);
      }
      if progress == |target| {
        return it;
      }
    }
    return -1;
  }

  // ----- replacing in place

  /** Makes room for the replacement, or closes the gap, and copies the replacement in. */
  method ReplaceInBlock(block: array<Byte>, count: nat, at: nat, oldSize: nat, ptr: array<Byte>, size: nat)
    requires at + oldSize <= count <= block.Length && count - oldSize + size <= block.Length
    requires size <= ptr.Length && ptr != block
    modifies block
    ensures block[..count - oldSize + size] == Exchanged(old(block[..count]), at, at + oldSize, ptr[..size])
  {
    hide Moved, Written, Exchanged;
    ghost var s, x := block[..], ptr[..size];
    ResizeGap(block, count, at, oldSize, size);
    ghost var t := block[..];
    CopyBetween(block, at, ptr, size);
    ghost var u := block[..];
    MoveAndWrite(s, at, at + oldSize, count, x, t, u);
    assert block[..count - oldSize + size] == u[..count - oldSize + size];
  }

  /** One replacement of a match that lies inside the array. */
  method ReplaceRange(arr: Utf8String, at: nat, oldSize: nat, replacement: array<Byte>, size: nat)
    requires arr.ValidBytes() && at + oldSize <= arr.Count && size <= replacement.Length && replacement != arr.Data
    modifies arr`Data, arr`Allocated, arr`Count, arr.Owned()
    ensures arr.ValidBytes() && arr.Allocated != 0
    ensures fresh(arr.Data) || (arr.Data == old(arr.Data) && arr.Allocated == old(arr.Allocated))
    ensures arr.Bytes() == Exchanged(old(arr.Bytes()), at, at + oldSize, old(replacement[..size]))
    ensures arr.Count == old(arr.Count) - oldSize + size
    ensures fresh(arr.Data) ==> arr.Allocated >= 8
  {
    hide Exchanged;
    var diff: int := size as int - oldSize;
    // Reserved in any case, so that a view becomes a block of its own.
    arr.ArrayReserve(if diff < 0 then -diff else diff);
    ReplaceInBlock(arr.Data, arr.Count, at, oldSize, replacement, size);
    arr.Count := arr.Count + diff;
  }

  /** What the array holds when the last bytes of a replacement of the same size lie behind its end. */
  function WrittenOver<T>(s: seq<T>, at: nat, x: seq<T>): (r: seq<T>)
    requires at <= |s| <= at + |x|
    ensures |r| == |s|
  {
    s[..at] + x[..|s| - at]
  }

  /**
   * The same steps for what only looks like a match, when sizes are equal: nothing moves, and the
   * replacement is written over the end of the array, if the block has room for it.
   */
  method ReplaceOverEnd(arr: Utf8String, at: nat, replacement: array<Byte>, size: nat) returns (inBlock: bool)
    requires arr.ValidBytes() && at <= arr.Count < at + size && size <= replacement.Length && replacement != arr.Data
    modifies arr`Data, arr`Allocated, arr.Owned()
    ensures arr.ValidBytes() && arr.Allocated != 0 && inBlock == (at + size <= arr.Allocated)
    ensures fresh(arr.Data) || (arr.Data == old(arr.Data) && arr.Allocated == old(arr.Allocated))
    ensures fresh(arr.Data) ==> arr.Allocated >= 8
    ensures inBlock ==> arr.Bytes() == WrittenOver(old(arr.Bytes()), at, old(replacement[..size]))
    ensures !inBlock ==> arr.Bytes() == old(arr.Bytes())
  {
    ghost var bytes, x := arr.Bytes(), replacement[..size];
    arr.ArrayReserve(0);
    if at + size > arr.Allocated {
      return false;
    }
    CopyBetween(arr.Data, at, replacement, size);
    assert arr.Bytes() == WrittenOver(bytes, at, x);
    return true;
  }

  predicate NoMatchIn<T(==)>(s: seq<T>, target: seq<T>, low: nat, high: int) {
    forall p :: low <= p < high ==> !MatchAt(s, target, p)
  }

  lemma NoMatchInRest<T>(s: seq<T>, target: seq<T>, i: nat, high: int)
    requires i <= high <= |s| && NoMatchIn(s, target, i, high)
    ensures NoMatchBefore(s[i..], target, high - i)
  {
    forall q | 0 <= q < high - i
      ensures !MatchAt(s[i..], target, q)
    {
      var p := i + q;
      assert !MatchAt(s, target, p);
      if p + |target| <= |s| {
        assert s[i..][q..q + |target|] == s[p..p + |target|];
      }
    }
  }

  /** One replacement more, and the result still to come stays the same. */
  lemma ReplaceOneMore<T>(b: seq<T>, i: nat, p: nat, target: seq<T>, replacement: seq<T>, next: seq<T>)
    requires target != [] && i <= p && MatchAt(b, target, p) && NoMatchIn(b, target, i, p)
    requires next == Exchanged(b, p, p + |target|, replacement)
    ensures b[..i] + ReplaceEach(b[i..], target, replacement)
         == next[..p + |replacement|] + ReplaceEach(next[p + |replacement|..], target, replacement)
    ensures i + LastEnd(b[i..], target, replacement)
         == p + |replacement| + LastEnd(next[p + |replacement|..], target, replacement)
  {
    hide *;
    MatchIsPrefix(b, target, p);
    MatchInRest(b, target, i, p);
    NoMatchInRest(b, target, i, p);
    var front, middle, tail := b[..i], b[i..][..p - i], b[p + |target|..];
    AroundExchange(b, i, p, |target|, replacement, next);
    ReplaceOneMorePiece(b[i..], p - i, middle, tail, target, replacement);
    AppendAssociates(front, middle, replacement);
    AppendAssociates(front, middle + replacement, ReplaceEach(tail, target, replacement));
  }

  lemma ReplaceOneMorePiece<T>(rest: seq<T>, q: nat, middle: seq<T>, tail: seq<T>, target: seq<T>, replacement: seq<T>)
    requires target != [] && MatchAt(rest, target, q) && NoMatchBefore(rest, target, q) && q + |target| <= |rest|
    requires middle == rest[..q] && tail == rest[q + |target|..]
    ensures ReplaceEach(rest, target, replacement) == middle + replacement + ReplaceEach(tail, target, replacement)
    ensures LastEnd(rest, target, replacement) == q + |replacement| + LastEnd(tail, target, replacement)
  {
    hide *;
    ReplaceAtMatch(rest, target, replacement, q);
    LastEndAtMatch(rest, target, replacement, q);
  }

  lemma MatchInRest<T>(s: seq<T>, target: seq<T>, i: nat, p: nat)
    requires i <= p && MatchAt(s, target, p)
    ensures i <= |s| && MatchAt(s[i..], target, p - i)
  {
    assert s[i..][p - i..p - i + |target|] == s[p..p + |target|];
  }

  lemma AroundExchange<T>(b: seq<T>, i: nat, p: nat, size: nat, x: seq<T>, next: seq<T>)
    requires i <= p && p + size <= |b| && next == Exchanged(b, p, p + size, x)
    ensures |next| >= p + |x| && next[p + |x|..] == b[p + size..] == b[i..][p - i + size..]
    ensures next[..p + |x|] == b[..i] + b[i..][..p - i] + x
  {
    assert b[..p] == b[..i] + b[i..][..p - i];
  }

  lemma ReplaceNoMore<T>(b: seq<T>, i: nat, target: seq<T>, replacement: seq<T>)
    requires target != [] && i <= |b| && NoMatchIn(b, target, i, |b|)
    ensures b[..i] + ReplaceEach(b[i..], target, replacement) == b
    ensures LastEnd(b[i..], target, replacement) == 0
  {
    NoFirstMatch(b[i..], target) by {
      NoMatchInRest(b, target, i, |b|);
    }
    NoMatchInRest(b, target, i, |b|);
    ReplaceNothing(b[i..], target, replacement);
  }

  /** Nothing from end on looks like a match. */
  ghost predicate NothingLooksLike(block: seq<Byte>, behind: int -> Byte, count: nat, target: seq<Byte>, end: nat) {
    forall p :: end <= p < count ==> !LooksLikeMatch(block, behind, target, p)
  }

  /** From end on the bytes never break off in the middle of a target. */
  predicate NoBrokenTarget<T(==)>(s: seq<T>, target: seq<T>, end: nat) {
    forall p {:trigger s[p..]} :: end <= p < |s| ==> !(s[p..] <= target)
  }

  /**
   * With no match from end on, the search cannot be misled by any contents of memory behind the
   * bytes exactly when the bytes do not break off in the middle of a target.
   */
  lemma SafeWhateverFollows(s: seq<Byte>, target: seq<Byte>, end: nat)
    requires target != [] && IsFirstMatch(s, target, end, -1)
    ensures NoBrokenTarget(s, target, end) <==>
      forall block: seq<Byte>, behind: int -> Byte :: s <= block ==> NothingLooksLike(block, behind, |s|, target, end)
  {
    if NoBrokenTarget(s, target, end) {
      forall block: seq<Byte>, behind: int -> Byte | s <= block
        ensures NothingLooksLike(block, behind, |s|, target, end)
      {
        forall p | end <= p < |s|
          ensures !LooksLikeMatch(block, behind, target, p)
        {
          assert !MatchAt(s, target, p);
          if LooksLikeMatch(block, behind, target, p) {
            LooksLikeTail(s, target, block, behind, p);
          }
        }
      }
    } else {
      var p :| end <= p < |s| && s[p..] <= target;
      var behind := i => if p <= i < p + |target| then target[i - p] else 0;
      assert !MatchAt(s, target, p);
      assert LooksLikeMatch(s, behind, target, p);
      assert !NothingLooksLike(s, behind, |s|, target, end);
    }
  }

  /** What looks like a match is one, or breaks off at the end. */
  lemma LooksLikeTail(s: seq<Byte>, target: seq<Byte>, block: seq<Byte>, behind: int -> Byte, p: nat)
    requires s <= block && p < |s| && LooksLikeMatch(block, behind, target, p)
    ensures MatchAt(s, target, p) || s[p..] <= target
  {
    forall k | 0 <= k < |s| - p && k < |target|
      ensures s[p..][k] == target[k]
    {
      assert ByteAt(block, behind, p + k) == target[k];
      assert block[p + k] == s[p + k];
    }
    if p + |target| <= |s| {
      assert s[p..p + |target|] == s[p..][..|target|] == target;
    } else {
      assert s[p..] == target[..|s| - p];
    }
  }

  /**
   * How replacing ends: the last search finds nothing, or it finds something that runs over the
   * end of the array. Then a replacement of the same size is written there too, up to what the
   * block holds; what happens behind the block, or with the negative count of bytes to move that a
   * replacement of another size gives, is not defined.
   */
  datatype Outcome = Finished | RanOver(at: nat) | Undefined

  /** The bytes the array is left with, where replacing has a defined result. */
  ghost predicate Replaced(outcome: Outcome, result: seq<Byte>, target: seq<Byte>, x: seq<Byte>, now: seq<Byte>) {
    match outcome
    case Finished => now == result
    case RanOver(at) =>
      && at <= |result| < at + |x| && |x| == |target|
      && result[at..] <= target && now == WrittenOver(result, at, x)
    case Undefined => true
  }

  /**
   * How replacing ends, by what the last search, from end on, meets in the block and in the memory
   * behind it; room is the size of the block.
   */
  ghost predicate EndsAs(outcome: Outcome, block: seq<Byte>, behind: int -> Byte, count: nat, target: seq<Byte>,
                         end: nat, size: nat, room: nat)
  {
    if NothingLooksLike(block, behind, count, target, end) then outcome == Finished
    else
      exists at: nat | FirstLook(block, behind, target, end, at) ::
        outcome == if size == |target| && at + size <= room then RanOver(at) else Undefined
  }

  /** All that is known of an end: now is what the array holds, result what it should hold. */
  ghost predicate EndsRight(outcome: Outcome, block: seq<Byte>, behind: int -> Byte, result: seq<Byte>, end: nat,
                            target: seq<Byte>, x: seq<Byte>, room: nat, now: seq<Byte>)
  {
    && Replaced(outcome, result, target, x, now)
    && IsFirstMatch(result, target, end, -1)
    && result <= block && EndsAs(outcome, block, behind, |result|, target, end, |x|, room)
    && (NoBrokenTarget(result, target, end) ==> outcome == Finished)
  }

  lemma EndsFinished(block: seq<Byte>, behind: int -> Byte, bytes: seq<Byte>, i: nat, target: seq<Byte>, x: seq<Byte>, room: nat)
    requires bytes <= block && IsFirstMatch(bytes, target, i, -1)
    requires forall p :: i <= p < |bytes| ==> !LooksLikeMatch(block, behind, target, p)
    ensures EndsRight(Finished, block, behind, bytes, i, target, x, room, bytes)
  {
    hide LooksLikeMatch, MatchAt;
  }

  lemma EndsOver(outcome: Outcome, block: seq<Byte>, behind: int -> Byte, bytes: seq<Byte>, i: nat, at: nat,
                 target: seq<Byte>, x: seq<Byte>, room: nat, now: seq<Byte>)
    requires bytes <= block && IsFirstMatch(bytes, target, i, -1)
    requires FirstLook(block, behind, target, i, at) && at < |bytes| < at + |target|
    requires outcome == if |x| == |target| && at + |x| <= room then RanOver(at) else Undefined
    requires outcome.RanOver? ==> now == WrittenOver(bytes, at, x)
    ensures EndsRight(outcome, block, behind, bytes, i, target, x, room, now)
  {
    hide WrittenOver;
    LooksLikeTail(bytes, target, block, behind, at);
    hide MatchAt;
  }

  /** Up to i the bytes are done with; replacing what comes behind gives the result. */
  ghost predicate Underway<T>(before: seq<T>, target: seq<T>, x: seq<T>, now: seq<T>, i: nat)
    requires target != []
  {
    && i <= |now|
    && LastEnd(before, target, x) == i + LastEnd(now[i..], target, x)
    && ReplaceEach(before, target, x) == now[..i] + ReplaceEach(now[i..], target, x)
  }

  lemma UnderwayStart<T>(before: seq<T>, target: seq<T>, x: seq<T>)
    requires target != []
    ensures Underway(before, target, x, before, 0)
  {
    hide ReplaceEach, LastEnd;
    assert before[0..] == before && before[..0] == [];
  }

  lemma UnderwayNext<T>(before: seq<T>, target: seq<T>, x: seq<T>, now: seq<T>, i: nat, p: nat, next: seq<T>)
    requires target != [] && Underway(before, target, x, now, i)
    requires i <= p && MatchAt(now, target, p) && NoMatchIn(now, target, i, p)
    requires next == Exchanged(now, p, p + |target|, x)
    ensures Underway(before, target, x, next, p + |x|)
  {
    hide ReplaceEach, LastEnd, MatchAt, NoMatchIn;
    MatchIsPrefix(now, target, p);
    ReplaceOneMore(now, i, p, target, x, next);
  }

  lemma UnderwayEnds<T>(before: seq<T>, target: seq<T>, x: seq<T>, now: seq<T>, i: nat)
    requires target != [] && Underway(before, target, x, now, i) && NoMatchIn(now, target, i, |now|)
    ensures ReplaceEach(before, target, x) == now && LastEnd(before, target, x) == i
  {
    ReplaceNoMore(now, i, target, x);
  }

  /**
   * Replaces every match. It does so unless the search behind the last replacement takes bytes
   * behind the array for the rest of a match; that needs bytes that break off in the middle of a
   * target, and then it depends on what the block and memory hold there.
   */
  method ArrayReplaceAll(arr: Utf8String, target: seq<Byte>, replacement: array<Byte>, size: nat, behind: int -> Byte)
    returns (outcome: Outcome, ghost block: seq<Byte>)
    requires arr.ValidBytes() && size <= replacement.Length && replacement != arr.Data
    modifies arr`Data, arr`Allocated, arr`Count, arr.Owned()
    ensures arr.ValidBytes()
    ensures fresh(arr.Data) || (arr.Data == old(arr.Data) && arr.Allocated == old(arr.Allocated))
    ensures fresh(arr.Data) ==> arr.Allocated >= 8
    ensures target == [] ==> outcome == Finished && arr.Bytes() == old(arr.Bytes())
    ensures target != [] ==>
      var x := old(replacement[..size]);
      EndsRight(outcome, block, behind, ReplaceEach(old(arr.Bytes()), target, x), LastEnd(old(arr.Bytes()), target, x),
                target, x, arr.Allocated, arr.Bytes())
    ensures target != [] && NoMatchBefore(old(arr.Bytes()), target, old(arr.Count)) ==> block == old(arr.Data[..])
    ensures outcome != Finished && size == |target| ==> arr.Allocated != 0
  {
    hide Underway, Exchanged, WrittenOver, LooksLikeMatch, NoMatchIn, NoMatchBefore, EndsRight, MatchAt, FirstLook;
    hide ReplaceEach, LastEnd;
    block := arr.Data[..];
    if |target| == 0 {
      return Finished, block;
    }
    ghost var before, x := arr.Bytes(), replacement[..size];
    var i: nat := 0;
    UnderwayStart(before, target, x);
    while i < arr.Count
      invariant i <= arr.Count && arr.ValidBytes() && replacement != arr.Data && replacement[..size] == x
      invariant fresh(arr.Data) || (arr.Data == old(arr.Data) && arr.Allocated == old(arr.Allocated))
      invariant fresh(arr.Data) ==> arr.Allocated >= 8
      invariant Underway(before, target, x, arr.Bytes(), i)
      invariant NoMatchBefore(before, target, |before|) ==> arr.Data[..] == old(arr.Data[..]) && arr.Bytes() == before
      decreases arr.Count - i
    {
      ghost var bytes := arr.Bytes();
      block := arr.Data[..];
      var index := FindSubarray(arr.Data[..], behind, arr.Count, target, i);
      assert block[..arr.Count] == bytes;
      if index == -1 {
        UnderwayEnds(before, target, x, bytes, i);
        EndsFinished(block, behind, bytes, i, target, x, arr.Allocated);
        return Finished, block;
      }
      if index + |target| > arr.Count {
        UnderwayEnds(before, target, x, bytes, i);
        outcome := Undefined;
        if size == |target| {
          var inBlock := ReplaceOverEnd(arr, index, replacement, size);
          outcome := if inBlock then RanOver(index) else Undefined;
        }
        EndsOver(outcome, block, behind, bytes, i, index, target, x, arr.Allocated, arr.Bytes());
        return outcome, block;
      }
      NotUnmatched(bytes, target, index);
      ReplaceRange(arr, index, |target|, replacement, size);
      UnderwayNext(before, target, x, bytes, i, index, arr.Bytes());
      i := index + size;
    }
    block := arr.Data[..];
    NoMatchAtEnd(arr.Bytes(), target);
    UnderwayEnds(before, target, x, arr.Bytes(), i);
    EndsFinished(block, behind, arr.Bytes(), i, target, x, arr.Allocated);
    outcome := Finished;
  }

  lemma NoMatchAtEnd<T>(s: seq<T>, target: seq<T>)
    ensures NoMatchIn(s, target, |s|, |s|)
  {
  }

  lemma NotUnmatched<T>(s: seq<T>, target: seq<T>, p: nat)
    requires p < |s| && MatchAt(s, target, p)
    ensures !NoMatchBefore(s, target, |s|)
  {
  }

  /** What looks like one code point in encoded text is inside the text. */
  lemma UnitDoesNotRunOver(cps: seq<Encodable>, cp: Encodable, block: seq<Byte>, behind: int -> Byte, p: nat)
    requires Encode(cps) <= block && p < |Encode(cps)|
    requires LooksLikeMatch(block, behind, EncodeCp(cp), p)
    ensures p + |EncodeCp(cp)| <= |Encode(cps)|
  {
    FrontUnit(cp, EncodeCp(cp));
    assert ByteAt(block, behind, p + 0) == EncodeCp(cp)[0];
    assert block[p] == Encode(cps)[p];
    var i := BoundaryIsOffset(cps, p);
    UnitAtOffset(cps, i, block);
  }

  /**
   * Replaces every occurrence of a text by another one, in the bytes, and counts the code points
   * afresh. A target of one code point never makes the search run over the end.
   */
  method StringReplaceAll(s: Utf8String, target: seq<Byte>, replacement: array<Byte>, size: nat, behind: int -> Byte,
                          ghost oldText: seq<Encodable>, ghost newText: seq<Encodable>)
    returns (outcome: Outcome, ghost block: seq<Byte>)
    requires s.Valid() && size <= replacement.Length && replacement != s.Data
    requires target == Encode(oldText) && replacement[..size] == Encode(newText)
    modifies s, s.Owned()
    ensures s.ValidBytes() && s.Length == Leads(s.Bytes())
    ensures outcome == Finished ==>
      && s.Valid()
      && s.CodePoints == if oldText == [] then old(s.CodePoints) else ReplaceEach(old(s.CodePoints), oldText, newText)
    ensures oldText == [] ==> outcome == Finished
    ensures oldText != [] ==>
      EndsRight(outcome, block, behind, Encode(ReplaceEach(old(s.CodePoints), oldText, newText)),
                LastEnd(Encode(old(s.CodePoints)), target, Encode(newText)),
                target, Encode(newText), s.Allocated, s.Bytes())
    ensures |oldText| <= 1 ==> outcome == Finished
  {
    hide ReplaceEach, Encode, EncodeCp, LastEnd, LooksLikeMatch, NoBrokenTarget, Leads, MatchAt, WrittenOver;
    ghost var cps := s.CodePoints;
    outcome, block := ArrayReplaceAll(s, target, replacement, size, behind);
    if oldText == [] {
      EncodeNothing();
    } else {
      ghost var replaced := ReplaceEach(cps, oldText, newText);
      ReplaceBytesIsReplaceCps(cps, oldText, newText);
      if |oldText| == 1 {
        assert oldText == [oldText[0]];
        EncodeSingle(oldText[0]);
        OneCodePointIsSafe(replaced, oldText[0], block, behind, LastEnd(Encode(cps), target, Encode(newText)));
      }
      if outcome == Finished {
        s.CodePoints := replaced;
      }
    }
    s.Length := Utf8Length(s.Data[..s.Count]);
  }

  lemma OneCodePointIsSafe(cps: seq<Encodable>, cp: Encodable, block: seq<Byte>, behind: int -> Byte, end: nat)
    requires Encode(cps) <= block && IsFirstMatch(Encode(cps), EncodeCp(cp), end, -1)
    ensures forall p :: end <= p < |Encode(cps)| ==> !LooksLikeMatch(block, behind, EncodeCp(cp), p)
  {
    var s, count := Encode(cps), |Encode(cps)|;
    assert block[..count] == s;
    forall p | end <= p < count
      ensures !LooksLikeMatch(block, behind, EncodeCp(cp), p)
    {
      if p + |EncodeCp(cp)| <= count {
        MatchLooksLikeOne(block, behind, count, EncodeCp(cp), p);
      } else if LooksLikeMatch(block, behind, EncodeCp(cp), p) {
        UnitDoesNotRunOver(cps, cp, block, behind, p);
      }
    }
  }

  /** An array of one byte, in a block where the same byte follows: two of them are found in it. */
  method FindsWhatIsNotThere() returns (index: int)
    ensures index == 0 && IsFirstMatch([7], [7, 7], 0, -1)
  {
    index := FindSubarray([7, 7], _ => 0, 1, [7, 7], 0);
    assert [7, 7][..1] == [7];
    assert LooksLikeMatch([7, 7], _ => 0, [7, 7], 0);
  }

  /**
   * A view of "xa" where "b" follows: "ab" is found in it, and replacing that by "cd" gives "xc",
   * although nothing was to be replaced.
   */
  method ReplacesWhatIsNotThere(buffer: array<Byte>, replacement: array<Byte>)
    returns (arr: Utf8String, outcome: Outcome)
    requires buffer != replacement && buffer[..] == [120, 97, 98] && replacement[..] == [99, 100]
    ensures fresh(arr) && arr.ValidBytes() && outcome == RanOver(1) && arr.Bytes() == [120, 99]
    ensures ReplaceEach<Byte>([120, 97], [97, 98], [99, 100]) == [120, 97]
  {
    hide ReplaceEach, Encode, LooksLikeMatch, FirstLook;
    ghost var s: seq<Byte>, target: seq<Byte>, x: seq<Byte> := [120, 97], [97, 98], [99, 100];
    assert buffer[..2] == s && replacement[..2] == x;
    arr := new Utf8String.ViewBytes(buffer, 2);
    assert arr.Bytes() == s;
    NothingToReplace(s, target, x);
    ghost var block;
    var behind: int -> Byte := _ => 0;
    outcome, block := ArrayReplaceAll(arr, [97, 98], replacement, 2, behind);
    assert block == [120, 97, 98];
    LooksLikeSecond(block, behind, target);
  }

  lemma LooksLikeSecond(block: seq<Byte>, behind: int -> Byte, target: seq<Byte>)
    requires block == [120, 97, 98] && target == [97, 98]
    ensures LooksLikeMatch(block, behind, target, 1)
    ensures forall at :: FirstLook(block, behind, target, 0, at) ==> at == 1
  {
    assert ByteAt(block, behind, 0 + 0) != target[0];
  }

  lemma NothingToReplace<T>(s: seq<T>, target: seq<T>, x: seq<T>)
    requires |s| == 2 == |target| && s != target
    ensures NoMatchBefore(s, target, |s|)
    ensures ReplaceEach(s, target, x) == s && LastEnd(s, target, x) == 0
  {
    assert s[0..2] == s;
    ReplaceNothing(s, target, x);
    NoFirstMatch(s, target);
  }
}
