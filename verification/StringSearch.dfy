/** Searching for a substring on bytes, four at a time, and what it means for code points. */
module StringSearch {
  import opened Utf8
  import opened Utf8Sequences
  import opened WordTricks

  predicate BytesAt(haystack: seq<Byte>, needle: seq<Byte>, p: int) {
    0 <= p && p + |needle| <= |haystack| && haystack[p..p + |needle|] == needle
  }

  /** The needle's code points stand in the haystack from index k on. */
  predicate OccursAt(haystack: seq<Encodable>, needle: seq<Encodable>, k: int) {
    0 <= k && k + |needle| <= |haystack| && haystack[k..k + |needle|] == needle
  }

  /** The least index from `from` on at which the needle occurs, or -1 when there is none. */
  predicate IsFirstFrom(haystack: seq<Encodable>, needle: seq<Encodable>, from: nat, index: int) {
    if index == -1 then
      forall k :: from <= k < |haystack| ==> !OccursAt(haystack, needle, k)
    else
      from <= index && OccursAt(haystack, needle, index) && forall k :: from <= k < index ==> !OccursAt(haystack, needle, k)
  }

  lemma OccurrenceIsBytes(haystack: seq<Encodable>, needle: seq<Encodable>, k: nat)
    requires OccursAt(haystack, needle, k)
    ensures BytesAt(Encode(haystack), Encode(needle), Offset(haystack, k))
  {
    EncodeSplit(haystack, k);
    var rest := haystack[k..];
    EncodeSplit(rest, |needle|);
    assert rest[..|needle|] == needle;
  }

  /** Matching bytes are matching code points, because the needle starts with a lead byte. */
  lemma BytesAreOccurrence(haystack: seq<Encodable>, needle: seq<Encodable>, p: nat) returns (k: nat)
    requires needle != [] && BytesAt(Encode(haystack), Encode(needle), p)
    ensures k < |haystack| && Offset(haystack, k) == p && OccursAt(haystack, needle, k)
  {
    FrontUnit(needle[0], Encode(needle));
    MatchedBytes(Encode(haystack), Encode(needle), p);
    k := BoundaryIsOffset(haystack, p);
    EncodeSplit(haystack, k);
    PrefixOfBytes(needle, haystack[k..]);
  }

  lemma MatchedBytes(haystack: seq<Byte>, needle: seq<Byte>, p: nat)
    requires needle != [] && BytesAt(haystack, needle, p)
    ensures haystack[p] == needle[0] && needle <= haystack[p..]
  {
    assert haystack[p..][..|needle|] == needle;
  }

  predicate NoneIn(haystack: seq<Byte>, needle: seq<Byte>, low: nat, high: nat) {
    forall q :: low <= q < high ==> !BytesAt(haystack, needle, q)
  }

  /** Where the first byte differs there is no match. */
  lemma SkipBytes(haystack: seq<Byte>, needle: seq<Byte>, low: nat, p: nat, next: nat)
    requires needle != [] && p <= next <= |haystack| && NoneIn(haystack, needle, low, p)
    requires needle[0] !in haystack[p..next]
    ensures NoneIn(haystack, needle, low, next)
  {
    forall q | low <= q < next
      ensures !BytesAt(haystack, needle, q)
    {
      if p <= q {
        assert haystack[p..next][q - p] == haystack[q] != needle[0];
      }
    }
  }

  /** Comes to the next place where the first byte of the needle stands, or to the end. */
  method SkipToByte(haystack: seq<Byte>, needle: seq<Byte>, start: nat, ghost low: nat) returns (p: nat)
    requires needle != [] && start <= |haystack| && NoneIn(haystack, needle, low, start)
    ensures start <= p <= |haystack| && NoneIn(haystack, needle, low, p)
    ensures p < |haystack| ==> haystack[p] == needle[0]
  {
    p := start;
    while |haystack| - p > 4
      invariant start <= p <= |haystack| && NoneIn(haystack, needle, low, p)
    {
      var has := HasByteAt(haystack, p, needle[0]);
      if has { break; }
      SkipBytes(haystack, needle, low, p, p + 4);
      p := p + 4;
    }
    while p != |haystack|
      invariant start <= p <= |haystack| && NoneIn(haystack, needle, low, p)
    {
      if haystack[p] == needle[0] { break; }
      SkipBytes(haystack, needle, low, p, p + 1);
      p := p + 1;
    }
  }

  method MatchesAt(haystack: seq<Byte>, needle: seq<Byte>, p: nat) returns (matches: bool)
    requires needle != [] && p < |haystack| && haystack[p] == needle[0]
    ensures matches <==> BytesAt(haystack, needle, p)
  {
    var search, progress := p + 1, 1;
    while search != |haystack| && progress != |needle| && haystack[search] == needle[progress]
      invariant 1 <= progress <= |needle| && search == p + progress <= |haystack|
      invariant forall i :: 0 <= i < progress ==> haystack[p + i] == needle[i]
      decreases |needle| - progress
    {
      search, progress := search + 1, progress + 1;
    }
    matches := progress == |needle|;
  }

  /** The search on bytes: the least position from `start` on where all bytes of the needle stand. */
  method FindBytes(haystack: seq<Byte>, needle: seq<Byte>, start: nat) returns (found: bool, p: nat)
    requires needle != [] && start <= |haystack|
    ensures found ==> start <= p && BytesAt(haystack, needle, p) && NoneIn(haystack, needle, start, p)
    ensures !found ==> NoneIn(haystack, needle, start, |haystack|)
  {
    p := start;
    while p != |haystack|
      invariant start <= p <= |haystack| && NoneIn(haystack, needle, start, p)
    {
      p := SkipToByte(haystack, needle, p, start);
      if p == |haystack| {
        return false, p;
      }
      found := MatchesAt(haystack, needle, p);
      if found {
        return true, p;
      }
      p := p + 1;
    }
    found := false;
  }

  lemma NotFoundInBytes(haystack: seq<Encodable>, needle: seq<Encodable>, from: nat)
    requires needle != [] && from <= |haystack|
    requires NoneIn(Encode(haystack), Encode(needle), Offset(haystack, from), |Encode(haystack)|)
    ensures IsFirstFrom(haystack, needle, from, -1)
  {
    FrontUnit(needle[0], Encode(needle));
    forall k | from <= k < |haystack|
      ensures !OccursAt(haystack, needle, k)
    {
      OffsetMonotone(haystack, from, k);
      if OccursAt(haystack, needle, k) {
        OccurrenceIsBytes(haystack, needle, k);
      }
    }
  }

  lemma FoundInBytes(haystack: seq<Encodable>, needle: seq<Encodable>, from: nat, p: nat)
    requires needle != [] && from <= |haystack| && Offset(haystack, from) <= p
    requires BytesAt(Encode(haystack), Encode(needle), p)
    requires NoneIn(Encode(haystack), Encode(needle), Offset(haystack, from), p)
    ensures IsFirstFrom(haystack, needle, from, Leads(Encode(haystack)[..p]))
  {
    var index := BytesAreOccurrence(haystack, needle, p);
    LeadsBefore(haystack, index);
    if index < from {
      OffsetMonotone(haystack, index, from);
    }
    forall k | from <= k < index
      ensures !OccursAt(haystack, needle, k)
    {
      OffsetMonotone(haystack, from, k);
      OffsetMonotone(haystack, k, index);
      if OccursAt(haystack, needle, k) {
        OccurrenceIsBytes(haystack, needle, k);
      }
    }
  }

  /**
   * The index of the first occurrence from a start index on, which counts from the end when it is
   * negative. A start that names the first code point from the end, -length, is turned away
   * although it is in range, so the answer is right unless that hides an occurrence.
   */
  method FindSubstring(haystack: seq<Byte>, length: int, needle: seq<Byte>, start: int,
                       ghost haystackCps: seq<Encodable>, ghost needleCps: seq<Encodable>)
    returns (index: int)
    requires haystack == Encode(haystackCps) && length == |haystackCps|
    requires needle == Encode(needleCps) && needleCps != []
    ensures start <= -length ==> index == -1
    ensures start >= -length ==>
      var from := if start < 0 then length + start else start;
      IsFirstFrom(haystackCps, needleCps, from, index) <==>
        !(start == -length && exists k :: OccursAt(haystackCps, needleCps, k))
  {
    FrontUnit(needleCps[0], needle);
    if length == 0 || start >= length || start <= -length {
      return -1;
    }
    var from := if start < 0 then length + start else start;
    var p := GetCpAtIndex(haystack, from, haystackCps);
    var found;
    found, p := FindBytes(haystack, needle, p);
    if found {
      FoundInBytes(haystackCps, needleCps, from, p);
      index := Utf8Length(haystack[..p]);
    } else {
      NotFoundInBytes(haystackCps, needleCps, from);
      index := -1;
    }
  }

  /** How many times the needle occurs from an index on, overlapping occurrences included. */
  ghost function OccurrencesFrom(haystack: seq<Encodable>, needle: seq<Encodable>, from: int): nat
    decreases |haystack| - from
  {
    if from >= |haystack| then 0
    else (if OccursAt(haystack, needle, from) then 1 else 0) + OccurrencesFrom(haystack, needle, from + 1)
  }

  lemma {:induction false} NoOccurrencesBetween(haystack: seq<Encodable>, needle: seq<Encodable>, low: nat, high: nat)
    requires low <= high && forall k :: low <= k < high ==> !OccursAt(haystack, needle, k)
    ensures OccurrencesFrom(haystack, needle, low) == OccurrencesFrom(haystack, needle, high)
    decreases high - low
  {
    if low < high {
      NoOccurrencesBetween(haystack, needle, low + 1, high);
    }
  }

  /** The indices from one on at which the needle occurs. */
  ghost function OccurrenceSet(haystack: seq<Encodable>, needle: seq<Encodable>, from: nat): set<nat> {
    set k: nat | from <= k < |haystack| && OccursAt(haystack, needle, k)
  }

  lemma {:induction false} OccurrencesAreSet(haystack: seq<Encodable>, needle: seq<Encodable>, from: nat)
    ensures OccurrencesFrom(haystack, needle, from) == |OccurrenceSet(haystack, needle, from)|
    decreases |haystack| - from
  {
    if from >= |haystack| {
      assert OccurrenceSet(haystack, needle, from) == {};
    } else {
      OccurrencesAreSet(haystack, needle, from + 1);
      var rest := OccurrenceSet(haystack, needle, from + 1);
      assert OccurrenceSet(haystack, needle, from) == if OccursAt(haystack, needle, from) then {from} + rest else rest;
    }
  }

  /** Counts by searching again right behind the start of each occurrence. */
  method CountOccurrences(haystack: seq<Byte>, length: int, needle: seq<Byte>,
                          ghost haystackCps: seq<Encodable>, ghost needleCps: seq<Encodable>) returns (result: nat)
    requires haystack == Encode(haystackCps) && length == |haystackCps|
    requires needle == Encode(needleCps) && needleCps != []
    ensures result == |set k: nat | k < length && OccursAt(haystackCps, needleCps, k)|
  {
    OccurrencesAreSet(haystackCps, needleCps, 0);
    assert OccurrenceSet(haystackCps, needleCps, 0) == set k: nat | k < length && OccursAt(haystackCps, needleCps, k);
    result := 0;
    var index := FindNext(haystack, length, needle, 0, haystackCps, needleCps);
    while index != -1
      invariant -1 <= index < length || index == -1
      invariant index != -1 ==> OccursAt(haystackCps, needleCps, index)
      invariant result + (if index == -1 then 0 else OccurrencesFrom(haystackCps, needleCps, index))
             == OccurrencesFrom(haystackCps, needleCps, 0)
      decreases if index == -1 then -1 else length - index
    {
      result := result + 1;
      index := index + 1;
      if index >= length {
        break;
      }
      index := FindNext(haystack, length, needle, index, haystackCps, needleCps);
    }
  }

  /** The next occurrence, and that none was passed over. */
  method FindNext(haystack: seq<Byte>, length: int, needle: seq<Byte>, start: int,
                  ghost haystackCps: seq<Encodable>, ghost needleCps: seq<Encodable>)
    returns (index: int)
    requires haystack == Encode(haystackCps) && length == |haystackCps| && 0 <= start <= length
    requires needle == Encode(needleCps) && needleCps != []
    ensures index == -1 || (start <= index < length && OccursAt(haystackCps, needleCps, index))
    ensures OccurrencesFrom(haystackCps, needleCps, start)
         == if index == -1 then 0 else OccurrencesFrom(haystackCps, needleCps, index)
  {
    index := FindSubstring(haystack, length, needle, start, haystackCps, needleCps);
    NoOccurrencesBetween(haystackCps, needleCps, start, if index == -1 then length else index);
  }

  /** A search from -length misses a needle that is there. */
  method MissesFirstFromEnd() returns (index: int)
    ensures index == -1 && OccursAt([97], [97], 0)
  {
    var a: Encodable := 97;
    EncodeSingle(a);
    index := FindSubstring([a], 1, [a], -1, [a], [a]);
    assert OccursAt([a], [a], 0);
  }
}
