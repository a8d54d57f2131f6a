/** Moving bytes within one block of memory, where source and target may overlap. */
module MemoryMoves {
  import opened Utf8

  /** n bytes from src put at dst, everything else as it was. */
  function Moved(s: seq<Byte>, dst: nat, src: nat, n: nat): (r: seq<Byte>)
    requires dst + n <= |s| && src + n <= |s|
    ensures |r| == |s|
  {
    s[..dst] + s[src..src + n] + s[dst + n..]
  }

  /** The bytes from low to high have come over, and the others are as they were. */
  predicate CameOver(was: seq<Byte>, now: seq<Byte>, low: int, high: int, shift: int)
    requires |was| == |now| && 0 <= low + shift && high + shift <= |was|
  {
    && (forall k {:trigger now[k]} :: low <= k < high && 0 <= k < |now| ==> now[k] == was[k + shift])
    && (forall k {:trigger now[k]} :: 0 <= k < |now| && !(low <= k < high) ==> now[k] == was[k])
  }

  lemma AllCameOver(was: seq<Byte>, now: seq<Byte>, dst: nat, src: nat, size: nat)
    requires dst + size <= |was| && src + size <= |was| == |now|
    requires CameOver(was, now, dst, dst + size, src - dst)
    ensures now == Moved(was, dst, src, size)
  {
    var r := Moved(was, dst, src, size);
    forall k | 0 <= k < |now|
      ensures now[k] == r[k]
    {
      if dst <= k < dst + size {
        assert was[src..src + size][k - dst] == was[k + (src - dst)];
      }
    }
  }

  /** Copies within one block: forwards, or backwards when the target overlaps the end of the source. */
  method CopyMemory(a: array<Byte>, dst: nat, src: nat, size: nat)
    requires dst + size <= a.Length && src + size <= a.Length
    modifies a
    ensures a[..] == Moved(old(a[..]), dst, src, size)
  {
    hide Moved;
    ghost var was := a[..];
    if dst <= src || dst >= src + size {
      for i := 0 to size
        invariant CameOver(was, a[..], dst, dst + i, src - dst)
      {
        assert a[..][src + i] == was[src + i];
        a[dst + i] := a[src + i];
      }
    } else {
      for i := size downto 0
        invariant CameOver(was, a[..], dst + i, dst + size, src - dst)
      {
        assert a[..][src + i] == was[src + i];
        a[dst + i] := a[src + i];
      }
    }
    AllCameOver(was, a[..], dst, src, size);
  }
}
