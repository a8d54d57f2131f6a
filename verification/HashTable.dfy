/** The open-addressing hash table: tombstones, growth by powers of two, linear probing. */
module HashTables {
  import opened PowersOfTwo
  import opened Powers

  const FIRST_VALID_HASH := 2
  const MINIMUM_SIZE := 32

  /** One index of the three parallel arrays. Hash 0 marks an unused slot, hash 1 a removed one. */
  datatype Slot<K, V> = Slot(hash: nat, key: K, value: V)

  predicate IsLive<K, V>(x: Slot<K, V>) {
    x.hash >= FIRST_VALID_HASH
  }

  /** The hash that is stored: values below FIRST_VALID_HASH are lifted into the valid range. */
  function Lift(hash: nat): (r: nat)
    ensures r >= 2 && if hash >= 2 then r == hash else r == hash + 2
  {
    if hash < FIRST_VALID_HASH then hash + FIRST_VALID_HASH else hash
  }

  // ----- slots as a value

  ghost function Filled<K, V>(s: seq<Slot<K, V>>): nat {
    if s == [] then 0 else Filled(s[..|s| - 1]) + (if s[|s| - 1].hash != 0 then 1 else 0)
  }

  ghost function Live<K, V>(s: seq<Slot<K, V>>): (n: nat)
    ensures n <= Filled(s) <= |s|
  {
    if s == [] then 0 else Live(s[..|s| - 1]) + (if IsLive(s[|s| - 1]) then 1 else 0)
  }

  ghost function Only<K, V>(x: Slot<K, V>): multiset<Slot<K, V>> {
    if IsLive(x) then multiset{x} else multiset{}
  }

  /** The entries in the table, wherever they are. */
  ghost function Entries<K, V>(s: seq<Slot<K, V>>): multiset<Slot<K, V>> {
    if s == [] then multiset{} else Entries(s[..|s| - 1]) + Only(s[|s| - 1])
  }

  /** Index j lies on the probe path from home up to, and not including, i. */
  predicate Between(home: nat, j: nat, i: nat) {
    if home <= i then home <= j < i else home <= j || j < i
  }

  /** No unused slot lies between the home of an entry and its place. */
  ghost predicate Probing<K, V>(s: seq<Slot<K, V>>) {
    forall i, j :: 0 <= i < |s| && 0 <= j < |s| && IsLive(s[i]) && Between(s[i].hash % |s|, j, i) ==> s[j].hash != 0
  }

  ghost predicate AllUnused<K, V>(s: seq<Slot<K, V>>) {
    forall i :: 0 <= i < |s| ==> s[i].hash == 0
  }

  lemma {:induction false} UpdateCounts<K, V>(s: seq<Slot<K, V>>, i: nat, x: Slot<K, V>)
    requires i < |s|
    ensures Filled(s[i := x]) == Filled(s) - (if s[i].hash != 0 then 1 else 0) + (if x.hash != 0 then 1 else 0)
    ensures Live(s[i := x]) == Live(s) - (if IsLive(s[i]) then 1 else 0) + (if IsLive(x) then 1 else 0)
  {
    var t := s[i := x];
    var n := |s| - 1;
    if i == n {
      assert t[..n] == s[..n];
    } else {
      assert t[..n] == s[..n][i := x];
      UpdateCounts(s[..n], i, x);
    }
  }

  lemma {:induction false} UpdateEntries<K, V>(s: seq<Slot<K, V>>, i: nat, x: Slot<K, V>)
    requires i < |s|
    ensures Only(s[i]) <= Entries(s)
    ensures Entries(s[i := x]) + Only(s[i]) == Entries(s) + Only(x)
  {
    hide Only;
    var t := s[i := x];
    var n := |s| - 1;
    if i == n {
      assert t[..n] == s[..n];
    } else {
      assert t[..n] == s[..n][i := x];
      UpdateEntries(s[..n], i, x);
      AddToBoth(Entries(t[..n]), Only(s[i]), Entries(s[..n]), Only(x), Only(s[n]));
    }
  }

  lemma AddToBoth<T>(e': multiset<T>, a: multiset<T>, e: multiset<T>, b: multiset<T>, c: multiset<T>)
    requires e' + a == e + b
    ensures (e' + c) + a == (e + c) + b
  {
    assert (e' + c) + a == (e' + a) + c;
    assert (e + c) + b == (e + b) + c;
  }

  lemma TakenAway<T>(e: multiset<T>, a: multiset<T>, b: multiset<T>, e': multiset<T>)
    requires a <= e && e' + a == e + b
    ensures e' == e - a + b
  {
    forall x
      ensures e'[x] == (e - a + b)[x]
    {
      assert (e' + a)[x] == (e + b)[x];
    }
  }

  lemma {:induction false} NothingInUnused<K, V>(s: seq<Slot<K, V>>)
    requires AllUnused(s)
    ensures Entries(s) == multiset{} && Filled(s) == 0 && Live(s) == 0
  {
    if s != [] {
      NothingInUnused(s[..|s| - 1]);
    }
  }

  lemma {:induction false} NoneFilled<K, V>(s: seq<Slot<K, V>>)
    requires Filled(s) == 0
    ensures AllUnused(s)
  {
    if s != [] {
      NoneFilled(s[..|s| - 1]);
    }
  }

  lemma {:induction false} UnusedSlotExists<K, V>(s: seq<Slot<K, V>>) returns (e: nat)
    requires Filled(s) < |s|
    ensures e < |s| && s[e].hash == 0
  {
    if s[|s| - 1].hash == 0 {
      e := |s| - 1;
    } else {
      e := UnusedSlotExists(s[..|s| - 1]);
    }
  }

  lemma {:induction false} EntriesAreSlots<K, V>(s: seq<Slot<K, V>>, x: Slot<K, V>)
    ensures x in Entries(s) <==> IsLive(x) && x in s
  {
    if s != [] {
      EntriesAreSlots(s[..|s| - 1], x);
      assert s == s[..|s| - 1] + [s[|s| - 1]];
    }
  }

  lemma {:induction false} PrefixCounts<K, V>(s: seq<Slot<K, V>>, i: nat)
    requires i <= |s|
    ensures Live(s[..i]) <= Live(s)
    ensures i < |s| ==> Live(s[..i + 1]) == Live(s[..i]) + (if IsLive(s[i]) then 1 else 0)
    ensures i < |s| ==> Entries(s[..i + 1]) == Entries(s[..i]) + Only(s[i])
    decreases |s| - i
  {
    if i < |s| {
      assert s[..i + 1][..i] == s[..i];
      PrefixCounts(s, i + 1);
    } else {
      assert s[..i] == s;
    }
  }

  // ----- the map a table stands for

  /** The entries are exactly the pairs of m, once each, under the hashes of their keys. */
  ghost predicate Represents<K, V>(entries: multiset<Slot<K, V>>, m: map<K, V>, hashOf: K -> nat) {
    && (forall x :: x in entries ==>
          entries[x] == 1 && x.key in m && m[x.key] == x.value && x.hash == hashOf(x.key))
    && (forall k :: k in m ==> Slot(hashOf(k), k, m[k]) in entries)
  }

  lemma RepresentsAdd<K, V>(e: multiset<Slot<K, V>>, m: map<K, V>, hashOf: K -> nat, k: K, v: V)
    requires Represents(e, m, hashOf) && k !in m
    ensures Represents(e + multiset{Slot(hashOf(k), k, v)}, m[k := v], hashOf)
  {
  }

  lemma RepresentsReplace<K, V>(e: multiset<Slot<K, V>>, m: map<K, V>, hashOf: K -> nat, k: K, v: V)
    requires Represents(e, m, hashOf) && k in m
    ensures Represents(e - multiset{Slot(hashOf(k), k, m[k])} + multiset{Slot(hashOf(k), k, v)}, m[k := v], hashOf)
  {
  }

  lemma RepresentsRemove<K, V>(e: multiset<Slot<K, V>>, m: map<K, V>, hashOf: K -> nat, k: K)
    requires Represents(e, m, hashOf) && k in m
    ensures Represents(e - multiset{Slot(hashOf(k), k, m[k])}, m - {k}, hashOf)
  {
  }

  /** The map has as many pairs as there are entries. */
  lemma {:induction false} RepresentsSize<K, V>(e: multiset<Slot<K, V>>, m: map<K, V>, hashOf: K -> nat)
    requires Represents(e, m, hashOf)
    ensures |e| == |m|
    decreases |m|
  {
    if m == map[] {
      assert forall x :: x !in e;
      assert e == multiset{};
    } else {
      var k :| k in m;
      RepresentsRemove(e, m, hashOf, k);
      assert |m - {k}| == |m| - 1 by {
        assert (m - {k}).Keys == m.Keys - {k};
      }
      RepresentsSize(e - multiset{Slot(hashOf(k), k, m[k])}, m - {k}, hashOf);
    }
  }

  // ----- sizes

  /** The number of slots that are asked for when `taken` of them must fit. */
  function SizeFor(taken: nat): (r: nat)
    ensures IsPow2(r) && r >= MINIMUM_SIZE && r > taken
  {
    var p := CeilPow2(taken + 1);
    if p > MINIMUM_SIZE then p else MINIMUM_SIZE
  }

  /** It is the least power of two that is at least 32 and exceeds what is taken. */
  lemma SizeForIsLeast(taken: nat)
    ensures IsLeastPow2(SizeFor(taken), if taken < 32 then 32 else taken + 1)
  {
    assert IsPow2(32 / 2 / 2 / 2);
    CeilPow2IsLeastPow2(taken + 1);
    if taken < 32 {
      CeilPow2IsLeast(taken + 1, 32);
    }
  }

  lemma SizeForDoubles(taken: nat, size: nat)
    requires IsPow2(size) && size >= MINIMUM_SIZE && size <= taken
    ensures SizeFor(taken) >= 2 * size
    ensures taken < 2 * size ==> SizeFor(taken) == 2 * size
  {
    PowersApart(size, SizeFor(taken));
    if taken < 2 * size {
      assert IsPow2(2 * size);
      CeilPow2Unique(taken + 1, 2 * size);
    }
  }

  /**
   * The invariant on the slots and the counter of taken slots: a power of two of them, at most
   * half in use. A rehash counts the entries it moves once more, so the counter only bounds the
   * slots in use; what keeps the next growth large enough is the bound on counter and entries
   * together.
   */
  ghost predicate Sound<K, V>(s: seq<Slot<K, V>>, filled: nat) {
    && (|s| == 0 ==> filled == 0)
    && (|s| > 0 ==>
      && IsPow2(|s|) && |s| >= MINIMUM_SIZE
      && Filled(s) <= filled
      && 2 * Filled(s) <= |s|
      && 2 * filled <= |s| + 2
      && filled + Live(s) <= |s|)
  }

  lemma EvenSize(size: nat)
    requires IsPow2(size) && size >= MINIMUM_SIZE
    ensures size % 2 == 0
  {
  }

  /**
   * Every entry stands before the first unused slot that comes after its home, so a search that
   * stopped there would find what the search through the whole table finds.
   */
  lemma EntriesBeforeFirstUnused<K, V>(s: seq<Slot<K, V>>, hash: nat, e: nat)
    requires Probing(s) && e < |s| && s[e].hash == 0
    requires forall j :: 0 <= j < |s| && Between(hash % |s|, j, e) ==> s[j].hash != 0
    ensures forall i :: 0 <= i < |s| && IsLive(s[i]) && s[i].hash == hash ==> Between(hash % |s|, i, e)
  {
    forall i | 0 <= i < |s| && IsLive(s[i]) && s[i].hash == hash
      ensures Between(hash % |s|, i, e)
    {
      assert i != e && !Between(s[i].hash % |s|, e, i);
    }
  }

  /** Filling the unused slot that probing ends at keeps every entry reachable. */
  lemma TakingSlotKeepsProbing<K, V>(s: seq<Slot<K, V>>, index: nat, x: Slot<K, V>)
    requires index < |s| && Probing(s) && s[index].hash == 0 && x.hash != 0
    requires forall j :: 0 <= j < |s| && Between(x.hash % |s|, j, index) ==> s[j].hash != 0
    ensures Probing(s[index := x])
  {
  }

  /** Marking an entry as removed keeps every other entry reachable. */
  lemma RemovingKeepsProbing<K, V>(s: seq<Slot<K, V>>, index: nat, x: Slot<K, V>)
    requires index < |s| && Probing(s) && x.hash == 1
    ensures Probing(s[index := x])
  {
  }

  lemma RevaluingKeepsProbing<K, V>(s: seq<Slot<K, V>>, index: nat, x: Slot<K, V>)
    requires index < |s| && Probing(s) && x.hash == s[index].hash
    ensures Probing(s[index := x])
  {
  }

  // ----- insertion

  /** The new entry is in the first unused slot from its home on, and nothing else changed. */
  ghost predicate Placed<K, V>(s: seq<Slot<K, V>>, s': seq<Slot<K, V>>, at: nat, x: Slot<K, V>) {
    && at < |s| && s[at].hash == 0 && s' == s[at := x]
    && forall j :: 0 <= j < |s| && Between(x.hash % |s|, j, at) ==> s[j].hash != 0
  }

  /** One more entry, in a slot that was unused. */
  ghost predicate Inserted<K, V>(s: seq<Slot<K, V>>, filled: nat, s': seq<Slot<K, V>>, filled': nat, x: Slot<K, V>) {
    && Sound(s', filled') && |s'| == |s|
    && filled' == filled + 1
    && Filled(s') == Filled(s) + 1 && Live(s') == Live(s) + 1
    && Entries(s') == Entries(s) + multiset{x}
    && (Probing(s) ==> Probing(s'))
  }

  ghost predicate HasRoom<K, V>(s: seq<Slot<K, V>>, filled: nat) {
    |s| > 0 && 2 * (Filled(s) + 1) <= |s| && 2 * filled <= |s| && filled + Live(s) + 2 <= |s|
  }

  lemma PlacedIsInserted<K, V>(s: seq<Slot<K, V>>, filled: nat, s': seq<Slot<K, V>>, at: nat, x: Slot<K, V>)
    requires Sound(s, filled) && HasRoom(s, filled) && IsLive(x) && Placed(s, s', at, x)
    ensures Inserted(s, filled, s', filled + 1, x)
  {
    hide Probing, Entries, Filled, Live;
    UpdateCounts(s, at, x);
    UpdateEntries(s, at, x);
    if Probing(s) {
      TakingSlotKeepsProbing(s, at, x);
    }
  }

  /** What growth makes of s: the same entries and no tombstones, each entry counted once more. */
  ghost predicate Grown<K, V>(s: seq<Slot<K, V>>, filled: nat, s': seq<Slot<K, V>>, filled': nat) {
    && Sound(s', filled') && |s'| == SizeFor(2 * filled)
    && filled' == filled + Live(s)
    && Filled(s') == Live(s') == Live(s)
    && Entries(s') == Entries(s)
    && Probing(s')
  }

  /** An insertion, with growth first when half of the slots are taken. */
  ghost predicate Added<K, V>(s: seq<Slot<K, V>>, filled: nat, s': seq<Slot<K, V>>, filled': nat, x: Slot<K, V>) {
    if 2 * filled < |s| then Inserted(s, filled, s', filled', x)
    else
      && Sound(s', filled') && |s'| == SizeFor(2 * filled)
      && filled' == filled + Live(s) + 1
      && Filled(s') == Live(s') == Live(s) + 1
      && Entries(s') == Entries(s) + multiset{x}
      && Probing(s')
  }

  lemma AddedGives<K, V>(s: seq<Slot<K, V>>, filled: nat, s': seq<Slot<K, V>>, filled': nat, x: Slot<K, V>)
    requires Added(s, filled, s', filled', x)
    ensures Sound(s', filled') && Entries(s') == Entries(s) + multiset{x}
    ensures Live(s') == Live(s) + 1
    ensures filled' == if 2 * filled < |s| then filled + 1 else filled + Live(s) + 1
    ensures |s'| == if 2 * filled < |s| then |s| else SizeFor(2 * filled)
    ensures Probing(s) ==> Probing(s')
  {
  }

  lemma RoomWithoutGrowth<K, V>(s: seq<Slot<K, V>>, filled: nat)
    requires Sound(s, filled) && 2 * filled < |s|
    ensures HasRoom(s, filled)
  {
    EvenSize(|s|);
  }

  lemma RoomAfterGrowth<K, V>(s: seq<Slot<K, V>>, filled: nat, s': seq<Slot<K, V>>, filled': nat)
    requires Sound(s, filled) && 2 * filled >= |s| && Grown(s, filled, s', filled')
    ensures HasRoom(s', filled')
  {
    if |s| > 0 {
      SizeForDoubles(2 * filled, |s|);
    }
  }

  lemma GrownThenInserted<K, V>(s: seq<Slot<K, V>>, filled: nat, t: seq<Slot<K, V>>, f: nat,
                                s': seq<Slot<K, V>>, filled': nat, x: Slot<K, V>)
    requires 2 * filled >= |s| && Grown(s, filled, t, f) && Inserted(t, f, s', filled', x)
    ensures Added(s, filled, s', filled', x)
  {
  }

  // ----- rehashing

  /** The entries that are placed by the old size before a rehash, with the old counters, grows again. */
  function Early(filled: nat, size: nat): nat {
    if 2 * filled < size then size / 2 - filled else 0
  }

  /** Whether moving `moved` entries, counted on from `filled`, does not reach half of the old size. */
  predicate Unsettled(filled: nat, moved: nat, size: nat) {
    moved == 0 || 2 * (filled + moved - 1) < size
  }

  /**
   * The state of a rehash into `block` slots after the first `it` slots of the old table were
   * looked at. The counters are the old ones, so entries go where the old size sends them until
   * half of the old size is counted; then the table grows once more, to twice the old size.
   */
  ghost predicate Refilling<K, V>(source: seq<Slot<K, V>>, it: nat, filled: nat, block: nat,
                                  s: seq<Slot<K, V>>, filled': nat, size': nat)
    requires it <= |source|
  {
    var moved := Live(source[..it]);
    if Unsettled(filled, moved, |source|) then
      && |s| == block && |source| <= block && size' == |source| && filled' == filled + moved
      && AllUnused(s[|source|..])
      && Holds(s[..|source|], filled', Entries(source[..it]), moved)
    else
      && |s| == size' == 2 * |source| && filled' == filled + moved + Early(filled, |source|)
      && Holds(s, filled', Entries(source[..it]), moved)
  }

  /** These entries and no tombstones, all reachable. */
  ghost predicate Holds<K, V>(s: seq<Slot<K, V>>, filled: nat, entries: multiset<Slot<K, V>>, count: nat) {
    && Sound(s, filled) && Probing(s)
    && Filled(s) == Live(s) == count
    && Entries(s) == entries
  }

  lemma RefillingStarts<K, V>(source: seq<Slot<K, V>>, filled: nat, s: seq<Slot<K, V>>)
    requires |source| > 0 && Sound(source, filled) && AllUnused(s) && |source| <= |s|
    ensures Refilling(source, 0, filled, |s|, s, filled, |source|)
  {
    NothingInUnused(s[..|source|]);
  }

  lemma LiveGrows<K, V>(source: seq<Slot<K, V>>, it: nat)
    requires it < |source| && IsLive(source[it])
    ensures Live(source[..it]) + 1 == Live(source[..it + 1]) <= Live(source)
    ensures Entries(source[..it + 1]) == Entries(source[..it]) + multiset{source[it]}
  {
    PrefixCounts(source, it);
    PrefixCounts(source, it + 1);
  }

  lemma RefillingSkip<K, V>(source: seq<Slot<K, V>>, it: nat, filled: nat, block: nat,
                            s: seq<Slot<K, V>>, filled': nat, size': nat)
    requires it < |source| && !IsLive(source[it])
    requires Refilling(source, it, filled, block, s, filled', size')
    ensures Refilling(source, it + 1, filled, block, s, filled', size')
  {
    hide Holds, AllUnused;
    PrefixCounts(source, it);
    assert Entries(source[..it + 1]) == Entries(source[..it]);
  }

  /** What the insertion of the next moved entry needs, and why the recursion ends. */
  lemma RefillingAllowsAdd<K, V>(source: seq<Slot<K, V>>, it: nat, filled: nat, block: nat,
                                 s: seq<Slot<K, V>>, filled': nat, size': nat)
    requires it < |source| && IsLive(source[it])
    requires Refilling(source, it, filled, block, s, filled', size')
    ensures size' <= |s| && Sound(s[..size'], filled') && Live(s[..size']) < Live(source)
  {
    hide Sound, Probing, AllUnused, Entries;
    LiveGrows(source, it);
    if !Unsettled(filled, Live(source[..it]), |source|) {
      assert s[..size'] == s;
    }
  }

  /** The counter stays below half of the new size once the table has grown inside a rehash. */
  lemma NoSecondGrowth(filled: nat, moved: nat, live: nat, size: nat)
    requires size % 2 == 0 && live <= filled && filled + live <= size && moved < live && !Unsettled(filled, moved, size)
    ensures 2 * (filled + moved + Early(filled, size)) < 2 * size
  {
  }

  /** The growth inside a rehash happens at the entry with number Early, and doubles the old size. */
  lemma GrowthInside(filled: nat, moved: nat, size: nat)
    requires IsPow2(size) && size >= MINIMUM_SIZE && 2 * filled <= size + 2
    requires Unsettled(filled, moved, size) && !Unsettled(filled, moved + 1, size)
    ensures moved == Early(filled, size)
    ensures SizeFor(2 * (filled + moved)) == 2 * size
  {
    EvenSize(size);
    SizeForDoubles(2 * (filled + moved), size);
  }

  lemma SoundGives<K, V>(s: seq<Slot<K, V>>, filled: nat)
    requires Sound(s, filled) && |s| > 0
    ensures IsPow2(|s|) && |s| >= MINIMUM_SIZE && |s| % 2 == 0
    ensures Live(s) <= filled && 2 * filled <= |s| + 2 && filled + Live(s) <= |s|
  {
    EvenSize(|s|);
  }

  lemma AddedHolds<K, V>(s: seq<Slot<K, V>>, filled: nat, e: multiset<Slot<K, V>>, count: nat,
                         s': seq<Slot<K, V>>, filled': nat, x: Slot<K, V>)
    requires Holds(s, filled, e, count) && Added(s, filled, s', filled', x)
    ensures Holds(s', filled', e + multiset{x}, count + 1)
  {
    hide Sound, Probing, Entries, Filled, Live;
  }

  /** An entry is moved by the old size; nothing outgrows it yet. */
  lemma RefillingEarly<K, V>(source: seq<Slot<K, V>>, it: nat, filled: nat, block: nat,
                             s: seq<Slot<K, V>>, filled': nat, s2: seq<Slot<K, V>>, filled2: nat)
    requires it < |source| && IsLive(source[it]) && Sound(source, filled)
    requires Unsettled(filled, Live(source[..it]) + 1, |source|)
    requires Refilling(source, it, filled, block, s, filled', |source|)
    requires |s2| == |s| && s2[|source|..] == s[|source|..]
    requires Added(s[..|source|], filled', s2[..|source|], filled2, source[it])
    ensures Refilling(source, it + 1, filled, block, s2, filled2, |source|)
  {
    hide Sound, Probing, Entries, Filled, AllUnused, Holds;
    LiveGrows(source, it);
    assert Unsettled(filled, Live(source[..it]), |source|);
    AddedHolds(s[..|source|], filled', Entries(source[..it]), Live(source[..it]), s2[..|source|], filled2, source[it]);
    AddedGives(s[..|source|], filled', s2[..|source|], filled2, source[it]);
  }

  /** Moving this entry makes the table grow. */
  lemma RefillingGrows<K, V>(source: seq<Slot<K, V>>, it: nat, filled: nat, block: nat,
                             s: seq<Slot<K, V>>, filled': nat, s2: seq<Slot<K, V>>, filled2: nat)
    requires it < |source| && IsLive(source[it]) && Sound(source, filled)
    requires Unsettled(filled, Live(source[..it]), |source|) && !Unsettled(filled, Live(source[..it]) + 1, |source|)
    requires Refilling(source, it, filled, block, s, filled', |source|)
    requires Added(s[..|source|], filled', s2, filled2, source[it])
    ensures Refilling(source, it + 1, filled, block, s2, filled2, |s2|)
  {
    hide Sound, Probing, Entries, Filled, AllUnused;
    LiveGrows(source, it);
    SoundGives(source, filled);
    GrowthInside(filled, Live(source[..it]), |source|);
    AddedHolds(s[..|source|], filled', Entries(source[..it]), Live(source[..it]), s2, filled2, source[it]);
    AddedGives(s[..|source|], filled', s2, filled2, source[it]);
  }

  /** The table has grown already; the rest fits. */
  lemma RefillingLate<K, V>(source: seq<Slot<K, V>>, it: nat, filled: nat, block: nat,
                            s: seq<Slot<K, V>>, filled': nat, s2: seq<Slot<K, V>>, filled2: nat)
    requires it < |source| && IsLive(source[it]) && Sound(source, filled)
    requires !Unsettled(filled, Live(source[..it]), |source|)
    requires Refilling(source, it, filled, block, s, filled', |s|)
    requires Added(s, filled', s2, filled2, source[it])
    ensures Refilling(source, it + 1, filled, block, s2, filled2, |s2|) && |s2| == |s|
  {
    hide Sound, Probing, Entries, Filled, AllUnused;
    LiveGrows(source, it);
    SoundGives(source, filled);
    NoSecondGrowth(filled, Live(source[..it]), Live(source), |source|);
    AddedHolds(s, filled', Entries(source[..it]), Live(source[..it]), s2, filled2, source[it]);
    AddedGives(s, filled', s2, filled2, source[it]);
  }

  /** What a call of reserve that does something leaves behind, apart from the size it records. */
  ghost predicate Rehashed<K, V>(s: seq<Slot<K, V>>, filled: nat, block: nat, s': seq<Slot<K, V>>, filled': nat) {
    if Unsettled(filled, Live(s), |s|) then
      && |s'| == block && |s| <= block && filled' == filled + Live(s)
      && AllUnused(s'[|s|..])
      && (|s| > 0 ==> Holds(s'[..|s|], filled', Entries(s), Live(s)))
    else
      && |s'| == 2 * |s| && filled' == filled + Live(s) + Early(filled, |s|)
      && Holds(s', filled', Entries(s), Live(s))
  }

  lemma RefillingEnds<K, V>(source: seq<Slot<K, V>>, filled: nat, block: nat, s: seq<Slot<K, V>>, filled': nat, size': nat)
    requires Refilling(source, |source|, filled, block, s, filled', size')
    ensures Rehashed(source, filled, block, s, filled')
  {
    hide Holds, AllUnused;
    assert source[..|source|] == source;
  }

  lemma {:induction false} UnusedTail<K, V>(s: seq<Slot<K, V>>, n: nat)
    requires n <= |s| && AllUnused(s[n..])
    ensures Filled(s) == Filled(s[..n]) && Live(s) == Live(s[..n]) && Entries(s) == Entries(s[..n])
  {
    if n < |s| {
      assert s[n..][|s| - 1 - n] == s[|s| - 1];
      assert s[..|s| - 1][..n] == s[..n];
      assert s[..|s| - 1][n..] == s[n..][..|s| - 1 - n];
      UnusedTail(s[..|s| - 1], n);
    } else {
      assert s[..n] == s;
    }
  }

  /** Whatever the target: the entries are the old ones, and there are no tombstones. */
  lemma RehashedKeepsEntries<K, V>(s: seq<Slot<K, V>>, filled: nat, block: nat, s': seq<Slot<K, V>>, filled': nat)
    requires Sound(s, filled) && Rehashed(s, filled, block, s', filled')
    ensures Entries(s') == Entries(s) && Filled(s') == Live(s') == Live(s)
  {
    hide Sound, Probing, Entries, Filled, Live;
    if Unsettled(filled, Live(s), |s|) {
      UnusedTail(s', |s|);
      if |s| == 0 {
        NothingInUnused(s'[..0]);
        NothingInUnused(s);
      }
    }
  }

  /**
   * A rehash into a block of the wanted size, recorded as the size of the table, is sound exactly
   * when the growth inside it, if there is one, made the same size.
   */
  lemma RehashedIsSound<K, V>(s: seq<Slot<K, V>>, filled: nat, taken: nat, s': seq<Slot<K, V>>, filled': nat)
    requires Sound(s, filled) && |s| <= taken && filled <= taken && Rehashed(s, filled, SizeFor(taken), s', filled')
    ensures |s'| == SizeFor(taken) && Sound(s', filled') <==> Unsettled(filled, Live(s), |s|) || taken < 2 * |s|
    ensures |s'| == SizeFor(taken) <==> Unsettled(filled, Live(s), |s|) || taken < 2 * |s|
  {
    RehashedKeepsEntries(s, filled, SizeFor(taken), s', filled');
    if |s| > 0 {
      SoundGives(s, filled);
      SizeForDoubles(taken, |s|);
    }
  }

  /** As insertion asks for it, with half of the slots taken, the growth inside makes the size that is recorded. */
  lemma RehashedIsGrown<K, V>(s: seq<Slot<K, V>>, filled: nat, s': seq<Slot<K, V>>, filled': nat)
    requires Sound(s, filled) && |s| <= 2 * filled && Rehashed(s, filled, SizeFor(2 * filled), s', filled')
    ensures Grown(s, filled, s', filled')
  {
    if |s| > 0 {
      SoundGives(s, filled);
      SizeForDoubles(2 * filled, |s|);
    }
    RehashedKeepsEntries(s, filled, SizeFor(2 * filled), s', filled');
    RehashedIsSound(s, filled, 2 * filled, s', filled');
    if Live(s) == 0 {
      NoneFilled(s');
    }
  }

  /** A slot in use turned into a tombstone. */
  lemma RemovingAt<K, V>(s: seq<Slot<K, V>>, filled: nat, i: nat)
    requires Sound(s, filled) && i < |s|
    ensures var s' := s[i := s[i].(hash := 1)];
      && Entries(s') == Entries(s) - Only(s[i])
      && Live(s') == Live(s) - (if IsLive(s[i]) then 1 else 0)
      && Filled(s') == Filled(s) + (if s[i].hash == 0 then 1 else 0)
      && (Sound(s', filled) <==> s[i].hash != 0 || (Filled(s) + 1 <= filled && 2 * (Filled(s) + 1) <= |s|))
      && (Probing(s) ==> Probing(s'))
  {
    hide Entries, Filled, Live, Probing;
    var x := s[i].(hash := 1);
    UpdateCounts(s, i, x);
    UpdateEntries(s, i, x);
    TakenAway(Entries(s), Only(s[i]), Only(x), Entries(s[i := x]));
    if Probing(s) {
      RemovingKeepsProbing(s, i, x);
    }
  }

  /** A new value for the key that is in a slot already. */
  lemma RevaluingAt<K, V>(s: seq<Slot<K, V>>, filled: nat, i: nat, v: V)
    requires Sound(s, filled) && i < |s|
    ensures var s' := s[i := s[i].(value := v)];
      && Sound(s', filled) && Live(s') == Live(s)
      && Entries(s') == Entries(s) - Only(s[i]) + Only(s[i].(value := v))
      && (Probing(s) ==> Probing(s'))
  {
    hide Entries, Filled, Live, Probing;
    var x := s[i].(value := v);
    UpdateCounts(s, i, x);
    UpdateEntries(s, i, x);
    TakenAway(Entries(s), Only(s[i]), Only(x), Entries(s[i := x]));
    if Probing(s) {
      RevaluingKeepsProbing(s, i, x);
    }
  }

  lemma {:induction false} EntryCount<K, V>(s: seq<Slot<K, V>>)
    ensures |Entries(s)| == Live(s)
  {
    if s != [] {
      EntryCount(s[..|s| - 1]);
    }
  }

  /** Moving one more entry, wherever the rehash stands. */
  lemma RefillingStep<K, V>(source: seq<Slot<K, V>>, it: nat, filled: nat, block: nat,
                            s: seq<Slot<K, V>>, f: nat, a: nat, s2: seq<Slot<K, V>>, f2: nat, a2: nat)
    requires it < |source| && IsLive(source[it]) && Sound(source, filled)
    requires Refilling(source, it, filled, block, s, f, a) && a <= |s| && a2 <= |s2|
    requires Added(s[..a], f, s2[..a2], f2, source[it])
    requires if 2 * f < a then |s2| == |s| && a2 == a && s2[a..] == s[a..] else a2 == |s2|
    ensures Refilling(source, it + 1, filled, block, s2, f2, a2)
  {
    hide Sound, Probing, Entries, Filled, Live, AllUnused, Holds, Added;
    var moved := Live(source[..it]);
    LiveGrows(source, it);
    SoundGives(source, filled);
    if Unsettled(filled, moved + 1, |source|) {
      RefillingEarly(source, it, filled, block, s, f, s2, f2);
    } else if Unsettled(filled, moved, |source|) {
      assert s2[..a2] == s2;
      RefillingGrows(source, it, filled, block, s, f, s2, f2);
    } else {
      assert s[..a] == s;
      NoSecondGrowth(filled, moved, Live(source), |source|);
      assert s2[..a2] == s2;
      RefillingLate(source, it, filled, block, s, f, s2, f2);
    }
  }

  lemma InsertedIsSound<K, V>(s: seq<Slot<K, V>>, filled: nat, s': seq<Slot<K, V>>, filled': nat, x: Slot<K, V>)
    requires Inserted(s, filled, s', filled', x)
    ensures Sound(s', filled') && (Probing(s) ==> Probing(s'))
  {
  }

  lemma GrownIsSound<K, V>(s: seq<Slot<K, V>>, filled: nat, s': seq<Slot<K, V>>, filled': nat)
    requires Grown(s, filled, s', filled')
    ensures Sound(s', filled') && Probing(s') && |s'| == SizeFor(2 * filled)
  {
  }

  lemma RoomBounds<K, V>(s: seq<Slot<K, V>>, filled: nat)
    requires HasRoom(s, filled)
    ensures filled < |s|
  {
  }

  /** What a call of reserve that does something promises, whatever its target. */
  lemma ReserveResult<K, V>(s: seq<Slot<K, V>>, filled: nat, taken: nat, s': seq<Slot<K, V>>, filled': nat)
    requires Sound(s, filled) && |s| <= taken && filled <= taken && Rehashed(s, filled, SizeFor(taken), s', filled')
    ensures Entries(s') == Entries(s)
    ensures |s'| == SizeFor(taken) && Sound(s', filled') <==>
      taken < 2 * |s| || Live(s) == 0 || 2 * (filled + Live(s) - 1) < |s|
    ensures |s'| == SizeFor(taken) ==>
      (Probing(s') <==> !Unsettled(filled, Live(s), |s|) || KeepsHomes(s, SizeFor(taken)))
  {
    RehashedKeepsEntries(s, filled, SizeFor(taken), s', filled');
    RehashedIsSound(s, filled, taken, s', filled');
    hide Sound, Probing, Rehashed, KeepsHomes, Entries, Filled, Live;
    if |s'| == SizeFor(taken) {
      RehashedIsReachable(s, filled, s', filled');
    }
  }

  lemma RehashedFromNothing<K, V>(s: seq<Slot<K, V>>, filled: nat, s': seq<Slot<K, V>>)
    requires s == [] && Sound(s, filled) && AllUnused(s')
    ensures Rehashed(s, filled, |s'|, s', filled)
  {
    assert s'[0..] == s';
  }

  /** Nothing is counted: no slot has a valid hash. */
  lemma NothingCounted<K, V>(s: seq<Slot<K, V>>)
    requires Sound(s, 0)
    ensures forall i :: 0 <= i < |s| ==> s[i].hash == 0
  {
    NoneFilled(s);
  }

  lemma CountedNeedsSlots<K, V>(s: seq<Slot<K, V>>, filled: nat)
    requires Sound(s, filled) && filled > 0
    ensures |s| > 0
  {
  }

  lemma EntryOf<K, V>(s: seq<Slot<K, V>>, i: nat, m: map<K, V>, hashOf: K -> nat)
    requires i < |s| && IsLive(s[i]) && Represents(Entries(s), m, hashOf)
    ensures s[i].key in m && m[s[i].key] == s[i].value
  {
    EntriesAreSlots(s, s[i]);
  }

  lemma EntryFor<K, V>(e: multiset<Slot<K, V>>, m: map<K, V>, hashOf: K -> nat, k: K)
    requires Represents(e, m, hashOf) && k in m
    ensures Slot(hashOf(k), k, m[k]) in e
  {
  }

  /** No table stands for a map with a key whose hash is below the valid ones. */
  lemma NeverRepresented<K, V>(s: seq<Slot<K, V>>, m: map<K, V>, hashOf: K -> nat, k: K)
    requires k in m && hashOf(k) < FIRST_VALID_HASH
    ensures !Represents(Entries(s), m, hashOf)
  {
    EntriesAreSlots(s, Slot(hashOf(k), k, m[k]));
  }

  lemma InsertedIsAdded<K, V>(s: seq<Slot<K, V>>, filled: nat, s': seq<Slot<K, V>>, filled': nat, x: Slot<K, V>)
    requires 2 * filled < |s| && Inserted(s, filled, s', filled', x)
    ensures Added(s, filled, s', filled', x)
  {
  }

  // ----- entries that a rehash leaves by the old size

  /** The entries whose home, in a table of that size, is at or behind a slot. */
  ghost function Homes<K, V>(s: seq<Slot<K, V>>, size: nat, from: nat): multiset<Slot<K, V>>
    requires size > 0
  {
    if s == [] then multiset{}
    else
      var x := s[|s| - 1];
      Homes(s[..|s| - 1], size, from) + if IsLive(x) && x.hash % size >= from then multiset{x} else multiset{}
  }

  /**
   * In a table of the new size every home is still one of the old slots, and no old slot has more
   * homes at or behind it than there are slots, so that no entry goes on at the front.
   */
  ghost predicate KeepsHomes<K, V>(s: seq<Slot<K, V>>, size: nat)
    requires size > 0
  {
    && (forall x :: x in Entries(s) ==> x.hash % size < |s|)
    && (|s| > 0 ==> forall j :: 0 <= j <= |s| ==> |Homes(s, |s|, j)| <= |s| - j)
  }

  lemma {:induction false} HomesAreEntries<K, V>(s: seq<Slot<K, V>>, size: nat, from: nat, x: Slot<K, V>)
    requires size > 0
    ensures Homes(s, size, from)[x] == if x.hash % size >= from then Entries(s)[x] else 0
  {
    if s != [] {
      HomesAreEntries(s[..|s| - 1], size, from, x);
    }
  }

  lemma SameHomes<K, V>(s: seq<Slot<K, V>>, s': seq<Slot<K, V>>, size: nat, from: nat)
    requires size > 0 && Entries(s) == Entries(s')
    ensures Homes(s, size, from) == Homes(s', size, from)
  {
    hide Homes, Entries;
    var a, b := Homes(s, size, from), Homes(s', size, from);
    forall x: Slot<K, V>
      ensures a[x] == b[x]
    {
      HomesAreEntries(s, size, from, x);
      HomesAreEntries(s', size, from, x);
    }
    SameCounts(a, b);
  }

  lemma SameCounts<T>(a: multiset<T>, b: multiset<T>)
    requires forall x :: a[x] == b[x]
    ensures a == b
  {
  }

  /** Entries that stand at or behind their homes are no more than the slots there. */
  lemma {:induction false} HomesBounded<K, V>(s: seq<Slot<K, V>>, size: nat, from: nat)
    requires size > 0
    requires forall i :: 0 <= i < |s| && IsLive(s[i]) ==> s[i].hash % size <= i
    ensures |Homes(s, size, from)| <= if |s| <= from then 0 else |s| - from
  {
    if s != [] {
      HomesBounded(s[..|s| - 1], size, from);
    }
  }

  /** Slots from x on that all hold entries with homes there, and one such entry before them. */
  lemma {:induction false} HomesExceed<K, V>(s: seq<Slot<K, V>>, size: nat, x: nat, i: nat)
    requires size > 0 && i < x <= |s| && IsLive(s[i]) && s[i].hash % size >= x
    requires forall p :: x <= p < |s| ==> IsLive(s[p]) && s[p].hash % size >= x
    ensures |Homes(s, size, x)| > |s| - x
    decreases |s|
  {
    var n := |s| - 1;
    if x <= n {
      HomesExceed(s[..n], size, x, i);
    } else {
      HomesAreEntries(s, size, x, s[i]);
      EntriesAreSlots(s, s[i]);
      assert s[i] in Homes(s, size, x);
    }
  }

  /** The last unused slot. */
  lemma {:induction false} LastUnused<K, V>(s: seq<Slot<K, V>>) returns (u: nat)
    requires Filled(s) < |s|
    ensures u < |s| && s[u].hash == 0 && forall p :: u < p < |s| ==> s[p].hash != 0
  {
    if s[|s| - 1].hash == 0 {
      u := |s| - 1;
    } else {
      u := LastUnused(s[..|s| - 1]);
    }
  }

  /** Where all entries are reachable and some stands before its home, too many homes are at the end. */
  lemma WrappedExceeds<K, V>(s: seq<Slot<K, V>>, i: nat) returns (x: nat)
    requires Probing(s) && Filled(s) == Live(s) < |s| && i < |s| && IsLive(s[i]) && i < s[i].hash % |s|
    ensures x <= |s| && |Homes(s, |s|, x)| > |s| - x
  {
    var u := LastUnused(s);
    x := u + 1;
    NoTombstones(s);
    assert !Between(s[i].hash % |s|, u, i);
    forall p | x <= p < |s|
      ensures IsLive(s[p]) && s[p].hash % |s| >= x
    {
      assert IsLive(s[p]) && !Between(s[p].hash % |s|, u, p);
    }
    HomesExceed(s, |s|, x, i);
  }

  /**
   * A rehash that grew inside leaves every entry reachable. Otherwise the entries stand where the
   * old size sent them, and they are reachable exactly when the new size keeps their homes; that
   * is when none of them stands before its new home.
   */
  lemma RehashedIsReachable<K, V>(s: seq<Slot<K, V>>, filled: nat, s': seq<Slot<K, V>>, filled': nat)
    requires Sound(s, filled) && Rehashed(s, filled, |s'|, s', filled') && IsPow2(|s'|) && |s| < |s'|
    ensures Probing(s') <==> !Unsettled(filled, Live(s), |s|) || KeepsHomes(s, |s'|)
    ensures Unsettled(filled, Live(s), |s|) ==>
      (Probing(s') <==> forall i :: 0 <= i < |s'| && IsLive(s'[i]) ==> s'[i].hash % |s'| <= i)
  {
    RehashedKeepsEntries(s, filled, |s'|, s', filled');
    if Live(s) == 0 {
      NoneFilled(s');
      NothingKeepsHomes(s, |s'|);
    } else if Unsettled(filled, Live(s), |s|) {
      var k := PowersDivide(|s|, |s'|);
      PlacedByOldSize(|s|, k, s');
      HomesDecide(s, filled, |s|, k, s');
    }
  }

  lemma NothingKeepsHomes<K, V>(s: seq<Slot<K, V>>, size: nat)
    requires Live(s) == 0 && size > 0
    ensures KeepsHomes(s, size)
  {
    EntryCount(s);
    assert Entries(s) == multiset{};
    if |s| > 0 {
      forall j | 0 <= j <= |s|
        ensures |Homes(s, |s|, j)| == 0
      {
        var e: seq<Slot<K, V>> := [];
        assert Entries(e) == multiset{} && Homes(e, |s|, j) == multiset{};
        SameHomes(s, e, |s|, j);
      }
    }
  }

  /** None of the entries stands before its new home exactly when the homes are kept. */
  lemma HomesDecide<K, V>(s: seq<Slot<K, V>>, filled: nat, size: nat, k: nat, s': seq<Slot<K, V>>)
    requires Sound(s, filled) && 0 < size == |s| < |s'| == k * size && Live(s) > 0
    requires Probing(s'[..size]) && AllUnused(s'[size..])
    requires Entries(s') == Entries(s) && Filled(s') == Live(s') == Live(s)
    ensures (forall i :: 0 <= i < |s'| && IsLive(s'[i]) ==> s'[i].hash % |s'| <= i) <==> KeepsHomes(s, |s'|)
  {
    var front := s'[..size];
    UnusedTail(s', size);
    TailUnused(s', size);
    if forall i :: 0 <= i < |s'| && IsLive(s'[i]) ==> s'[i].hash % |s'| <= i {
      InOrderKeepsHomes(s, size, k, s', front);
    }
    if KeepsHomes(s, |s'|) {
      forall i | 0 <= i < |s'| && IsLive(s'[i])
        ensures s'[i].hash % |s'| <= i
      {
        EntriesAreSlots(s', s'[i]);
        ModOfMultiple(s'[i].hash, size, k);
        assert front[i] == s'[i];
        if i < front[i].hash % size {
          HalfIsUnused(s, filled);
          var x := WrappedExceeds(front, i);
          SameHomes(front, s, size, x);
          assert false;
        }
      }
    }
  }

  lemma HalfIsUnused<K, V>(s: seq<Slot<K, V>>, filled: nat)
    requires Sound(s, filled) && |s| > 0
    ensures Live(s) < |s|
  {
  }

  lemma InOrderKeepsHomes<K, V>(s: seq<Slot<K, V>>, size: nat, k: nat, s': seq<Slot<K, V>>, front: seq<Slot<K, V>>)
    requires 0 < size == |s| < |s'| == k * size && front == s'[..size] && Entries(front) == Entries(s') == Entries(s)
    requires forall i :: size <= i < |s'| ==> s'[i].hash == 0
    requires forall i :: 0 <= i < |s'| && IsLive(s'[i]) ==> s'[i].hash % |s'| <= i
    ensures KeepsHomes(s, |s'|)
  {
    forall x | x in Entries(s)
      ensures x.hash % |s'| < |s|
    {
      EntriesAreSlots(s', x);
      var i :| 0 <= i < |s'| && s'[i] == x;
    }
    forall i | 0 <= i < |front| && IsLive(front[i])
      ensures front[i].hash % size <= i
    {
      assert front[i] == s'[i];
      ModOfMultiple(front[i].hash, size, k);
    }
    forall j | 0 <= j <= |s|
      ensures |Homes(s, |s|, j)| <= |s| - j
    {
      HomesBounded(front, size, j);
      SameHomes(front, s, size, j);
    }
  }

  lemma PlacedByOldSize<K, V>(size: nat, k: nat, s: seq<Slot<K, V>>)
    requires 0 < size < |s| == k * size
    requires Probing(s[..size]) && AllUnused(s[size..])
    ensures Probing(s) <==> forall i :: 0 <= i < |s| && IsLive(s[i]) ==> s[i].hash % |s| <= i
  {
    TailUnused(s, size);
    if Probing(s) {
      forall i | 0 <= i < |s| && IsLive(s[i])
        ensures s[i].hash % |s| <= i
      {
        assert s[|s| - 1].hash == 0;
        assert !Between(s[i].hash % |s|, |s| - 1, i);
      }
    }
    if forall i :: 0 <= i < |s| && IsLive(s[i]) ==> s[i].hash % |s| <= i {
      forall i, j | 0 <= i < |s| && 0 <= j < |s| && IsLive(s[i]) && Between(s[i].hash % |s|, j, i)
        ensures s[j].hash != 0
      {
        ModOfMultiple(s[i].hash, size, k);
        assert s[..size][i] == s[i] && s[..size][j] == s[j];
      }
    }
  }

  lemma TailUnused<K, V>(s: seq<Slot<K, V>>, n: nat)
    requires n <= |s| && AllUnused(s[n..])
    ensures forall i :: n <= i < |s| ==> s[i].hash == 0
  {
    forall i | n <= i < |s|
      ensures s[i].hash == 0
    {
      assert s[n..][i - n] == s[i];
    }
  }

  lemma ModOfMultiple(h: nat, a: nat, k: nat)
    requires 0 < a <= k * a && h % (k * a) < a
    ensures h % a == h % (k * a)
  {
    var q := h / (k * a);
    assert q * (k * a) == (q * k) * a;
    DivModUnique(h, a, q * k, h % (k * a));
  }

  lemma {:induction false} PowersDivide(a: nat, b: nat) returns (k: nat)
    requires IsPow2(a) && IsPow2(b) && a <= b
    ensures b == k * a
  {
    if a == b {
      return 1;
    }
    PowersApart(a, b);
    var j := PowersDivide(a, b / 2);
    Distribute(j, j, a);
    return j + j;
  }

  // ----- the table

  class HashTable<K(==,0), V(==,0)> {
    const HashOf: K -> nat

    /** The number of calls that added something, as the code counts it. */
    var Count: nat
    var Allocated: nat
    var SlotsFilled: nat
    var Slots: array<Slot<K, V>>

    constructor (hashOf: K -> nat)
      ensures HashOf == hashOf && Valid() && Reachable() && Entries(Slots[..]) == multiset{} && fresh(Slots)
      ensures Count == 0 && Allocated == 0
    {
      HashOf := hashOf;
      Count, Allocated, SlotsFilled := 0, 0, 0;
      Slots := new Slot<K, V>[0];
    }

    /** How a table looks between two calls. */
    ghost predicate Valid()
      reads this, Slots
    {
      Slots.Length == Allocated && Count == SlotsFilled && Sound(Slots[..], SlotsFilled)
    }

    /** Every entry can be reached from its home without meeting an unused slot. */
    ghost predicate Reachable()
      reads this, Slots
    {
      Probing(Slots[..])
    }

    /**
     * How a table looks to the insertions of a rehash: the new slots are in place, but the
     * counters are still the old ones, and only as many slots are used as the old size says.
     */
    ghost predicate Ready()
      reads this, Slots
    {
      Allocated <= Slots.Length && Count == SlotsFilled && Sound(View(), SlotsFilled)
    }

    /** The slots that the recorded size covers. */
    ghost function View(): (s: seq<Slot<K, V>>)
      requires Allocated <= Slots.Length
      reads this, Slots
      ensures |s| == Allocated
    {
      Slots[..Allocated]
    }

    /** A slot with this hash and key, as the search compares them. */
    ghost predicate IsSlotOf(i: nat, hash: nat, key: K)
      reads this, Slots
    {
      i < Slots.Length && Slots[i].hash == hash && Slots[i].key == key
    }

    /** The index of a slot with this hash and key, or -1 when there is none or nothing was ever added. */
    method FindPrehashed(hash: nat, key: K) returns (at: int)
      requires Valid()
      ensures -1 <= at < Allocated
      ensures at >= 0 ==> Count != 0 && IsSlotOf(at, hash, key)
      ensures at == -1 && Count != 0 ==> forall i: nat :: !IsSlotOf(i, hash, key)
      ensures at == -1 && hash >= FIRST_VALID_HASH ==> forall i: nat :: !IsSlotOf(i, hash, key)
    {
      hide Sound;
      if Count == 0 {
        NothingCounted(Slots[..]);
        return -1;
      }
      assert Allocated > 0 by {
        CountedNeedsSlots(Slots[..], SlotsFilled);
      }
      var index := hash % Allocated;
      for it := 0 to Allocated
        invariant index == if hash % Allocated + it < Allocated then hash % Allocated + it else hash % Allocated + it - Allocated
        invariant forall i: nat :: hash % Allocated <= i < hash % Allocated + it || i < hash % Allocated + it - Allocated ==>
          !IsSlotOf(i, hash, key)
      {
        if Slots[index].hash == hash {
          if Slots[index].key == key {
            return index;
          }
        }
        index := index + 1;
        if index >= Allocated {
          index := 0;
        }
      }
      return -1;
    }

    /** The search for an unused slot, from home on; it ends because one exists. */
    method Probe(home: nat) returns (index: nat)
      requires home < Allocated <= Slots.Length && Filled(View()) < Allocated
      ensures index < Allocated && Slots[index].hash == 0
      ensures forall j :: 0 <= j < Allocated && Between(home, j, index) ==> Slots[j].hash != 0
    {
      ghost var e := UnusedSlotExists(View());
      index := home;
      while Slots[index].hash != 0
        invariant index < Allocated
        invariant forall j :: 0 <= j < Allocated && Between(home, j, index) ==> Slots[j].hash != 0
        decreases if index <= e then e - index else e - index + Allocated
      {
        index := index + 1;
        if index >= Allocated {
          index := 0;
        }
      }
    }

    /** The insertion proper, into a table that has room. */
    method Insert(hash: nat, key: K, value: V) returns (index: nat)
      requires Ready() && HasRoom(View(), SlotsFilled)
      modifies this`Count, this`SlotsFilled, Slots
      ensures Ready() && Slots[Allocated..] == old(Slots[Allocated..])
      ensures index < Allocated && Slots[index] == Slot(Lift(hash), key, value)
      ensures Placed(old(View()), View(), index, Slot(Lift(hash), key, value))
      ensures Inserted(old(View()), old(SlotsFilled), View(), SlotsFilled, Slot(Lift(hash), key, value))
    {
      hide Sound, Probing, Entries, Filled, Live, Inserted;
      ghost var s := View();
      var lifted := if hash < FIRST_VALID_HASH then hash + FIRST_VALID_HASH else hash;
      index := Probe(lifted % Allocated);
      Count := Count + 1;
      SlotsFilled := SlotsFilled + 1;
      Slots[index] := Slot(lifted, key, value);
      assert View() == s[index := Slot(lifted, key, value)];
      PlacedIsInserted(s, SlotsFilled - 1, View(), index, Slot(lifted, key, value));
      InsertedIsSound(s, SlotsFilled - 1, View(), SlotsFilled, Slot(lifted, key, value));
    }

    /**
     * The insertion. It asks for growth when the table would become half full; during a rehash
     * the counters still describe the old table, so an entry that is moved can ask for growth
     * again. That second rehash reads the new slots by the old size.
     */
    method AddPrehashed(hash: nat, key: K, value: V) returns (index: nat)
      requires Ready()
      modifies this`Count, this`SlotsFilled, this`Allocated, this`Slots, Slots
      ensures Ready() && Allocated > index
      ensures old(2 * SlotsFilled < Allocated) ==>
        && Slots == old(Slots) && Allocated == old(Allocated)
        && Slots[Allocated..] == old(Slots[Allocated..])
        && Placed(old(View()), View(), index, Slot(Lift(hash), key, value))
      ensures old(2 * SlotsFilled >= Allocated) ==> fresh(Slots) && Slots.Length == Allocated
      ensures Slots[index] == Slot(Lift(hash), key, value)
      ensures Added(old(View()), old(SlotsFilled), View(), SlotsFilled, Slot(Lift(hash), key, value))
      decreases Live(View()), 2
    {
      hide Sound, Probing, Filled, Live, Inserted, Grown, HasRoom, Rehashed, Entries, Added, Placed;
      hide Valid, Reachable, Settles, KeepsHomes, Unsettled, SizeFor;
      ghost var s, filled, size := View(), SlotsFilled, Allocated;
      if (SlotsFilled + 1) * 2 >= Allocated {
        Reserve(SlotsFilled);
      }
      if 2 * filled < size {
        RoomWithoutGrowth(s, filled);
      } else {
        RehashedIsGrown(s, filled, Slots[..], SlotsFilled);
        GrownIsSound(s, filled, Slots[..], SlotsFilled);
        assert View() == Slots[..];
        RoomAfterGrowth(s, filled, View(), SlotsFilled);
      }
      ghost var t, f := View(), SlotsFilled;
      assert SlotsFilled < Allocated by {
        RoomBounds(t, f);
      }
      index := Insert(hash, key, value);
      if 2 * filled < size {
        InsertedIsAdded(s, filled, View(), SlotsFilled, Slot(Lift(hash), key, value));
      } else {
        GrownThenInserted(s, filled, t, f, View(), SlotsFilled, Slot(Lift(hash), key, value));
      }
    }

    /** A zeroed block of slots. */
    method NewBlock(size: nat)
      modifies this`Slots
      ensures fresh(Slots) && Slots.Length == size && AllUnused(Slots[..])
    {
      var block := new Slot<K, V>[size];
      for i := 0 to size
        invariant forall k :: 0 <= k < i ==> block[k].hash == 0
      {
        block[i] := block[i].(hash := 0);
      }
      Slots := block;
    }

    /** A new block of the size that is asked for, with the entries moved into it. */
    method Resize(target: nat)
      requires Ready() && SlotsFilled + target >= Allocated
      modifies this`Count, this`SlotsFilled, this`Allocated, this`Slots, Slots
      ensures fresh(Slots) && Count == SlotsFilled && Allocated == SizeFor(old(SlotsFilled) + target)
      ensures Rehashed(old(View()), old(SlotsFilled), Allocated, Slots[..], SlotsFilled)
      decreases Live(View()), 1, 0
    {
      hide Sound, Probing, Entries, Filled, Live, Rehashed, AllUnused, IsLeastPow2;
      var size := CeilPow2Loop(target + SlotsFilled + 1);
      size := if size > MINIMUM_SIZE then size else MINIMUM_SIZE;
      ghost var s, filled := View(), SlotsFilled;
      if Allocated != 0 {
        var oldSlots, oldAllocated := Slots, Allocated;
        NewBlock(size);
        SizeForDoubles(filled + target, oldAllocated) by {
          SoundGives(s, filled);
        }
        MoveEntries(oldSlots, oldAllocated, s, SlotsFilled);
      } else {
        NewBlock(size);
        RehashedFromNothing(s, filled, Slots[..]);
      }
      Allocated := size;
    }

    /**
     * Growth, for any target. Between two calls it keeps the table valid exactly when no growth
     * inside it made another size than the one that is recorded at the end, and then it leaves
     * every entry reachable exactly when it grew inside or the new size keeps the homes.
     */
    method Reserve(target: nat)
      requires Ready()
      modifies this`Count, this`SlotsFilled, this`Allocated, this`Slots, Slots
      ensures old(SlotsFilled + target < Allocated) ==>
        && Slots == old(Slots) && Slots[..] == old(Slots[..])
        && Count == old(Count) && SlotsFilled == old(SlotsFilled) && Allocated == old(Allocated)
      ensures old(SlotsFilled + target >= Allocated) ==>
        && fresh(Slots) && Count == SlotsFilled && Allocated == SizeFor(old(SlotsFilled) + target)
        && Rehashed(old(View()), old(SlotsFilled), Allocated, Slots[..], SlotsFilled)
      ensures old(SlotsFilled + target >= Allocated) ==>
        var taken := old(SlotsFilled) + target; IsLeastPow2(Allocated, if taken < 32 then 32 else taken + 1)
      ensures old(Valid()) ==>
        && Entries(Slots[..]) == old(Entries(Slots[..]))
        && (Valid() <==> old(Settles(target)))
      ensures old(Valid() && SlotsFilled + target >= Allocated) && Valid() ==>
        (Reachable() <==> old(!Unsettled(SlotsFilled, Live(Slots[..]), Allocated)) || KeepsHomes(old(Slots[..]), Allocated))
      decreases Live(View()), 1, 1
    {
      hide Sound, Probing, Entries, Filled, Live, Rehashed, AllUnused, KeepsHomes, SizeFor, Unsettled, IsLeastPow2;
      if SlotsFilled + target < Allocated {
        return;
      }
      ghost var s, filled := View(), SlotsFilled;
      Resize(target);
      SizeForIsLeast(filled + target);
      ReserveResult(s, filled, filled + target, Slots[..], SlotsFilled);
      assert old(Valid()) ==> s == old(Slots[..]);
    }

    /** No growth inside a call of reserve, or one to the size that is recorded. */
    ghost predicate Settles(target: nat)
      reads this, Slots
    {
      || SlotsFilled + target < 2 * Allocated
      || Live(Slots[..]) == 0
      || 2 * (SlotsFilled + Live(Slots[..]) - 1) < Allocated
    }

    /** The loop of a rehash over the old slots. */
    method MoveEntries(oldSlots: array<Slot<K, V>>, oldAllocated: nat, ghost source: seq<Slot<K, V>>, ghost filled: nat)
      requires Slots != oldSlots && 0 < oldAllocated <= oldSlots.Length && source == oldSlots[..oldAllocated]
      requires Count == SlotsFilled == filled && Allocated == oldAllocated <= Slots.Length
      requires Sound(source, filled) && AllUnused(Slots[..])
      modifies this`Count, this`SlotsFilled, this`Allocated, this`Slots, Slots
      ensures Count == SlotsFilled && (Slots == old(Slots) || fresh(Slots))
      ensures Rehashed(source, filled, old(Slots.Length), Slots[..], SlotsFilled)
      decreases Live(source), 0
    {
      hide Sound, Probing, Entries, Filled, Live, Rehashed, Refilling, Added, AllUnused, Placed;
      var it := 0;
      ghost var block := Slots.Length;
      RefillingStarts(source, filled, Slots[..]);
      while it < oldAllocated
        invariant 0 <= it <= oldAllocated
        invariant oldSlots[..oldAllocated] == source && Slots != oldSlots && (Slots == old(Slots) || fresh(Slots))
        invariant Count == SlotsFilled
        invariant Refilling(source, it, filled, block, Slots[..], SlotsFilled, Allocated)
      {
        assert source[it] == oldSlots[it];
        if IsLive(oldSlots[it]) {
          ghost var s, f, a := Slots[..], SlotsFilled, Allocated;
          RefillingAllowsAdd(source, it, filled, block, s, f, a);
          assert View() == s[..a];
          var _ := AddPrehashed(oldSlots[it].hash, oldSlots[it].key, oldSlots[it].value);
          assert View() == Slots[..][..Allocated];
          assert Slots[Allocated..] == Slots[..][Allocated..];
          RefillingStep(source, it, filled, block, s, f, a, Slots[..], SlotsFilled, Allocated);
        } else {
          RefillingSkip(source, it, filled, block, Slots[..], SlotsFilled, Allocated);
        }
        it := it + 1;
      }
      RefillingEnds(source, filled, block, Slots[..], SlotsFilled, Allocated);
    }

    /** What the counter counts beyond the entries: removals, and entries moved by growth. */
    ghost function Surplus(): int
      reads this, Slots
    {
      Count - Live(Slots[..])
    }

    /** Whether there is an entry with this hash and key. */
    ghost predicate HasEntry(hash: nat, key: K)
      reads this, Slots
    {
      exists x :: x in Entries(Slots[..]) && x.hash == hash && x.key == key
    }

    /** Whether a search for the key finds a slot, be it an entry or not. */
    ghost predicate Finds(key: K)
      reads this, Slots
    {
      Count != 0 && exists i: nat :: IsSlotOf(i, HashOf(key), key)
    }

    /** For valid hashes the search finds the entries, and these are the keys of the map. */
    lemma FindsEntries(key: K, m: map<K, V>)
      requires Valid() && HashOf(key) >= FIRST_VALID_HASH
      ensures Finds(key) <==> HasEntry(HashOf(key), key)
      ensures Represents(Entries(Slots[..]), m, HashOf) ==> (Finds(key) <==> key in m)
    {
      hide Sound, Represents, Entries;
      var s := Slots[..];
      if Finds(key) {
        var i: nat :| IsSlotOf(i, HashOf(key), key);
        EntriesAreSlots(s, s[i]);
        if Represents(Entries(s), m, HashOf) {
          EntryOf(s, i, m, HashOf);
        }
      }
      if HasEntry(HashOf(key), key) {
        var x :| x in Entries(s) && x.hash == HashOf(key) && x.key == key;
        EntriesAreSlots(s, x);
        var i :| 0 <= i < |s| && s[i] == x;
        assert IsSlotOf(i, HashOf(key), key);
        if Count == 0 {
          NothingCounted(s);
        }
      }
      if Represents(Entries(s), m, HashOf) && key in m {
        EntryFor(Entries(s), m, HashOf, key);
      }
    }

    /** Looking a key up: an entry is found exactly when there is one and its hash is a valid hash. */
    method Find(key: K, ghost m: map<K, V>) returns (at: int)
      requires Valid()
      ensures -1 <= at < Allocated
      ensures at >= 0 ==> IsSlotOf(at, HashOf(key), key)
      ensures at >= 0 <==> Finds(key)
      ensures at >= 0 && IsLive(Slots[at]) <==> HashOf(key) >= FIRST_VALID_HASH && HasEntry(HashOf(key), key)
      ensures Represents(Entries(Slots[..]), m, HashOf) && HashOf(key) >= FIRST_VALID_HASH ==>
        (at >= 0 <==> key in m) && (at >= 0 ==> Slots[at].value == m[key])
    {
      hide Sound, Represents;
      at := FindPrehashed(HashOf(key), key);
      if HashOf(key) >= FIRST_VALID_HASH {
        FindsEntries(key, m);
        if at >= 0 && Represents(Entries(Slots[..]), m, HashOf) {
          EntryOf(Slots[..], at, m, HashOf);
        }
      }
    }

    /** Whether the table has the key, with this value. */
    method HasPair(key: K, value: V, ghost m: map<K, V>) returns (has: bool)
      requires Valid() && Represents(Entries(Slots[..]), m, HashOf) && HashOf(key) >= FIRST_VALID_HASH
      ensures has <==> key in m && m[key] == value
    {
      var at := Find(key, m);
      has := at >= 0 && Slots[at].value == value;
    }

    /**
     * Storing a value under a key: in the slot that is found, or else in a new entry. A slot that
     * is found under a hash below 2 is no entry.
     */
    method Set(key: K, value: V, ghost m: map<K, V>) returns (at: nat)
      requires Valid()
      modifies this`Count, this`SlotsFilled, this`Allocated, this`Slots, Slots
      ensures Valid() && (Slots == old(Slots) || fresh(Slots)) && (old(Reachable()) ==> Reachable())
      ensures at < Allocated && Slots[at].key == key && Slots[at].value == value
      ensures old(Finds(key)) ==>
        && Slots == old(Slots) && SlotsFilled == old(SlotsFilled) && old(IsSlotOf(at, HashOf(key), key))
        && Slots[..] == old(Slots[..])[at := old(Slots[..])[at].(value := value)]
        && Live(Slots[..]) == old(Live(Slots[..]))
        && (HashOf(key) < FIRST_VALID_HASH ==> Entries(Slots[..]) == old(Entries(Slots[..])))
      ensures old(!Finds(key)) ==>
        && Added(old(Slots[..]), old(SlotsFilled), Slots[..], SlotsFilled, Slot(Lift(HashOf(key)), key, value))
        && (old(2 * SlotsFilled < Allocated) ==>
            Slots == old(Slots) && Placed(old(Slots[..]), Slots[..], at, Slot(Lift(HashOf(key)), key, value)))
      ensures old(Represents(Entries(Slots[..]), m, HashOf)) && HashOf(key) >= FIRST_VALID_HASH ==>
        (old(Finds(key)) <==> key in m) && Represents(Entries(Slots[..]), m[key := value], HashOf)
      ensures old(Represents(Entries(Slots[..]), m, HashOf)) ==>
        (Represents(Entries(Slots[..]), m[key := value], HashOf) <==> HashOf(key) >= FIRST_VALID_HASH)
    {
      hide Sound, Probing, Entries, Filled, Live, Represents, Added, Placed;
      ghost var s, e := Slots[..], Entries(Slots[..]);
      var found := Find(key, m);
      if found >= 0 {
        Slots[found] := Slots[found].(value := value);
        assert Slots[..] == s[found := s[found].(value := value)];
        RevaluingAt(s, SlotsFilled, found, value);
        if HashOf(key) < FIRST_VALID_HASH {
          NeverRepresented(Slots[..], m[key := value], HashOf, key);
        } else if Represents(e, m, HashOf) {
          RepresentsReplace(e, m, HashOf, key, value);
        }
        return found;
      }
      assert View() == s;
      at := AddPrehashed(HashOf(key), key, value);
      assert View() == Slots[..];
      AddedGives(s, old(SlotsFilled), Slots[..], SlotsFilled, Slot(Lift(HashOf(key)), key, value));
      if HashOf(key) < FIRST_VALID_HASH {
        NeverRepresented(Slots[..], m[key := value], HashOf, key);
      } else if Represents(e, m, HashOf) {
        RepresentsAdd(e, m, HashOf, key, value);
      }
    }

    /** The subscript operator: the value of the key, after adding the initial value when there is none. */
    method Subscript(key: K, initial: V, ghost m: map<K, V>) returns (at: nat)
      requires Valid()
      modifies this`Count, this`SlotsFilled, this`Allocated, this`Slots, Slots
      ensures Valid() && (Slots == old(Slots) || fresh(Slots)) && (old(Reachable()) ==> Reachable())
      ensures at < Allocated && Slots[at].key == key
      ensures old(Finds(key)) ==>
        && Slots == old(Slots) && SlotsFilled == old(SlotsFilled) && Slots[..] == old(Slots[..])
        && IsSlotOf(at, HashOf(key), key)
      ensures old(!Finds(key)) ==>
        Added(old(Slots[..]), old(SlotsFilled), Slots[..], SlotsFilled, Slot(Lift(HashOf(key)), key, initial))
      ensures old(Represents(Entries(Slots[..]), m, HashOf)) && HashOf(key) >= FIRST_VALID_HASH ==>
        && (old(Finds(key)) <==> key in m)
        && Represents(Entries(Slots[..]), if key in m then m else m[key := initial], HashOf)
        && Slots[at].value == if key in m then m[key] else initial
      ensures old(Represents(Entries(Slots[..]), m, HashOf)) ==>
        (Represents(Entries(Slots[..]), if key in m then m else m[key := initial], HashOf) <==>
         HashOf(key) >= FIRST_VALID_HASH)
    {
      hide Sound, Probing, Entries, Filled, Live, Represents, Added, Placed;
      ghost var s, e := Slots[..], Entries(Slots[..]);
      ghost var m' := if key in m then m else m[key := initial];
      var found := Find(key, m);
      if found >= 0 {
        if HashOf(key) < FIRST_VALID_HASH {
          NeverRepresented(s, m', HashOf, key);
        }
        return found;
      }
      assert View() == s;
      at := AddPrehashed(HashOf(key), key, initial);
      assert View() == Slots[..];
      AddedGives(s, old(SlotsFilled), Slots[..], SlotsFilled, Slot(Lift(HashOf(key)), key, initial));
      if HashOf(key) < FIRST_VALID_HASH {
        NeverRepresented(Slots[..], m', HashOf, key);
      } else if Represents(e, m, HashOf) {
        RepresentsAdd(e, m, HashOf, key, initial);
      }
    }

    /**
     * Removing a key leaves a tombstone, and leaves both counters as they are. A key that hashes
     * to 0 can match an unused slot; the tombstone there is one more slot in use that the counter
     * may not cover.
     */
    method Remove(key: K, ghost m: map<K, V>) returns (removed: bool)
      requires Valid()
      modifies Slots
      ensures removed == old(Finds(key)) && (old(Reachable()) ==> Reachable())
      ensures !removed ==> Slots[..] == old(Slots[..])
      ensures removed ==>
        exists at: nat | old(IsSlotOf(at, HashOf(key), key)) ::
          Slots[..] == old(Slots[..])[at := old(Slots[..])[at].(hash := 1)]
      ensures Valid() <==>
        (HashOf(key) == 0 && removed ==>
          old(Filled(Slots[..]) + 1 <= SlotsFilled && 2 * (Filled(Slots[..]) + 1) <= Allocated))
      ensures HashOf(key) < FIRST_VALID_HASH ==> Entries(Slots[..]) == old(Entries(Slots[..]))
      ensures old(Represents(Entries(Slots[..]), m, HashOf)) && HashOf(key) >= FIRST_VALID_HASH ==>
        && removed == (key in m)
        && Represents(Entries(Slots[..]), m - {key}, HashOf)
        && Surplus() == old(Surplus()) + if key in m then 1 else 0
    {
      hide Sound, Probing, Entries, Filled, Live, Represents;
      ghost var s, e := Slots[..], Entries(Slots[..]);
      var found := Find(key, m);
      if found < 0 {
        assert key !in m ==> m - {key} == m;
        return false;
      }
      Slots[found] := Slots[found].(hash := 1);
      assert Slots[..] == s[found := s[found].(hash := 1)];
      assert old(IsSlotOf(found, HashOf(key), key));
      RemovingAt(s, SlotsFilled, found);
      if Represents(e, m, HashOf) && HashOf(key) >= FIRST_VALID_HASH {
        RepresentsRemove(e, m, HashOf, key);
      }
      removed := true;
    }

    /** Dropping the contents but keeping the slots, and what they hold besides the hashes. */
    method Reset()
      requires Valid()
      modifies this`Count, this`SlotsFilled, Slots
      ensures Valid() && Reachable() && AllUnused(Slots[..]) && Count == 0
      ensures Entries(Slots[..]) == multiset{} && Surplus() == 0
      ensures forall i :: 0 <= i < Slots.Length ==> Slots[i].key == old(Slots[i].key)
    {
      hide Entries, Filled, Live;
      var index := 0;
      while index < Allocated
        invariant 0 <= index <= Allocated == Slots.Length
        invariant |old(Slots[..])| == Slots.Length
        invariant forall i :: 0 <= i < index ==> Slots[i].hash == 0
        invariant forall i :: 0 <= i < Slots.Length ==> Slots[i].key == old(Slots[i].key)
      {
        if Slots[index].hash != 0 {
          Slots[index] := Slots[index].(hash := 0);
        }
        index := index + 1;
      }
      Count, SlotsFilled := 0, 0;
      NothingInUnused(Slots[..]);
    }
  }

  // ----- runs

  datatype Call<K, V> = SetCall(key: K, value: V) | SubscriptCall(key: K, initial: V) | RemoveCall(key: K)

  /** What the calls do to a map. */
  ghost function After<K, V>(m: map<K, V>, calls: seq<Call<K, V>>): map<K, V> {
    if calls == [] then m
    else
      var before := After(m, calls[..|calls| - 1]);
      match calls[|calls| - 1]
      case SetCall(k, v) => before[k := v]
      case SubscriptCall(k, v) => if k in before then before else before[k := v]
      case RemoveCall(k) => before - {k}
  }

  ghost predicate RemovesAt<K, V>(m: map<K, V>, calls: seq<Call<K, V>>, i: nat)
    requires i < |calls|
  {
    calls[i].RemoveCall? && calls[i].key in After(m, calls[..i])
  }

  /** Some call removes a key that is there. */
  ghost predicate RemovesPresent<K, V>(m: map<K, V>, calls: seq<Call<K, V>>) {
    exists i :: 0 <= i < |calls| && RemovesAt(m, calls, i)
  }

  lemma RemovesNext<K, V>(m: map<K, V>, calls: seq<Call<K, V>>, i: nat)
    requires i < |calls|
    ensures RemovesPresent(m, calls[..i + 1]) <==> RemovesPresent(m, calls[..i]) || RemovesAt(m, calls, i)
  {
    hide After;
    var longer, shorter := calls[..i + 1], calls[..i];
    forall j | 0 <= j < i
      ensures RemovesAt(m, longer, j) <==> RemovesAt(m, shorter, j)
    {
      assert longer[..j] == shorter[..j];
    }
    assert longer[..i] == calls[..i];
    assert RemovesAt(m, longer, i) <==> RemovesAt(m, calls, i);
  }

  /**
   * How the counter of a table relates to the number of its entries: it is that number exactly
   * while no entry was removed and none was moved, and entries are moved when the seventeenth
   * comes to the first block of slots.
   */
  predicate Tally(count: int, slots: nat, live: int, removed: bool) {
    && live <= count
    && (count == live <==> !removed && 2 * live <= MINIMUM_SIZE)
    && (count == live ==> (slots == 0 && count == 0) || slots == MINIMUM_SIZE)
  }

  lemma FirstSize()
    ensures SizeFor(2 * 0) == MINIMUM_SIZE
  {
  }

  lemma TallyNext<K, V>(s: seq<Slot<K, V>>, filled: nat, removed: bool)
    requires Sound(s, filled)
    ensures Tally(filled, |s|, Live(s), removed) ==>
      && (2 * filled < |s| ==> Tally(filled + 1, |s|, Live(s) + 1, removed))
      && (2 * filled >= |s| ==> Tally(filled + Live(s) + 1, SizeFor(2 * filled), Live(s) + 1, removed))
      && Tally(filled, |s|, Live(s) - 1, true)
  {
    hide SizeFor, Live, Filled;
    FirstSize();
  }

  lemma AfterNext<K, V>(m: map<K, V>, calls: seq<Call<K, V>>, i: nat)
    requires i < |calls|
    ensures var before, after := After(m, calls[..i]), After(m, calls[..i + 1]);
      match calls[i]
      case SetCall(k, v) => after == before[k := v]
      case SubscriptCall(k, v) => after == if k in before then before else before[k := v]
      case RemoveCall(k) => after == before - {k}
  {
    assert calls[..i + 1][..i] == calls[..i];
  }

  ghost predicate Counted<K(0), V(0)>(t: HashTable<K, V>, removed: bool)
    reads t, t.Slots
  {
    Tally(t.Count, t.Allocated, Live(t.Slots[..]), removed)
  }

  /** Any sequence of calls, with the growth they cause, does to the table what it does to the map. */
  method Run<K(==,0), V(==,0)>(t: HashTable<K, V>, calls: seq<Call<K, V>>, ghost m: map<K, V>, ghost removed: bool)
    requires t.Valid() && Represents(Entries(t.Slots[..]), m, t.HashOf)
    requires forall i :: 0 <= i < |calls| ==> t.HashOf(calls[i].key) >= FIRST_VALID_HASH
    modifies t, t.Slots
    ensures t.Valid() && (t.Slots == old(t.Slots) || fresh(t.Slots)) && (old(t.Reachable()) ==> t.Reachable())
    ensures Represents(Entries(t.Slots[..]), After(m, calls), t.HashOf)
    ensures old(Counted(t, removed)) ==> Counted(t, removed || RemovesPresent(m, calls))
  {
    hide Represents, Entries, Sound, Live, Tally, Probing;
    for i := 0 to |calls|
      invariant t.Valid() && (t.Slots == old(t.Slots) || fresh(t.Slots)) && (old(t.Reachable()) ==> t.Reachable())
      invariant Represents(Entries(t.Slots[..]), After(m, calls[..i]), t.HashOf)
      invariant old(Counted(t, removed)) ==> Counted(t, removed || RemovesPresent(m, calls[..i]))
    {
      RemovesNext(m, calls, i);
      RunNext(t, calls, m, i, removed || RemovesPresent(m, calls[..i]));
    }
    assert calls[..|calls|] == calls;
  }

  method RunNext<K(==,0), V(==,0)>(t: HashTable<K, V>, calls: seq<Call<K, V>>, ghost m: map<K, V>, i: nat, ghost removed: bool)
    requires i < |calls| && t.Valid() && Represents(Entries(t.Slots[..]), After(m, calls[..i]), t.HashOf)
    requires t.HashOf(calls[i].key) >= FIRST_VALID_HASH
    modifies t, t.Slots
    ensures t.Valid() && (t.Slots == old(t.Slots) || fresh(t.Slots)) && (old(t.Reachable()) ==> t.Reachable())
    ensures Represents(Entries(t.Slots[..]), After(m, calls[..i + 1]), t.HashOf)
    ensures old(Counted(t, removed)) ==> Counted(t, removed || RemovesAt(m, calls, i))
  {
    hide Represents, Entries, Sound, Added, Probing, Placed, Tally, Live, After;
    hide HashTable.Finds, HashTable.IsSlotOf, HashTable.Reachable;
    ghost var before := After(m, calls[..i]);
    ghost var s, filled := t.Slots[..], t.SlotsFilled;
    TallyNext(s, filled, removed);
    AfterNext(m, calls, i);
    match calls[i]
    case SetCall(k, v) =>
      var at := t.Set(k, v, before);
      if k !in before {
        AddedGives(s, filled, t.Slots[..], t.SlotsFilled, Slot(Lift(t.HashOf(k)), k, v));
      }
    case SubscriptCall(k, v) =>
      var at := t.Subscript(k, v, before);
      if k !in before {
        AddedGives(s, filled, t.Slots[..], t.SlotsFilled, Slot(Lift(t.HashOf(k)), k, v));
      }
    case RemoveCall(k) =>
      var _ := t.Remove(k, before);
  }

  predicate Stores<K, V>(call: Call<K, V>) {
    !call.RemoveCall?
  }

  /**
   * Calls up to the first one that stores under a hash that is not valid: the table stands for the
   * map after all the calls before it, and after that one it does not.
   */
  method RunToInvalidHash<K(==,0), V(==,0)>(t: HashTable<K, V>, calls: seq<Call<K, V>>, ghost m: map<K, V>) returns (n: nat)
    requires t.Valid() && Represents(Entries(t.Slots[..]), m, t.HashOf)
    requires forall i :: 0 <= i < |calls| && !Stores(calls[i]) ==> t.HashOf(calls[i].key) >= FIRST_VALID_HASH
    modifies t, t.Slots
    ensures t.Valid() && n <= |calls|
    ensures forall i :: 0 <= i < n - 1 ==> t.HashOf(calls[i].key) >= FIRST_VALID_HASH
    ensures n < |calls| ==> n > 0 && t.HashOf(calls[n - 1].key) < FIRST_VALID_HASH
    ensures Represents(Entries(t.Slots[..]), After(m, calls[..n]), t.HashOf) <==>
      forall i :: 0 <= i < n ==> t.HashOf(calls[i].key) >= FIRST_VALID_HASH
  {
    hide Represents, Entries, Sound, Live, Tally, Probing, After, Added, Placed;
    n := 0;
    while n < |calls| && t.HashOf(calls[n].key) >= FIRST_VALID_HASH
      invariant n <= |calls| && forall i :: 0 <= i < n ==> t.HashOf(calls[i].key) >= FIRST_VALID_HASH
    {
      n := n + 1;
    }
    Run(t, calls[..n], m, false);
    if n == |calls| {
      return;
    }
    ghost var before := After(m, calls[..n]);
    AfterNext(m, calls, n);
    n := n + 1;
    match calls[n - 1]
    case SetCall(k, v) =>
      var at := t.Set(k, v, before);
    case SubscriptCall(k, v) =>
      var at := t.Subscript(k, v, before);
    case RemoveCall(k) =>
      assert false;
  }

  /**
   * A run from a new table: it stands for the map, every entry is reachable, and Count is the
   * size of the map exactly when no call removed a key that was there and there are at most 16.
   */
  method RunFromNew<K(==,0), V(==,0)>(hashOf: K -> nat, calls: seq<Call<K, V>>) returns (t: HashTable<K, V>)
    requires forall i :: 0 <= i < |calls| ==> hashOf(calls[i].key) >= FIRST_VALID_HASH
    ensures fresh(t) && t.Valid() && t.Reachable() && t.HashOf == hashOf
    ensures Represents(Entries(t.Slots[..]), After(map[], calls), hashOf)
    ensures t.Count == |After(map[], calls)| <==> !RemovesPresent(map[], calls) && |After(map[], calls)| <= 16
  {
    hide Sound, Probing;
    t := new HashTable<K, V>(hashOf);
    Run(t, calls, map[], false);
    TrueSize(t, After(map[], calls));
  }

  /** The first keys with valid hashes, when keys are their own hashes. */
  ghost function FirstKeys(n: nat): (m: map<nat, nat>)
    ensures forall k :: k in m <==> 2 <= k < n + 2
    ensures |m| == n
  {
    if n == 0 then map[] else FirstKeys(n - 1)[n + 1 := 0]
  }

  /** A hash that is the key itself. */
  function Same(k: nat): nat {
    k
  }

  method AddNextKey(t: HashTable<nat, nat>, n: nat)
    requires t.Valid() && Represents(Entries(t.Slots[..]), FirstKeys(n), t.HashOf) && t.HashOf == Same
    modifies t, t.Slots
    ensures t.Valid() && (t.Slots == old(t.Slots) || fresh(t.Slots))
    ensures Represents(Entries(t.Slots[..]), FirstKeys(n + 1), t.HashOf)
    ensures t.Count == old(if 2 * t.Count < t.Allocated then t.Count + 1 else t.Count + n + 1)
    ensures t.Allocated == old(if 2 * t.Count < t.Allocated then t.Allocated else SizeFor(2 * t.Count))
  {
    hide Represents, Entries, Sound, Added, Probing, Placed, Live;
    hide HashTable.Finds, HashTable.IsSlotOf, HashTable.Reachable;
    TrueSize(t, FirstKeys(n));
    ghost var s, filled := t.Slots[..], t.SlotsFilled;
    var _ := t.Set(n + 2, 0, FirstKeys(n));
    AddedGives(s, filled, t.Slots[..], t.SlotsFilled, Slot(n + 2, n + 2, 0));
  }

  /** A new table with up to 16 keys. */
  method SomeKeys(n: nat) returns (t: HashTable<nat, nat>)
    requires n <= 16
    ensures fresh(t) && fresh(t.Slots) && t.Valid() && t.HashOf == Same
    ensures Represents(Entries(t.Slots[..]), FirstKeys(n), t.HashOf)
    ensures t.Count == n && t.Allocated == if n == 0 then 0 else 32
  {
    hide Represents, Entries, HashTable.Valid, HashTable.Reachable;
    t := new HashTable<nat, nat>(Same);
    NothingRepresented(Entries(t.Slots[..]), FirstKeys(0), t.HashOf);
    for i := 0 to n
      invariant fresh(t) && fresh(t.Slots) && t.Valid()
      invariant Represents(Entries(t.Slots[..]), FirstKeys(i), t.HashOf)
      invariant t.Count == i && t.Allocated == if i == 0 then 0 else 32
    {
      AddNextKey(t, i);
    }
  }

  /** Seventeen keys, nothing removed: the counter says 33. */
  method SeventeenKeys() returns (t: HashTable<nat, nat>)
    ensures fresh(t) && t.Valid() && t.Count == 33
    ensures Represents(Entries(t.Slots[..]), FirstKeys(17), t.HashOf) && |FirstKeys(17)| == 17
  {
    hide Represents, Entries, HashTable.Valid;
    t := SomeKeys(16);
    AddNextKey(t, 16);
  }

  lemma NothingRepresented<K, V>(e: multiset<Slot<K, V>>, m: map<K, V>, hashOf: K -> nat)
    requires e == multiset{} && m == map[]
    ensures Represents(e, m, hashOf)
  {
  }

  // ----- hashes below 2

  /** A key that hashes to 1 is not found again, and is added once more. */
  method AddedTwice() returns (t: HashTable<nat, nat>)
    ensures t.Valid() && Entries(t.Slots[..]) == multiset{Slot(3, 1, 7), Slot(3, 1, 8)}
  {
    hide Sound, Probing, Placed;
    t := new HashTable<nat, nat>(Same);
    var _ := t.Set(1, 7, map[]);
    assert !t.Finds(1) by {
      NoTombstones(t.Slots[..]);
    }
    var _ := t.Set(1, 8, map[]);
  }

  /** As many slots in use as entries: none of them is a tombstone. */
  lemma {:induction false} NoTombstones<K, V>(s: seq<Slot<K, V>>)
    requires Filled(s) == Live(s)
    ensures forall i :: 0 <= i < |s| ==> s[i].hash != 1
  {
    if s != [] {
      NoTombstones(s[..|s| - 1]);
      assert forall i :: 0 <= i < |s| - 1 ==> s[i] == s[..|s| - 1][i];
    }
  }

  /** Removing a key that hashes to 0 finds an unused slot, and breaks the bound on the slots in use. */
  method RemovingHashZero() returns (t: HashTable<nat, nat>)
    ensures !t.Valid() && t.Slots.Length == t.Allocated
  {
    hide Sound, Probing, Entries, Represents, Live, Added;
    t := new HashTable<nat, nat>(Same);
    ghost var none := t.Slots[..];
    var at := t.Set(0, 7, map[]);
    AddedGives(none, 0, t.Slots[..], t.SlotsFilled, Slot(2, 0, 7));
    t.Reset();
    AddElsewhere(t, at);
    assert t.IsSlotOf(at, 0, 0);
    ghost var s := t.Slots[..];
    var _ := t.Remove(0, map[]);
  }

  /** Adding a key whose home is behind a slot leaves that slot as it is. */
  method AddElsewhere(t: HashTable<nat, nat>, i: nat)
    requires t.Valid() && t.HashOf == Same && t.Count == 0 && t.Allocated == 32 && i < 32 && AllUnused(t.Slots[..])
    modifies t, t.Slots
    ensures t.Valid() && t.HashOf == Same && t.Count == 1 && t.Slots == old(t.Slots)
    ensures t.Slots[i] == old(t.Slots[i]) && Filled(t.Slots[..]) == 1
  {
    hide Sound, Probing, Entries, Represents, Live;
    ghost var s := t.Slots[..];
    NothingInUnused(s);
    var key := 32 + (i + 1) % 32;
    var now := t.Set(key, 8, map[]);
    ghost var x := Slot(key, key, 8);
    assert now != i by {
      assert Placed(s, t.Slots[..], now, x);
      assert x.hash % 32 == (i + 1) % 32;
      assert Between((i + 1) % 32, (i + 1) % 32, now) || now == (i + 1) % 32;
    }
    assert t.Slots[i] == t.Slots[..][i] == s[i];
  }

  // ----- explicit calls of reserve

  /** From nine entries on a large target leaves a block that is smaller than the size that is recorded. */
  method ReserveBreaks(n: nat, target: nat) returns (t: HashTable<nat, nat>)
    requires 9 <= n <= 16 && n + target >= 64
    ensures fresh(t) && t.Slots.Length == 64 && t.Allocated >= 128 && !t.Valid()
    ensures Represents(Entries(t.Slots[..]), FirstKeys(n), t.HashOf)
  {
    hide Sound, Represents, Entries, Live, Holds, FirstKeys, Probing;
    t := SomeKeys(n);
    TrueSize(t, FirstKeys(n));
    assert t.View() == t.Slots[..];
    SizeForDoubles(n + target, 64);
    t.Reserve(target);
  }

  /** One entry, whose new home is behind the old size: an explicit reserve leaves it where it was. */
  method ReserveLeavesBehind(key: nat) returns (t: HashTable<nat, nat>)
    requires key % 64 >= 32
    ensures fresh(t) && t.Valid() && !t.Reachable()
    ensures Entries(t.Slots[..]) == multiset{Slot(key, key, 7)}
  {
    hide Sound, Live, Holds, Placed, Probing, Rehashed, SizeFor, Entries, Filled;
    t := new HashTable<nat, nat>(Same);
    ghost var none := t.Slots[..];
    var _ := t.Set(key, 7, map[]);
    FirstSize();
    ghost var s := t.Slots[..];
    AddedGives(none, 0, s, 1, Slot(key, key, 7));
    NothingInUnused(none);
    assert t.View() == s;
    t.Reserve(32);
    SizeAfterFirst();
    OneLeftBehind(s, t.Slots[..], t.SlotsFilled, Slot(key, key, 7));
  }

  lemma SizeAfterFirst()
    ensures SizeFor(33) == 64 && IsPow2(32) && IsPow2(64)
  {
    SizeForDoubles(33, 32);
  }

  lemma OneLeftBehind<K, V>(s: seq<Slot<K, V>>, s': seq<Slot<K, V>>, filled': nat, x: Slot<K, V>)
    requires |s| == 32 && |s'| == 64 && Sound(s, 1) && Rehashed(s, 1, 64, s', filled')
    requires Live(s) == 1 && Entries(s) == multiset{x} && x.hash % 64 >= 32
    ensures !Probing(s')
  {
    hide Sound, Holds, Probing, IsPow2;
    RehashedKeepsEntries(s, 1, 64, s', filled');
    EntriesAreSlots(s', x);
    var i :| 0 <= i < 64 && s'[i] == x;
    TailUnused(s', 32);
    SizeAfterFirst();
    RehashedIsReachable(s, 1, s', filled');
  }

  /** As many pairs, all of them in the other map: the maps are equal. */
  lemma SubmapOfEqualSize<K, V>(m: map<K, V>, n: map<K, V>)
    requires |m| == |n| && forall k :: k in m ==> k in n && n[k] == m[k]
    ensures m == n
  {
    assert m.Keys <= n.Keys;
    SubsetOfEqualSize(m.Keys, n.Keys);
  }

  lemma SubsetOfEqualSize<T>(a: set<T>, b: set<T>)
    requires a <= b && |a| == |b|
    ensures a == b
  {
    assert |b - a| == |b| - |a|;
  }

  ghost predicate InMap<K, V>(x: Slot<K, V>, m: map<K, V>) {
    x.key in m && m[x.key] == x.value
  }

  lemma SlotsInMap<K, V>(s: seq<Slot<K, V>>, m: map<K, V>)
    requires forall i :: 0 <= i < |s| && IsLive(s[i]) ==> InMap(s[i], m)
    ensures forall x :: x in Entries(s) ==> InMap(x, m)
  {
    forall x | x in Entries(s)
      ensures InMap(x, m)
    {
      EntriesAreSlots(s, x);
      var i :| 0 <= i < |s| && s[i] == x;
    }
  }

  /** The loop of the equality operator: every pair of the first table is in the second. */
  method Covers<K(==,0), V(==,0)>(t: HashTable<K, V>, u: HashTable<K, V>, ghost mt: map<K, V>, ghost mu: map<K, V>)
    returns (covered: bool)
    requires t.Valid() && u.Valid() && t.HashOf == u.HashOf
    requires Represents(Entries(t.Slots[..]), mt, t.HashOf) && Represents(Entries(u.Slots[..]), mu, u.HashOf)
    ensures covered <==> forall x :: x in Entries(t.Slots[..]) ==> InMap(x, mu)
  {
    ghost var s := t.Slots[..];
    var index := 0;
    while index < t.Allocated
      invariant 0 <= index <= t.Allocated
      invariant forall i :: 0 <= i < index && IsLive(s[i]) ==> InMap(s[i], mu)
    {
      var x := t.Slots[index];
      if IsLive(x) {
        EntriesAreSlots(s, s[index]);
        assert x.hash == t.HashOf(x.key);
        var has := u.HasPair(x.key, x.value, mu);
        if !has {
          return false;
        }
      }
      index := index + 1;
    }
    covered := true;
    SlotsInMap(s, mu);
  }

  lemma EntriesCoverMap<K, V>(e: multiset<Slot<K, V>>, m: map<K, V>, n: map<K, V>, hashOf: K -> nat)
    requires Represents(e, m, hashOf)
    ensures (forall x :: x in e ==> InMap(x, n)) <==> (forall k :: k in m ==> k in n && n[k] == m[k])
  {
    if forall x :: x in e ==> InMap(x, n) {
      forall k | k in m
        ensures k in n && n[k] == m[k]
      {
        assert Slot(hashOf(k), k, m[k]) in e;
      }
    }
  }

  /**
   * The equality operator: equal counters, and every pair of the first table is in the second.
   * It is equality of the maps when both counters are off by the same number. When they are not,
   * it is wrong exactly for equal maps, and for a first map that lacks as many pairs of the second
   * as its counter is too high.
   */
  method Equal<K(==,0), V(==,0)>(t: HashTable<K, V>, u: HashTable<K, V>, ghost mt: map<K, V>, ghost mu: map<K, V>)
    returns (equal: bool)
    requires t.Valid() && u.Valid() && t.HashOf == u.HashOf
    requires Represents(Entries(t.Slots[..]), mt, t.HashOf) && Represents(Entries(u.Slots[..]), mu, u.HashOf)
    ensures equal <==> t.Count == u.Count && forall k :: k in mt ==> k in mu && mu[k] == mt[k]
    ensures t.Surplus() == u.Surplus() ==> (equal <==> mt == mu)
    ensures t.Surplus() != u.Surplus() ==>
      ((equal <==> mt == mu) <==> mt != mu && !(t.Count == u.Count && forall k :: k in mt ==> k in mu && mu[k] == mt[k]))
  {
    hide Represents, Entries, Sound, Live;
    TrueSize(t, mt);
    TrueSize(u, mu);
    if t.Count != u.Count {
      return false;
    }
    equal := Covers(t, u, mt, mu);
    EntriesCoverMap(Entries(t.Slots[..]), mt, mu, t.HashOf);
    if equal && |mt| == |mu| {
      SubmapOfEqualSize(mt, mu);
    }
  }

  /** The counter is the number of pairs and the surplus: it is the size exactly when nothing was removed or moved. */
  lemma TrueSize<K(0), V(0)>(t: HashTable<K, V>, m: map<K, V>)
    requires t.Valid() && Represents(Entries(t.Slots[..]), m, t.HashOf)
    ensures t.Count == |m| + t.Surplus()
    ensures t.Count == |m| <==> t.Surplus() == 0
  {
    var s := t.Slots[..];
    RepresentsSize(Entries(s), m, t.HashOf);
    EntryCount(s);
  }

  method OneEntry(hashOf: nat -> nat) returns (t: HashTable<nat, nat>)
    requires hashOf(5) >= FIRST_VALID_HASH
    ensures fresh(t) && fresh(t.Slots) && t.Valid() && t.Count == 1 && t.HashOf == hashOf
    ensures Represents(Entries(t.Slots[..]), map[5 := 1], hashOf)
  {
    t := new HashTable<nat, nat>(hashOf);
    var _ := t.Set(5, 1, map[]);
    TrueSize(t, map[5 := 1]);
  }

  method OneRemoved(hashOf: nat -> nat) returns (t: HashTable<nat, nat>)
    requires hashOf(5) >= FIRST_VALID_HASH
    ensures fresh(t) && fresh(t.Slots) && t.Valid() && t.Count == 1 && t.HashOf == hashOf
    ensures Represents(Entries(t.Slots[..]), map[], hashOf)
  {
    t := OneEntry(hashOf);
    var _ := t.Remove(5, map[5 := 1]);
    var empty: map<nat, nat> := map[];
    assert map[5 := 1] - {5} == empty;
  }

  /** After a removal the equality operator calls an empty table equal to one with an entry, in one direction. */
  method EqualityAfterRemoval() returns (forth: bool, back: bool)
    ensures forth && !back
  {
    var hashOf := (k: nat) => k;
    var t := OneRemoved(hashOf);
    var u := OneEntry(hashOf);
    ghost var none: map<nat, nat>, one := map[], map[5 := 1];
    forth := Equal(t, u, none, one);
    back := Equal(u, t, one, none);
    assert 5 in one && 5 !in none;
  }
}
