/**
 * Deadlock of initialisers that enter other declarations: when runs can get stuck, and exactly for
 * which programs they cannot.
 */
module OnceDeadlock {
  import opened OnceInit

  // ----- progress

  /** A step that is more than another round of waiting. */
  predicate Progresses(s: State, t: nat, a: Action)
    requires WellFormed(s)
  {
    && Enabled(s, t, a) && !a.Enter?
    && !Blocked(s, t)
  }

  /** The thread waits for a variable that some frame is still initialising. */
  predicate Blocked(s: State, t: nat)
    requires WellFormed(s) && t < |s.stacks|
  {
    s.stacks[t] != [] && Top(s.stacks[t]).Sleeping? && Top(s.stacks[t]).v < |s.guards|
    && s.guards[Top(s.stacks[t]).v] == BEING_INITIALIZED
  }

  ghost predicate Stuck(s: State)
    requires WellFormed(s)
  {
    forall t: nat, a: Action :: !Progresses(s, t, a)
  }

  /** Nothing inside a declaration moves on exactly when every thread inside one waits for an initialiser. */
  lemma StuckExactly(s: State)
    requires Inv(s)
    ensures Stuck(s) <==> s.lock == FREE && forall t :: 0 <= t < |s.stacks| && s.stacks[t] != [] ==> Blocked(s, t)
  {
    if Stuck(s) {
      if s.lock != FREE {
        HolderProgresses(s);
        assert false;
      }
      forall t | 0 <= t < |s.stacks| && s.stacks[t] != []
        ensures Blocked(s, t)
      {
        assert !Progresses(s, t, Proceed);
      }
    } else {
      var t: nat, a: Action :| Progresses(s, t, a);
    }
  }

  lemma HolderProgresses(s: State)
    requires Inv(s) && s.lock != FREE
    ensures 0 <= s.lock < |s.stacks| && Progresses(s, s.lock, Proceed)
  {
    assert HoldsLock(Top(s.stacks[s.lock]));
  }

  /** Initialisers that are under way enter only variables of lower rank. */
  ghost predicate RankedStack(stack: Stack, rank: Variable -> nat) {
    forall i, j :: 0 <= i < j < |stack| && stack[i].Initialising? && !stack[j].Idle? ==> rank(stack[j].v) < rank(stack[i].v)
  }

  ghost predicate Ranked(s: State, rank: Variable -> nat) {
    forall t :: 0 <= t < |s.stacks| ==> RankedStack(s.stacks[t], rank)
  }

  /** The frame that a blocked thread waits for is below the top of its own thread. */
  lemma OwnerBelow(s: State, t: nat, u: nat, k: nat)
    requires Inv(s) && t < |s.stacks| && Blocked(s, t) && Owns(FrameAt(s.stacks, u, k), Top(s.stacks[t]).v)
    requires u < |s.stacks| && Blocked(s, u)
    ensures k < |s.stacks[u]| - 1 && s.stacks[u][k] == Initialising(Top(s.stacks[t]).v)
  {
    assert WellFormedStack(s.stacks[u], |s.guards|);
    assert !Owns(Top(s.stacks[u]), Top(s.stacks[t]).v);
    assert !Owns(FrameAt(s.stacks, u, |s.stacks[u]| - 1), Top(s.stacks[t]).v);
  }

  /** Thread t waits for a variable that thread u is initialising. */
  ghost predicate WaitsFor(s: State, t: nat, u: nat)
    requires WellFormed(s)
  {
    && t < |s.stacks| && u < |s.stacks| && Blocked(s, t)
    && exists k: nat :: Owns(FrameAt(s.stacks, u, k), Top(s.stacks[t]).v)
  }

  /** From thread t one waits for the next, up to a thread inside a declaration that waits for nobody. */
  ghost predicate WaitEnds(s: State, t: nat, chain: seq<nat>)
    requires WellFormed(s)
  {
    && chain != [] && chain[0] == t
    && (forall i {:trigger chain[i + 1]} :: 0 <= i < |chain| - 1 ==> WaitsFor(s, chain[i], chain[i + 1]))
    && (var u := chain[|chain| - 1]; u < |s.stacks| && s.stacks[u] != [] && !Blocked(s, u))
  }

  /** Whom a blocked thread waits for, and that the rank goes down. */
  lemma RankedOwner(s: State, rank: Variable -> nat, t: nat) returns (u: nat)
    requires Inv(s) && Ranked(s, rank) && t < |s.stacks| && Blocked(s, t)
    ensures u < |s.stacks| && WaitsFor(s, t, u) && s.stacks[u] != []
    ensures Blocked(s, u) ==> rank(Top(s.stacks[u]).v) < rank(Top(s.stacks[t]).v)
  {
    hide LockInv, EpochInv, CoverInv, AbortInv;
    var k: nat;
    u, k :| Owns(FrameAt(s.stacks, u, k), Top(s.stacks[t]).v);
    if Blocked(s, u) {
      OwnerBelow(s, t, u, k);
      TopInRange(s, u);
      assert RankedStack(s.stacks[u], rank);
    }
  }

  lemma WaitEndsFurther(s: State, t: nat, u: nat, rest: seq<nat>)
    requires WellFormed(s) && WaitsFor(s, t, u) && WaitEnds(s, u, rest)
    ensures WaitEnds(s, t, [t] + rest)
  {
    hide WellFormed, WaitsFor, Blocked;
    var chain := [t] + rest;
    assert forall i :: 0 < i < |chain| ==> chain[i] == rest[i - 1];
    forall i {:trigger chain[i + 1]} | 0 <= i < |chain| - 1
      ensures WaitsFor(s, chain[i], chain[i + 1])
    {
      if i > 0 {
        var j := i - 1;
        assert WaitsFor(s, rest[j], rest[j + 1]);
      }
    }
  }

  /** When initialisers only enter variables of lower rank, every wait ends. */
  lemma {:induction false} RankedWaitEnds(s: State, rank: Variable -> nat, t: nat) returns (chain: seq<nat>)
    requires Inv(s) && Ranked(s, rank) && t < |s.stacks| && s.stacks[t] != []
    ensures WaitEnds(s, t, chain)
    decreases if Blocked(s, t) then 1 + rank(Top(s.stacks[t]).v) else 0
  {
    if Blocked(s, t) {
      hide WaitEnds, WaitsFor;
      var u := RankedOwner(s, rank, t);
      var rest := RankedWaitEnds(s, rank, u);
      WaitEndsFurther(s, t, u, rest);
      chain := [t] + rest;
    } else {
      chain := [t];
    }
  }

  /** Where a wait ends some thread inside a declaration can make progress. */
  lemma WaitEndsProgresses(s: State, t: nat, chain: seq<nat>) returns (u: nat)
    requires Inv(s) && WaitEnds(s, t, chain)
    ensures u < |s.stacks| && Progresses(s, u, Proceed)
  {
    if s.lock != FREE {
      HolderProgresses(s);
      u := s.lock;
    } else {
      u := chain[|chain| - 1];
    }
  }

  /** Whenever some thread is inside a declaration, some thread there can make progress. */
  lemma NoDeadlock(s: State, rank: Variable -> nat, t: nat) returns (u: nat)
    requires Inv(s) && Ranked(s, rank) && t < |s.stacks| && s.stacks[t] != []
    ensures u < |s.stacks| && Progresses(s, u, Proceed)
  {
    var chain := RankedWaitEnds(s, rank, t);
    u := WaitEndsProgresses(s, t, chain);
  }

  // ----- programs with ranked initialisers

  /** Initialisers enter variables of lower rank only. */
  ghost predicate Respects(rank: Variable -> nat, enters: Entries, variables: nat) {
    forall v, w :: 0 <= v < variables && 0 <= w < variables && enters(v, w) ==> rank(w) < rank(v)
  }

  /** The innermost initialiser is a frame, and all others are below it. */
  lemma {:induction false} AboutInnermost(stack: Stack) returns (k: int)
    ensures -1 <= k < |stack|
    ensures if k == -1 then Innermost(stack) == Idle else stack[k].Initialising? && Innermost(stack) == stack[k]
    ensures forall i :: k < i < |stack| ==> !stack[i].Initialising?
  {
    if stack == [] {
      k := -1;
    } else if stack[|stack| - 1].Initialising? {
      k := |stack| - 1;
    } else {
      k := AboutInnermost(stack[..|stack| - 1]);
    }
  }

  lemma EnterKeepsRanked(stack: Stack, v: Variable, variables: nat, enters: Entries, rank: Variable -> nat)
    requires WellFormedStack(stack, variables) && RankedStack(stack, rank) && v < variables
    requires Innermost(stack).Idle? || enters(Innermost(stack).v, v)
    requires Respects(rank, enters, variables)
    ensures RankedStack(stack + [Check(v)], rank)
  {
    hide Innermost;
    var k := AboutInnermost(stack);
    forall i | 0 <= i < |stack| && stack[i].Initialising?
      ensures rank(v) < rank(stack[i].v)
    {
      assert i <= k && rank(v) < rank(stack[k].v);
    }
  }

  lemma StepKeepsRanked(s: State, s': State, t: nat, a: Action, enters: Entries, rank: Variable -> nat)
    requires StepOf(s, s', t, a) && Ranked(s, rank) && EntersAlong(s, t, a, enters)
    requires Respects(rank, enters, |s.guards|)
    ensures Ranked(s', rank)
  {
    StepShape(s, s', t, a);
    TopInRange(s, t);
    var stack, stack' := s.stacks[t], s'.stacks[t];
    assert RankedStack(stack, rank);
    if a.Enter? {
      EnterKeepsRanked(stack, a.v, |s.guards|, enters, rank);
    } else {
      hide Do, Arrives, WellFormed;
      forall i, j | 0 <= i < j < |stack'| && stack'[i].Initialising?
        ensures rank(stack'[j].v) < rank(stack'[i].v)
      {
        assert stack'[i] == stack[i];
        assert stack'[j].v == stack[j].v;
      }
    }
  }

  lemma InitIsRanked(s: State, threads: nat, variables: nat, rank: Variable -> nat)
    requires Init(s, threads, variables)
    ensures Ranked(s, rank) && |s.guards| == variables
  {
  }

  lemma {:induction false} RunKeepsRanked(run: seq<State>, threads: nat, variables: nat, enters: Entries,
                                          rank: Variable -> nat, i: nat)
    requires IsRunAlong(run, threads, variables, enters) && Respects(rank, enters, variables) && i < |run|
    ensures Ranked(run[i], rank) && |run[i].guards| == variables
  {
    hide Do, WellFormed, Enabled, Ranked, EntersAlong, Init, Respects;
    if i == 0 {
      InitIsRanked(run[0], threads, variables, rank);
    } else {
      RunKeepsRanked(run, threads, variables, enters, rank, i - 1);
      var j := i - 1;
      assert NextAlong(run[j], run[j + 1], enters);
      var t: nat, a: Action :| StepOf(run[j], run[j + 1], t, a) && EntersAlong(run[j], t, a, enters);
      StepKeepsRanked(run[j], run[j + 1], t, a, enters, rank);
      StepShape(run[j], run[j + 1], t, a);
    }
  }

  // ----- programs without a rank

  /** A way from variable to variable, as the initialisers enter them. */
  ghost predicate IsWay(way: seq<Variable>, variables: nat, enters: Entries) {
    && |way| >= 2
    && (forall i :: 0 <= i < |way| ==> way[i] < variables)
    && (forall i {:trigger way[i + 1]} :: 0 <= i < |way| - 1 ==> enters(way[i], way[i + 1]))
  }

  ghost predicate Leads(v: Variable, w: Variable, variables: nat, enters: Entries) {
    exists way :: IsWay(way, variables, enters) && way[0] == v && way[|way| - 1] == w
  }

  ghost function Reach(v: Variable, variables: nat, enters: Entries): (r: set<Variable>) {
    set w: Variable | 0 <= w < variables && Leads(v, w, variables, enters)
  }

  lemma EdgeLeads(v: Variable, w: Variable, variables: nat, enters: Entries)
    requires v < variables && w < variables && enters(v, w)
    ensures Leads(v, w, variables, enters)
    ensures forall x: Variable :: Leads(w, x, variables, enters) ==> Leads(v, x, variables, enters)
  {
    var way := [v, w];
    assert IsWay(way, variables, enters);
    forall x: Variable | Leads(w, x, variables, enters)
      ensures Leads(v, x, variables, enters)
    {
      var rest :| IsWay(rest, variables, enters) && rest[0] == w && rest[|rest| - 1] == x;
      var longer := [v] + rest;
      forall i {:trigger longer[i + 1]} | 0 <= i < |longer| - 1
        ensures enters(longer[i], longer[i + 1])
      {
        if i > 0 {
          var j := i - 1;
          assert enters(rest[j], rest[j + 1]);
        }
      }
      assert IsWay(longer, variables, enters);
    }
  }

  /** Without a way back, the number of variables that can be reached is a rank. */
  lemma ReachIsRank(variables: nat, enters: Entries) returns (rank: Variable -> nat)
    requires forall v: Variable :: !Leads(v, v, variables, enters)
    ensures Respects(rank, enters, variables)
  {
    rank := (v: Variable) => |Reach(v, variables, enters)|;
    forall v, w | 0 <= v < variables && 0 <= w < variables && enters(v, w)
      ensures rank(w) < rank(v)
    {
      EdgeLeads(v, w, variables, enters);
      var a, b := Reach(w, variables, enters), Reach(v, variables, enters);
      assert w in b && w !in a && a <= b;
      SmallerSet(a, b, w);
    }
  }

  lemma SmallerSet<T>(a: set<T>, b: set<T>, x: T)
    requires a <= b && x in b && x !in a
    ensures |a| < |b|
  {
    var rest := b - a;
    assert x in rest;
    assert |b| == |a| + |rest| by {
      assert b == a + rest;
    }
  }

  /** Thread 0 is in the initialisers of the first i variables of a way, and nobody else does anything. */
  ghost predicate ClaimedAlong(s: State, way: seq<Variable>, i: nat) {
    && 0 < i <= |way| && WellFormed(s) && |s.stacks| > 0 && s.lock == FREE && s.epochs[0] == EPOCH_START
    && s.stacks[0] == seq(i, k requires 0 <= k < i => Initialising(way[k]))
    && (forall t :: 0 < t < |s.stacks| ==> s.stacks[t] == [])
    && (forall v :: 0 <= v < |s.guards| ==> s.guards[v] == if v in way[..i] then BEING_INITIALIZED else UNINITIALIZED)
  }

  /** Thread 0 goes on along a way, until it enters a variable that it is initialising already. */
  lemma {:induction false} ClaimAlong(run: seq<State>, threads: nat, variables: nat, enters: Entries,
                                      way: seq<Variable>, i: nat) returns (longer: seq<State>)
    requires |run| > 0 && IsRunAlong(run, threads, variables, enters) && |run[|run| - 1].guards| == variables
    requires IsWay(way, variables, enters) && way[0] == way[|way| - 1]
    requires i < |way| && ClaimedAlong(run[|run| - 1], way, i)
    ensures |longer| > 0 && IsRunAlong(longer, threads, variables, enters) && IsStuckInside(longer[|longer| - 1])
    decreases |way| - i
  {
    hide IsRunAlong, WellFormed;
    var s := run[|run| - 1];
    assert s.stacks[0][i - 1] == Initialising(way[i - 1]);
    var j := i - 1;
    assert enters(way[j], way[j + 1]);
    if way[i] in way[..i] {
      longer := Wait(run, threads, variables, enters, 0, way[i], s);
      WaitingAlone(s, longer[|longer| - 1], way[i]);
    } else {
      assert i < |way| - 1 by {
        assert way[0] in way[..i];
      }
      longer := Claim(run, threads, variables, enters, 0, way[i], s);
      ClaimedNext(s, longer[|longer| - 1], way, i);
      longer := ClaimAlong(longer, threads, variables, enters, way, i + 1);
    }
  }

  lemma ClaimedNext(s: State, s': State, way: seq<Variable>, i: nat)
    requires i < |way| && ClaimedAlong(s, way, i) && way[i] < |s.guards| && WellFormed(s')
    requires s' == On(s, 0, s.stacks[0] + [Initialising(way[i])]).(guards := s.guards[way[i] := BEING_INITIALIZED])
    ensures ClaimedAlong(s', way, i + 1)
  {
    hide WellFormed;
    assert way[..i + 1] == way[..i] + [way[i]];
  }

  /** All threads inside declarations are stuck, and there is one. */
  ghost predicate IsStuckInside(s: State) {
    WellFormed(s) && Stuck(s) && exists t :: 0 <= t < |s.stacks| && s.stacks[t] != []
  }

  lemma WaitingAlone(s: State, s': State, v: Variable)
    requires WellFormed(s') && |s.stacks| > 0 && s' == On(s, 0, s.stacks[0] + [Sleeping(v)])
    requires v < |s.guards| && s.guards[v] == BEING_INITIALIZED
    requires forall t :: 0 < t < |s.stacks| ==> s.stacks[t] == []
    ensures IsStuckInside(s')
  {
    assert Top(s'.stacks[0]) == Sleeping(v) && Blocked(s', 0);
    assert forall t :: 0 < t < |s'.stacks| ==> s'.stacks[t] == [];
    assert s'.stacks[0] != [];
  }

  /** A way from a variable back to itself deadlocks a single thread. */
  lemma WayBackDeadlocks(threads: nat, variables: nat, enters: Entries, way: seq<Variable>) returns (run: seq<State>)
    requires threads >= 1 && IsWay(way, variables, enters) && way[0] == way[|way| - 1]
    ensures |run| > 0 && IsRunAlong(run, threads, variables, enters) && IsStuckInside(run[|run| - 1])
  {
    hide IsRunAlong;
    var s0 := InitialState(threads, variables);
    InitialRun(threads, variables, enters);
    run := Claim([s0], threads, variables, enters, 0, way[0], s0);
    var s1 := run[|run| - 1];
    assert s1.stacks[0] == [Initialising(way[0])];
    assert way[..1] == [way[0]];
    assert ClaimedAlong(s1, way, 1);
    run := ClaimAlong(run, threads, variables, enters, way, 1);
  }

  // ----- the programs without deadlock

  /** No run gets stuck. */
  ghost predicate NeverStuck(threads: nat, variables: nat, enters: Entries) {
    forall run: seq<State>, i | IsRunAlong(run, threads, variables, enters) && 0 <= i < |run| :: !IsStuckInside(run[i])
  }

  /** In every state of every run all waits end: no threads wait for each other in a circle. */
  ghost predicate WaitsAlwaysEnd(threads: nat, variables: nat, enters: Entries) {
    forall run: seq<State>, i, t: nat | IsRunAlong(run, threads, variables, enters) && 0 <= i < |run|
      && t < |run[i].stacks| && run[i].stacks[t] != [] :: EndsFrom(run[i], t)
  }

  ghost predicate EndsFrom(s: State, t: nat) {
    WellFormed(s) && exists chain :: WaitEnds(s, t, chain)
  }

  lemma RankedNeverWaitsForever(threads: nat, variables: nat, enters: Entries, rank: Variable -> nat)
    requires variables < LIMIT && Respects(rank, enters, variables)
    ensures WaitsAlwaysEnd(threads, variables, enters)
  {
    hide IsRunAlong, Respects, Inv;
    forall run: seq<State>, i, t: nat | IsRunAlong(run, threads, variables, enters) && 0 <= i < |run|
      && t < |run[i].stacks| && run[i].stacks[t] != []
      ensures EndsFrom(run[i], t)
    {
      RunAlongIsRun(run, threads, variables, enters);
      RunKeepsRanked(run, threads, variables, enters, rank, i);
      RunKeepsInv(run, threads, variables, i);
      InvIsWellFormed(run[i]);
      var chain := RankedWaitEnds(run[i], rank, t);
    }
  }

  lemma InvIsWellFormed(s: State)
    requires Inv(s)
    ensures WellFormed(s)
  {
  }

  lemma EndedWaitsNeverStick(threads: nat, variables: nat, enters: Entries)
    requires variables < LIMIT && WaitsAlwaysEnd(threads, variables, enters)
    ensures NeverStuck(threads, variables, enters)
  {
    hide IsRunAlong, Inv, WaitEnds;
    forall run: seq<State>, i | IsRunAlong(run, threads, variables, enters) && 0 <= i < |run|
      ensures !IsStuckInside(run[i])
    {
      RunAlongIsRun(run, threads, variables, enters);
      RunKeepsInv(run, threads, variables, i);
      if IsStuckInside(run[i]) {
        var t :| 0 <= t < |run[i].stacks| && run[i].stacks[t] != [];
        assert EndsFrom(run[i], t);
        var chain :| WaitEnds(run[i], t, chain);
        var u := WaitEndsProgresses(run[i], t, chain);
        assert false;
      }
    }
  }

  /**
   * Which programs never deadlock: exactly those whose variables can be ranked so that every
   * initialiser enters variables of lower rank only. The others deadlock with a single thread.
   */
  lemma DeadlockFreeExactly(threads: nat, variables: nat, enters: Entries)
    requires threads >= 1 && variables < LIMIT
    ensures NeverStuck(threads, variables, enters) <==> exists rank: Variable -> nat :: Respects(rank, enters, variables)
    ensures WaitsAlwaysEnd(threads, variables, enters) <==> NeverStuck(threads, variables, enters)
  {
    hide NeverStuck, WaitsAlwaysEnd, Respects, IsRunAlong, IsStuckInside;
    if rank: Variable -> nat :| Respects(rank, enters, variables) {
      RankedNeverWaitsForever(threads, variables, enters, rank);
      EndedWaitsNeverStick(threads, variables, enters);
    } else {
      if forall v: Variable :: !Leads(v, v, variables, enters) {
        var rank := ReachIsRank(variables, enters);
        assert false;
      }
      var v: Variable :| Leads(v, v, variables, enters);
      var way :| IsWay(way, variables, enters) && way[0] == v && way[|way| - 1] == v;
      var run := WayBackDeadlocks(threads, variables, enters, way);
      StuckRun(run, threads, variables, enters);
      if WaitsAlwaysEnd(threads, variables, enters) {
        EndedWaitsNeverStick(threads, variables, enters);
      }
    }
  }

  lemma StuckRun(run: seq<State>, threads: nat, variables: nat, enters: Entries)
    requires |run| > 0 && IsRunAlong(run, threads, variables, enters) && IsStuckInside(run[|run| - 1])
    ensures !NeverStuck(threads, variables, enters)
  {
  }

  // ----- two instances

  /** Two threads whose initialisers enter each other's variables end up waiting for each other. */
  lemma TwoThreadDeadlock(threads: nat, variables: nat, enters: Entries) returns (run: seq<State>)
    requires threads >= 2 && variables >= 2 && enters(0, 1) && enters(1, 0)
    ensures |run| > 0 && IsRunAlong(run, threads, variables, enters) && WellFormed(run[|run| - 1]) && Stuck(run[|run| - 1])
    ensures |run[|run| - 1].stacks| == threads
    ensures var s := run[|run| - 1];
      s.stacks[0] == [Initialising(0), Sleeping(1)] && s.stacks[1] == [Initialising(1), Sleeping(0)]
  {
    hide IsRunAlong, WellFormed;
    var s0 := InitialState(threads, variables);
    InitialRun(threads, variables, enters);
    run := Claim([s0], threads, variables, enters, 0, 0, s0);
    var s1 := run[|run| - 1];
    run := Claim(run, threads, variables, enters, 1, 1, s1);
    var s2 := run[|run| - 1];
    assert s2.stacks[0] == [Initialising(0)] && s2.stacks[1] == [Initialising(1)];
    run := Wait(run, threads, variables, enters, 0, 1, s2);
    var s3 := run[|run| - 1];
    run := Wait(run, threads, variables, enters, 1, 0, s3);
    var s := run[|run| - 1];
    assert s.stacks[0] == [Initialising(0), Sleeping(1)] && s.stacks[1] == [Initialising(1), Sleeping(0)];
    assert forall t :: 2 <= t < threads ==> s.stacks[t] == [];
  }

  /** An initialiser that enters its own variable waits for itself. */
  lemma SelfDeadlock(threads: nat, variables: nat, enters: Entries) returns (run: seq<State>)
    requires threads >= 1 && variables >= 1 && enters(0, 0)
    ensures |run| > 0 && IsRunAlong(run, threads, variables, enters) && WellFormed(run[|run| - 1]) && Stuck(run[|run| - 1])
    ensures |run[|run| - 1].stacks| == threads && run[|run| - 1].stacks[0] == [Initialising(0), Sleeping(0)]
  {
    hide IsRunAlong, WellFormed;
    var s0 := InitialState(threads, variables);
    InitialRun(threads, variables, enters);
    run := Claim([s0], threads, variables, enters, 0, 0, s0);
    var s1 := run[|run| - 1];
    assert s1.stacks[0] == [Initialising(0)];
    run := Wait(run, threads, variables, enters, 0, 0, s1);
    var s := run[|run| - 1];
    assert s.stacks[0] == [Initialising(0), Sleeping(0)];
    assert forall t :: 1 <= t < threads ==> s.stacks[t] == [];
  }
}
