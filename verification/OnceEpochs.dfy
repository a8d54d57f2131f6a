/**
 * What a thread learns over a run: after it used a variable once it never takes the lock for it
 * again, and an initialiser that throws leaves its variable to others.
 */
module OnceEpochs {
  import opened OnceInit

  /** Epochs of threads never decrease. */
  lemma {:induction false} EpochsGrow(run: seq<State>, threads: nat, variables: nat, i: nat, k: nat, t: nat)
    requires IsRun(run, threads, variables) && variables < LIMIT && i <= k < |run| && t < |run[i].epochs|
    ensures |run[k].epochs| == |run[i].epochs| && run[i].epochs[t] <= run[k].epochs[t]
  {
    hide Init, Inv;
    if i < k {
      EpochsGrow(run, threads, variables, i, k - 1, t);
      RunKeepsInv(run, threads, variables, k - 1);
      RunStep(run, threads, variables, k);
      var u: nat, a: Action :| StepOf(run[k - 1], run[k], u, a);
      StepKeepsCoverInv(run[k - 1], run[k], u, a);
    }
  }

  /** A thread that has learned that a variable is complete is covered by its epoch from then on. */
  lemma LearnedStays(run: seq<State>, threads: nat, variables: nat, i: nat, k: nat, t: nat, d: nat, v: Variable)
    requires IsRun(run, threads, variables) && variables < LIMIT && i <= k < |run|
    requires Learned(FrameAt(run[i].stacks, t, d), v)
    ensures t < |run[k].epochs| && v < |run[k].guards| && run[k].guards[v] <= run[k].epochs[t]
  {
    hide IsRun;
    RunKeepsInv(run, threads, variables, i);
    FrameInRange(run[i], t, d);
    assert Relies(FrameAt(run[i].stacks, t, d), v);
    CompletedStays(run, threads, variables, i, k, v);
    EpochsGrow(run, threads, variables, i, k, t);
  }

  lemma CheckGoesOn(s: State, s': State, t: nat, d: nat, v: Variable)
    requires Next(s, s') && FrameAt(s.stacks, t, d) == Check(v)
    requires t < |s.epochs| && v < |s.guards| && s.guards[v] <= s.epochs[t]
    ensures FrameAt(s'.stacks, t, d) == Check(v) || FrameAt(s'.stacks, t, d) == Using(v)
  {
    var u: nat, a: Action :| StepOf(s, s', u, a);
    StepOnFrames(s, s', u, a);
  }

  /**
   * Once a thread has used a variable, or has left the header or the footer of its declaration, the
   * comparison the compiler makes at every later declaration of it leads to its use, and not to the
   * header.
   */
  lemma UsedOnceNeverAsksAgain(run: seq<State>, threads: nat, variables: nat, i: nat, k: nat, t: nat, d: nat, e: nat, v: Variable)
    requires IsRun(run, threads, variables) && variables < LIMIT && i <= k < |run| - 1
    requires Learned(FrameAt(run[i].stacks, t, d), v) && FrameAt(run[k].stacks, t, e) == Check(v)
    ensures FrameAt(run[k + 1].stacks, t, e) == Check(v) || FrameAt(run[k + 1].stacks, t, e) == Using(v)
  {
    LearnedStays(run, threads, variables, i, k, t, d, v);
    RunStep(run, threads, variables, k + 1);
    CheckGoesOn(run[k], run[k + 1], t, e, v);
  }

  // ----- exceptions

  predicate Aborting(pc: Pc, v: Variable) {
    pc == AbortLock(v) || pc == AbortStore(v) || pc == AbortUnlock(v)
  }

  lemma ThrowAborts(s: State, s': State, t: nat, d: nat, v: Variable)
    requires StepOf(s, s', t, Throw) && FrameAt(s.stacks, t, d) == Initialising(v) && d == |s.stacks[t]| - 1
    ensures Aborting(FrameAt(s'.stacks, t, d), v)
  {
    StepOnFrames(s, s', t, Throw);
  }

  lemma AbortGoesOn(s: State, s': State, t: nat, d: nat, v: Variable)
    requires Inv(s) && Next(s, s') && Aborting(FrameAt(s.stacks, t, d), v)
    ensures Aborting(FrameAt(s'.stacks, t, d), v) || FrameAt(s'.stacks, t, d).Idle?
    ensures FrameAt(s'.stacks, t, d).Idle? ==>
      v < |s'.guards| && IsCompleted(s', v, 0) && s'.guards[v] == UNINITIALIZED
  {
    hide LockInv, EpochInv, WellFormedStack;
    var u: nat, a: Action :| StepOf(s, s', u, a);
    StepOnFrames(s, s', u, a);
    StepShape(s, s', u, a);
    FrameInRange(s, t, d);
    InvImpliesSafe(s);
  }

  /**
   * An initialiser that throws is not completed: until its frame is left the variable counts as
   * not initialised, and when it is left the guard says so, so that the next header claims it.
   */
  lemma {:induction false} ThrownIsLeftToOthers(run: seq<State>, threads: nat, variables: nat, i: nat, k: nat, t: nat, d: nat, v: Variable)
    requires IsRun(run, threads, variables) && variables < LIMIT && i < k < |run|
    requires StepOf(run[i], run[i + 1], t, Throw)
    requires FrameAt(run[i].stacks, t, d) == Initialising(v) && d == |run[i].stacks[t]| - 1
    requires forall j :: i < j < k ==> !FrameAt(run[j].stacks, t, d).Idle?
    ensures Aborting(FrameAt(run[k].stacks, t, d), v) || FrameAt(run[k].stacks, t, d).Idle?
    ensures IsCompleted(run[k], v, 0)
    ensures FrameAt(run[k].stacks, t, d).Idle? ==> v < |run[k].guards| && run[k].guards[v] == UNINITIALIZED
  {
    hide IsRun, Inv, StepOf, IsCompleted;
    if k == i + 1 {
      ThrowAborts(run[i], run[k], t, d, v);
    } else {
      ThrownIsLeftToOthers(run, threads, variables, i, k - 1, t, d, v);
      RunKeepsInv(run, threads, variables, k - 1);
      RunStep(run, threads, variables, k);
      AbortGoesOn(run[k - 1], run[k], t, d, v);
    }
    RunKeepsInv(run, threads, variables, k);
    if !FrameAt(run[k].stacks, t, d).Idle? {
      AbortingIsNotCompleted(run[k], t, d, v);
    }
  }

  lemma AbortingIsNotCompleted(s: State, t: nat, d: nat, v: Variable)
    requires Inv(s) && Aborting(FrameAt(s.stacks, t, d), v)
    ensures IsCompleted(s, v, 0)
  {
    FrameInRange(s, t, d);
    InvImpliesSafe(s);
    assert FrameAt(s.stacks, t, d).AbortUnlock? || Owns(FrameAt(s.stacks, t, d), v);
  }
}
