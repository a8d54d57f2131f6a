/**
 * Thread-safe initialisation of function-local statics: any number of threads, any number of
 * guarded variables, one lock, one global epoch and one epoch per thread.
 */
module OnceInit {
  import opened Sequences

  const UNINITIALIZED := 0
  const BEING_INITIALIZED := -1
  const EPOCH_START := -0x8000_0000
  const FREE := -1

  /** The number of completions after which the epoch reaches the value of BEING_INITIALIZED. */
  const LIMIT: nat := 0x7fff_ffff

  type Variable = nat

  /**
   * Where a thread is within one declaration. Check, Returned and Using belong to the code the
   * compiler emits around a declaration; the other points are statements of the runtime. A thread
   * that waits on the condition variable is Sleeping and does not hold the lock. The flag
   * `claimed` remembers whether this call of the header stored BEING_INITIALIZED; no step looks
   * at it. Idle stands for no declaration at all.
   */
  datatype Pc =
    | Idle
    | Check(v: Variable)
    | HeaderLock(v: Variable)
    | Header(v: Variable)
    | Sleeping(v: Variable)
    | HeaderUnlock(v: Variable, claimed: bool)
    | Returned(v: Variable, claimed: bool)
    | Initialising(v: Variable)
    | FooterLock(v: Variable)
    | FooterBump(v: Variable)
    | FooterStore(v: Variable)
    | FooterEpoch(v: Variable)
    | FooterUnlock(v: Variable)
    | AbortLock(v: Variable)
    | AbortStore(v: Variable)
    | AbortUnlock(v: Variable)
    | Using(v: Variable)

  /** The declarations a thread is in, the innermost one last. */
  type Stack = seq<Pc>

  /** The shared words, the threads, and two history counters: footer stores per variable and in all. */
  datatype State = State(
    guards: seq<int>,
    globalEpoch: int,
    lock: int,
    stacks: seq<Stack>,
    epochs: seq<int>,
    completions: seq<nat>,
    bumps: nat)

  /** What a thread does next: enter a declaration, or take its next step, or throw from the initialiser. */
  datatype Action = Enter(v: Variable) | Proceed | Throw

  function Increment32(x: int): int {
    if x == 0x7fff_ffff then -0x8000_0000 else x + 1
  }

  ghost predicate Init(s: State, threads: nat, variables: nat) {
    && s.guards == seq(variables, _ => UNINITIALIZED)
    && s.globalEpoch == EPOCH_START
    && s.lock == FREE
    && s.stacks == seq(threads, _ => [])
    && s.epochs == seq(threads, _ => EPOCH_START)
    && s.completions == seq(variables, _ => 0)
    && s.bumps == 0
  }

  predicate HoldsLock(pc: Pc) {
    pc.Header? || pc.HeaderUnlock? || pc.FooterBump? || pc.FooterStore? || pc.FooterEpoch? || pc.FooterUnlock?
    || pc.AbortStore? || pc.AbortUnlock?
  }

  predicate WantsLock(pc: Pc) {
    pc.HeaderLock? || pc.Sleeping? || pc.FooterLock? || pc.AbortLock?
  }

  /** An initialiser may enter other declarations, and so may code that uses a variable. */
  predicate MayEnter(pc: Pc) {
    pc.Idle? || pc.Initialising? || pc.Using?
  }

  function Top(stack: Stack): Pc {
    if stack == [] then Idle else stack[|stack| - 1]
  }

  /** Frame k of thread t, or Idle when there is none. */
  function FrameAt(stacks: seq<Stack>, t: nat, k: nat): Pc {
    if t < |stacks| && k < |stacks[t]| then stacks[t][k] else Idle
  }

  predicate WellFormedStack(stack: Stack, variables: nat) {
    && (forall k :: 0 <= k < |stack| ==> !stack[k].Idle? && stack[k].v < variables)
    && (forall k :: 0 <= k < |stack| - 1 ==> MayEnter(stack[k]))
  }

  predicate WellFormed(s: State) {
    && |s.stacks| == |s.epochs|
    && |s.guards| == |s.completions|
    && forall t :: 0 <= t < |s.stacks| ==> WellFormedStack(s.stacks[t], |s.guards|)
  }

  predicate Enabled(s: State, t: nat, a: Action)
    requires WellFormed(s)
  {
    && t < |s.stacks|
    && (a.Enter? ==> a.v < |s.guards| && MayEnter(Top(s.stacks[t])))
    && (!a.Enter? ==> s.stacks[t] != [] && (WantsLock(Top(s.stacks[t])) ==> s.lock == FREE))
    && (a.Throw? ==> Top(s.stacks[t]).Initialising?)
  }

  /** The innermost declaration goes on at another point, or is left. */
  function WithTop(stack: Stack, pc: Pc): Stack
    requires stack != []
  {
    if pc.Idle? then stack[..|stack| - 1] else stack[|stack| - 1 := pc]
  }

  function At(s: State, t: nat, pc: Pc): State
    requires t < |s.stacks| && s.stacks[t] != []
  {
    s.(stacks := s.stacks[t := WithTop(s.stacks[t], pc)])
  }

  /** One step of thread t. */
  function Do(s: State, t: nat, a: Action): (s': State)
    requires WellFormed(s) && Enabled(s, t, a)
  {
    if a.Enter? then s.(stacks := s.stacks[t := s.stacks[t] + [Check(a.v)]])
    else
      match Top(s.stacks[t])
      // the compiler compares the guard with the thread's own epoch, without the lock
      case Check(v) => At(s, t, if s.guards[v] > s.epochs[t] then HeaderLock(v) else Using(v))
      case HeaderLock(v) => At(s, t, Header(v)).(lock := t)
      // the test on entry and the test after each wait branch in the same way
      case Header(v) =>
        if s.guards[v] == UNINITIALIZED then
          At(s, t, HeaderUnlock(v, true)).(guards := s.guards[v := BEING_INITIALIZED])
        else if s.guards[v] == BEING_INITIALIZED then
          At(s, t, Sleeping(v)).(lock := FREE)
        else
          At(s, t, HeaderUnlock(v, false)).(epochs := s.epochs[t := s.globalEpoch])
      // woken by a notification or by the timeout, and then the lock is taken again
      case Sleeping(v) => At(s, t, Header(v)).(lock := t)
      case HeaderUnlock(v, claimed) => At(s, t, Returned(v, claimed)).(lock := FREE)
      // the compiler runs the initialiser exactly when the guard reads BEING_INITIALIZED
      case Returned(v, _) => At(s, t, if s.guards[v] == BEING_INITIALIZED then Initialising(v) else Using(v))
      case Initialising(v) => At(s, t, if a.Throw? then AbortLock(v) else FooterLock(v))
      case FooterLock(v) => At(s, t, FooterBump(v)).(lock := t)
      case FooterBump(v) => At(s, t, FooterStore(v)).(globalEpoch := Increment32(s.globalEpoch), bumps := s.bumps + 1)
      case FooterStore(v) =>
        At(s, t, FooterEpoch(v)).(
          guards := s.guards[v := s.globalEpoch],
          completions := s.completions[v := s.completions[v] + 1])
      case FooterEpoch(v) => At(s, t, FooterUnlock(v)).(epochs := s.epochs[t := s.globalEpoch])
      case FooterUnlock(v) => At(s, t, Using(v)).(lock := FREE)
      case AbortLock(v) => At(s, t, AbortStore(v)).(lock := t)
      case AbortStore(v) => At(s, t, AbortUnlock(v)).(guards := s.guards[v := UNINITIALIZED])
      // the exception goes on into the initialiser around this declaration, which may throw in its turn
      case AbortUnlock(v) => At(s, t, Idle).(lock := FREE)
      case Using(v) => At(s, t, Idle)
  }

  ghost predicate StepOf(s: State, s': State, t: nat, a: Action) {
    WellFormed(s) && Enabled(s, t, a) && s' == Do(s, t, a)
  }

  ghost predicate Next(s: State, s': State) {
    exists t: nat, a: Action :: StepOf(s, s', t, a)
  }

  ghost predicate IsRun(run: seq<State>, threads: nat, variables: nat) {
    && |run| > 0
    && Init(run[0], threads, variables)
    && forall i {:trigger run[i + 1]} :: 0 <= i < |run| - 1 ==> Next(run[i], run[i + 1])
  }

  /** The declaration whose initialiser the thread is in, the innermost one; Idle when it is in none. */
  function Innermost(stack: Stack): Pc {
    if stack == [] then Idle
    else if stack[|stack| - 1].Initialising? then stack[|stack| - 1]
    else Innermost(stack[..|stack| - 1])
  }

  /** Which variables the initialiser of a variable enters. */
  type Entries = (Variable, Variable) -> bool

  /** What is entered from an initialiser is among the variables it enters. */
  ghost predicate EntersAlong(s: State, t: nat, a: Action, enters: Entries)
    requires WellFormed(s) && Enabled(s, t, a)
  {
    a.Enter? ==> Innermost(s.stacks[t]).Idle? || enters(Innermost(s.stacks[t]).v, a.v)
  }

  ghost predicate NextAlong(s: State, s': State, enters: Entries) {
    exists t: nat, a: Action :: StepOf(s, s', t, a) && EntersAlong(s, t, a, enters)
  }

  /** A run of a program whose initialisers enter what is said. */
  ghost predicate IsRunAlong(run: seq<State>, threads: nat, variables: nat, enters: Entries) {
    && |run| > 0
    && Init(run[0], threads, variables)
    && forall i {:trigger run[i + 1]} :: 0 <= i < |run| - 1 ==> NextAlong(run[i], run[i + 1], enters)
  }

  lemma RunAlongIsRun(run: seq<State>, threads: nat, variables: nat, enters: Entries)
    requires IsRunAlong(run, threads, variables, enters)
    ensures IsRun(run, threads, variables)
  {
    hide Init, Do;
    forall i {:trigger run[i + 1]} | 0 <= i < |run| - 1
      ensures Next(run[i], run[i + 1])
    {
      assert NextAlong(run[i], run[i + 1], enters);
    }
  }

  // ----- the inductive invariant

  /** The frame is between claiming variable v and giving the claim up. */
  predicate Owns(pc: Pc, v: Variable) {
    !pc.Idle? && pc.v == v &&
    ((pc.HeaderUnlock? && pc.claimed) || (pc.Returned? && pc.claimed) || pc.Initialising? || pc.FooterLock?
     || pc.FooterBump? || pc.FooterStore? || pc.AbortLock? || pc.AbortStore?)
  }

  /** The frame may rely on variable v being complete. */
  predicate Relies(pc: Pc, v: Variable) {
    !pc.Idle? && pc.v == v &&
    ((pc.HeaderUnlock? && !pc.claimed) || (pc.Returned? && !pc.claimed) || pc.FooterEpoch? || pc.FooterUnlock? || pc.Using?)
  }

  /** The frame's thread has learned that variable v is complete. */
  predicate Learned(pc: Pc, v: Variable) {
    !pc.Idle? && pc.v == v &&
    ((pc.HeaderUnlock? && !pc.claimed) || (pc.Returned? && !pc.claimed) || pc.FooterUnlock? || pc.Using?)
  }

  predicate Complete(guard: int) {
    guard != UNINITIALIZED && guard != BEING_INITIALIZED
  }

  /** A footer has advanced the epoch but not yet stored it. */
  predicate StorePending(s: State) {
    0 <= s.lock < |s.stacks| && Top(s.stacks[s.lock]).FooterStore?
  }

  ghost predicate LockInv(s: State) {
    && (s.lock == FREE || 0 <= s.lock < |s.stacks|)
    && forall t :: 0 <= t < |s.stacks| ==> (HoldsLock(Top(s.stacks[t])) <==> s.lock == t)
  }

  /** A guard reads BEING_INITIALIZED exactly while one frame of one thread owns the variable. */
  ghost predicate OwnerInv(stacks: seq<Stack>, guards: seq<int>) {
    && (forall t: nat, k: nat, v :: 0 <= v < |guards| && Owns(FrameAt(stacks, t, k), v) ==> guards[v] == BEING_INITIALIZED)
    && (forall t: nat, k: nat, u: nat, j: nat, v: Variable ::
          Owns(FrameAt(stacks, t, k), v) && Owns(FrameAt(stacks, u, j), v) ==> t == u && k == j)
    && (forall v :: 0 <= v < |guards| && guards[v] == BEING_INITIALIZED ==>
          exists t: nat, k: nat :: Owns(FrameAt(stacks, t, k), v))
    && (forall t: nat, k: nat, v :: 0 <= v < |guards| && Relies(FrameAt(stacks, t, k), v) ==> Complete(guards[v]))
  }

  /** A thread that has learned that a variable is complete has an epoch that covers the guard. */
  ghost predicate CoverInv(stacks: seq<Stack>, guards: seq<int>, epochs: seq<int>) {
    forall t: nat, k: nat, v: Variable ::
      t < |epochs| && v < |guards| && Learned(FrameAt(stacks, t, k), v) ==> guards[v] <= epochs[t]
  }

  /** An initialiser that threw leaves its variable uninitialised. */
  ghost predicate AbortInv(stacks: seq<Stack>, guards: seq<int>) {
    forall t: nat, k: nat ::
      FrameAt(stacks, t, k).AbortUnlock? && FrameAt(stacks, t, k).v < |guards| ==> guards[FrameAt(stacks, t, k).v] == UNINITIALIZED
  }

  /** Complete guards hold different values, all of them reached by the epoch; a pending store will write a new one. */
  ghost predicate GuardInv(guards: seq<int>, completions: seq<nat>, globalEpoch: int, pending: bool) {
    && |guards| == |completions|
    && (forall v :: 0 <= v < |guards| ==> completions[v] == if Complete(guards[v]) then 1 else 0)
    && (forall v :: 0 <= v < |guards| && Complete(guards[v]) ==> EPOCH_START < guards[v] <= globalEpoch)
    && (pending ==> forall v :: 0 <= v < |guards| && Complete(guards[v]) ==> guards[v] < globalEpoch)
    && (forall v, w :: 0 <= v < w < |guards| && Complete(guards[v]) && Complete(guards[w]) ==> guards[v] != guards[w])
  }

  ghost predicate EpochInv(s: State) {
    && s.bumps < LIMIT
    && s.globalEpoch == EPOCH_START + s.bumps
    && (forall t :: 0 <= t < |s.epochs| ==> s.epochs[t] <= s.globalEpoch)
    && GuardInv(s.guards, s.completions, s.globalEpoch, StorePending(s))
    && s.bumps == Sum(s.completions) + if StorePending(s) then 1 else 0
  }

  ghost predicate Inv(s: State) {
    && WellFormed(s) && LockInv(s) && OwnerInv(s.stacks, s.guards) && EpochInv(s)
    && CoverInv(s.stacks, s.guards, s.epochs) && AbortInv(s.stacks, s.guards)
  }

  lemma InitEstablishesInv(s: State, threads: nat, variables: nat)
    requires Init(s, threads, variables)
    ensures Inv(s)
  {
    SumOfZeros(s.completions);
  }

  /** The variable a step is about. */
  function Subject(s: State, t: nat, a: Action): Variable
    requires WellFormed(s) && Enabled(s, t, a)
  {
    if a.Enter? then a.v else Top(s.stacks[t]).v
  }

  /** The place of the frame that a step changes. */
  function Depth(s: State, t: nat, a: Action): nat
    requires WellFormed(s) && Enabled(s, t, a)
  {
    if a.Enter? then |s.stacks[t]| else |s.stacks[t]| - 1
  }

  /** All frames but frame k of thread t are the same. */
  ghost predicate SameButOne(stacks: seq<Stack>, stacks': seq<Stack>, t: nat, k: nat) {
    forall u: nat, j: nat {:trigger FrameAt(stacks', u, j)} {:trigger FrameAt(stacks, u, j)} ::
      u != t || j != k ==> FrameAt(stacks', u, j) == FrameAt(stacks, u, j)
  }

  lemma StackStep(stack: Stack, stack': Stack, variables: nat, pc: Pc)
    requires WellFormedStack(stack, variables)
    requires pc.Idle? || pc.v < variables
    requires (pc.Check? && MayEnter(Top(stack)) && stack' == stack + [pc]) || (stack != [] && stack' == WithTop(stack, pc))
    ensures WellFormedStack(stack', variables)
    ensures |stack'| <= |stack| + 1
  {
  }

  /** The point at which the frame of a step arrives; Idle when the declaration is left. */
  ghost function Arrives(s: State, t: nat, a: Action): Pc
    requires WellFormed(s) && Enabled(s, t, a)
  {
    if a.Enter? then Check(a.v)
    else
      match Top(s.stacks[t])
      case Check(v) => if s.guards[v] > s.epochs[t] then HeaderLock(v) else Using(v)
      case HeaderLock(v) => Header(v)
      case Header(v) =>
        if s.guards[v] == UNINITIALIZED then HeaderUnlock(v, true)
        else if s.guards[v] == BEING_INITIALIZED then Sleeping(v) else HeaderUnlock(v, false)
      case Sleeping(v) => Header(v)
      case HeaderUnlock(v, claimed) => Returned(v, claimed)
      case Returned(v, _) => if s.guards[v] == BEING_INITIALIZED then Initialising(v) else Using(v)
      case Initialising(v) => if a.Throw? then AbortLock(v) else FooterLock(v)
      case FooterLock(v) => FooterBump(v)
      case FooterBump(v) => FooterStore(v)
      case FooterStore(v) => FooterEpoch(v)
      case FooterEpoch(v) => FooterUnlock(v)
      case FooterUnlock(v) => Using(v)
      case AbortLock(v) => AbortStore(v)
      case AbortStore(v) => AbortUnlock(v)
      case AbortUnlock(v) => Idle
      case Using(v) => Idle
  }

  /** The point the frame of a step comes from; Idle when the declaration is entered. */
  ghost function Leaves(s: State, t: nat, a: Action): Pc
    requires WellFormed(s) && Enabled(s, t, a)
  {
    if a.Enter? then Idle else Top(s.stacks[t])
  }

  /** A step inside a declaration moves its frame on. */
  lemma StepOnTop(s: State, s': State, t: nat, a: Action)
    requires StepOf(s, s', t, a) && !a.Enter?
    requires t < |s.stacks| == |s.epochs| && s.stacks[t] != []
    requires !Top(s.stacks[t]).Idle? && Top(s.stacks[t]).v < |s.guards| == |s.completions|
    ensures s'.stacks == s.stacks[t := WithTop(s.stacks[t], Arrives(s, t, a))]
    ensures Arrives(s, t, a).Idle? || Arrives(s, t, a).v == Top(s.stacks[t]).v
  {
    hide WellFormed, WithTop;
  }

  /** And writes to no word but its variable's and its own. */
  lemma StepWrites(s: State, s': State, t: nat, a: Action)
    requires StepOf(s, s', t, a) && !a.Enter?
    requires t < |s.stacks| == |s.epochs| && s.stacks[t] != []
    requires !Top(s.stacks[t]).Idle? && Top(s.stacks[t]).v < |s.guards| == |s.completions|
    ensures |s'.epochs| == |s.epochs| && s'.epochs == s.epochs[t := s'.epochs[t]]
    ensures var v := Top(s.stacks[t]).v; |s'.guards| == |s.guards| && s'.guards == s.guards[v := s'.guards[v]]
    ensures |s'.completions| == |s.completions|
  {
    hide WellFormed, WithTop;
  }

  /** What every step has in common. */
  lemma StepShape(s: State, s': State, t: nat, a: Action)
    requires StepOf(s, s', t, a)
    ensures Subject(s, t, a) < |s.guards|
    ensures var pc := Arrives(s, t, a);
      && s'.stacks == s.stacks[t := if a.Enter? then s.stacks[t] + [pc] else WithTop(s.stacks[t], pc)]
      && (pc.Idle? || pc.v == Subject(s, t, a))
    ensures |s'.epochs| == |s.epochs| && s'.epochs == s.epochs[t := s'.epochs[t]]
    ensures |s'.guards| == |s.guards| && s'.guards == s.guards[Subject(s, t, a) := s'.guards[Subject(s, t, a)]]
    ensures |s'.completions| == |s.completions|
    ensures WellFormed(s')
  {
    hide WellFormedStack, WithTop;
    TopInRange(s, t);
    if !a.Enter? {
      StepOnTop(s, s', t, a);
      StepWrites(s, s', t, a);
      hide Do, Arrives;
    }
    StackStep(s.stacks[t], s'.stacks[t], |s.guards|, Arrives(s, t, a));
  }

  lemma TopInRange(s: State, t: nat)
    requires WellFormed(s) && t < |s.stacks|
    ensures WellFormedStack(s.stacks[t], |s.guards|)
    ensures s.stacks[t] != [] ==> !Top(s.stacks[t]).Idle? && Top(s.stacks[t]).v < |s.guards|
  {
  }

  /** The step changes one frame, and that one as Leaves and Arrives say. */
  lemma StepOnFrames(s: State, s': State, t: nat, a: Action)
    requires StepOf(s, s', t, a)
    ensures SameButOne(s.stacks, s'.stacks, t, Depth(s, t, a))
    ensures FrameAt(s.stacks, t, Depth(s, t, a)) == Leaves(s, t, a)
    ensures FrameAt(s'.stacks, t, Depth(s, t, a)) == Arrives(s, t, a)
    ensures Leaves(s, t, a).Idle? || Leaves(s, t, a).v == Subject(s, t, a)
  {
    StepShape(s, s', t, a);
    hide Do, Arrives, WellFormed;
  }

  /** The lock changes hands only with the thread that takes the step. */
  lemma StepOnLock(s: State, s': State, t: nat, a: Action)
    requires StepOf(s, s', t, a) && t < |s.stacks|
    requires HoldsLock(Top(s.stacks[t])) <==> s.lock == t
    ensures s'.lock == s.lock || (s.lock == FREE && s'.lock == t) || (s.lock == t && s'.lock == FREE)
    ensures HoldsLock(Arrives(s, t, a)) <==> s'.lock == t
  {
    hide WellFormedStack, WithTop;
  }

  lemma TopAfter(stack: Stack, pc: Pc, variables: nat)
    requires WellFormedStack(stack, variables) && stack != []
    ensures HoldsLock(Top(WithTop(stack, pc))) <==> HoldsLock(pc)
    ensures Top(WithTop(stack, pc)).FooterStore? <==> pc.FooterStore?
  {
  }

  lemma StepKeepsLockInv(s: State, s': State, t: nat, a: Action)
    requires WellFormed(s) && LockInv(s) && StepOf(s, s', t, a)
    ensures LockInv(s')
  {
    StepShape(s, s', t, a);
    StepOnLock(s, s', t, a);
    hide Do, Arrives, WithTop;
    TopInRange(s, t);
    if !a.Enter? {
      TopAfter(s.stacks[t], Arrives(s, t, a), |s.guards|);
    }
    assert HoldsLock(Top(s'.stacks[t])) <==> s'.lock == t;
  }

  /** The guard stays, and so does the claim on it. */
  predicate GuardKept(pc: Pc, pc': Pc, v: Variable, g: int, g': int) {
    g' == g && (Owns(pc', v) <==> Owns(pc, v)) && (Relies(pc', v) ==> Complete(g))
  }

  predicate GuardClaimed(pc: Pc, pc': Pc, v: Variable, g: int, g': int) {
    g == UNINITIALIZED && g' == BEING_INITIALIZED && Owns(pc', v) && !Relies(pc', v)
  }

  predicate GuardReleased(pc: Pc, pc': Pc, v: Variable, g: int, g': int) {
    Owns(pc, v) && !Owns(pc', v) && g' != BEING_INITIALIZED && (Relies(pc', v) ==> Complete(g'))
  }

  /** The step on the guard of the subject, in terms of ownership. */
  predicate GuardStep(pc: Pc, pc': Pc, v: Variable, g: int, g': int) {
    GuardKept(pc, pc', v, g, g') || GuardClaimed(pc, pc', v, g, g') || GuardReleased(pc, pc', v, g, g')
  }

  lemma StepOnGuard(s: State, s': State, t: nat, a: Action)
    requires StepOf(s, s', t, a) && |s.guards| == |s'.guards| && t < |s.epochs| && Subject(s, t, a) < |s.guards|
    requires s.globalEpoch < BEING_INITIALIZED && s.epochs[t] <= s.globalEpoch
    requires Owns(Leaves(s, t, a), Subject(s, t, a)) ==> s.guards[Subject(s, t, a)] == BEING_INITIALIZED
    requires Relies(Leaves(s, t, a), Subject(s, t, a)) ==> Complete(s.guards[Subject(s, t, a)])
    ensures var v := Subject(s, t, a); GuardStep(Leaves(s, t, a), Arrives(s, t, a), v, s.guards[v], s'.guards[v])
  {
    hide WellFormedStack, WithTop;
  }

  lemma OwnerInvAfter(stacks: seq<Stack>, stacks': seq<Stack>, guards: seq<int>, guards': seq<int>, t: nat, k: nat, v: Variable)
    requires OwnerInv(stacks, guards)
    requires SameButOne(stacks, stacks', t, k)
    requires v < |guards| == |guards'| && guards' == guards[v := guards'[v]]
    requires var pc, pc' := FrameAt(stacks, t, k), FrameAt(stacks', t, k);
      && (pc.Idle? || pc.v == v) && (pc'.Idle? || pc'.v == v)
      && GuardStep(pc, pc', v, guards[v], guards'[v])
    ensures OwnerInv(stacks', guards')
  {
    hide FrameAt;
    forall w | 0 <= w < |guards'| && guards'[w] == BEING_INITIALIZED
      ensures exists u: nat, j: nat :: Owns(FrameAt(stacks', u, j), w)
    {
      if guards[w] == BEING_INITIALIZED {
        var u: nat, j: nat :| Owns(FrameAt(stacks, u, j), w);
        assert Owns(FrameAt(stacks', u, j), w);
      } else {
        assert Owns(FrameAt(stacks', t, k), w);
      }
    }
  }

  /** A frame that is named in the invariant on owners. */
  lemma TopOwner(s: State, t: nat)
    requires Inv(s) && t < |s.stacks| && s.stacks[t] != []
    ensures var pc := Top(s.stacks[t]);
      && !pc.Idle? && pc.v < |s.guards|
      && (Owns(pc, pc.v) ==> s.guards[pc.v] == BEING_INITIALIZED && s.completions[pc.v] == 0)
      && (Relies(pc, pc.v) ==> Complete(s.guards[pc.v]) && s.completions[pc.v] == 1)
  {
    TopInRange(s, t);
    var pc := Top(s.stacks[t]);
    assert FrameAt(s.stacks, t, |s.stacks[t]| - 1) == pc;
  }

  lemma BumpKeepsEpochInv(s: State, s': State, t: nat, a: Action)
    requires Inv(s) && StepOf(s, s', t, a) && Leaves(s, t, a).FooterBump?
    requires |s.guards| < LIMIT
    ensures EpochInv(s')
  {
    TopOwner(s, t);
    SumOfBits(s.completions);
    TopAfter(s.stacks[t], Arrives(s, t, a), |s.guards|);
    assert s.lock == t && StorePending(s') && !StorePending(s);
  }

  lemma StoreKeepsEpochInv(s: State, s': State, t: nat, a: Action)
    requires Inv(s) && StepOf(s, s', t, a) && Leaves(s, t, a).FooterStore?
    ensures EpochInv(s')
  {
    hide WellFormedStack, WithTop, Sum;
    var v := Top(s.stacks[t]).v;
    TopOwner(s, t);
    SumUpdated(s.completions, v, 1);
    TopAfter(s.stacks[t], Arrives(s, t, a), |s.guards|);
    assert s.lock == t && StorePending(s) && !StorePending(s');
  }

  lemma GuardInvAfter(guards: seq<int>, guards': seq<int>, completions: seq<nat>, globalEpoch: int, pending: bool, v: Variable)
    requires GuardInv(guards, completions, globalEpoch, pending)
    requires v < |guards| == |guards'| && guards' == guards[v := guards'[v]]
    requires guards'[v] == guards[v] || (!Complete(guards[v]) && !Complete(guards'[v]))
    ensures GuardInv(guards', completions, globalEpoch, pending)
  {
  }

  /** Every step but the two writes of the footer leaves the epoch and the completed guards alone. */
  lemma OtherStepEffect(s: State, s': State, t: nat, a: Action)
    requires StepOf(s, s', t, a) && !Leaves(s, t, a).FooterBump? && !Leaves(s, t, a).FooterStore?
    requires Subject(s, t, a) < |s.guards| == |s'.guards| && t < |s.epochs| == |s'.epochs|
    requires Owns(Leaves(s, t, a), Subject(s, t, a)) ==> s.guards[Subject(s, t, a)] == BEING_INITIALIZED
    ensures s'.globalEpoch == s.globalEpoch && s'.bumps == s.bumps && s'.completions == s.completions
    ensures s'.epochs[t] == s.epochs[t] || s'.epochs[t] == s.globalEpoch
    ensures var v := Subject(s, t, a);
      s'.guards[v] == s.guards[v] || (!Complete(s.guards[v]) && !Complete(s'.guards[v]))
    ensures !Arrives(s, t, a).FooterStore?
  {
    hide WellFormedStack, WithTop;
  }

  lemma OtherStepPending(s: State, s': State, t: nat, a: Action)
    requires WellFormed(s) && LockInv(s) && LockInv(s') && StepOf(s, s', t, a)
    requires !Leaves(s, t, a).FooterStore? && !Arrives(s, t, a).FooterStore?
    ensures StorePending(s') <==> StorePending(s)
  {
    StepShape(s, s', t, a);
    StepOnLock(s, s', t, a);
    hide Do, WithTop, Arrives;
    TopInRange(s, t);
    if !a.Enter? {
      TopAfter(s.stacks[t], Arrives(s, t, a), |s.guards|);
    }
    assert !Top(s'.stacks[t]).FooterStore?;
  }

  lemma StepKeepsEpochInv(s: State, s': State, t: nat, a: Action)
    requires Inv(s) && StepOf(s, s', t, a) && LockInv(s')
    requires |s.guards| < LIMIT
    ensures EpochInv(s')
  {
    if Leaves(s, t, a).FooterBump? {
      BumpKeepsEpochInv(s, s', t, a);
    } else if Leaves(s, t, a).FooterStore? {
      StoreKeepsEpochInv(s, s', t, a);
    } else {
      StepShape(s, s', t, a);
      if !a.Enter? {
        TopOwner(s, t);
      }
      OtherStepEffect(s, s', t, a);
      OtherStepPending(s, s', t, a);
      GuardInvAfter(s.guards, s'.guards, s.completions, s.globalEpoch, StorePending(s), Subject(s, t, a));
      hide Do, StorePending, GuardInv, LockInv, OwnerInv, WellFormed;
    }
  }

  /** The epoch of a thread never decreases, and it covers what the thread has learned by the step. */
  lemma StepOnEpoch(s: State, s': State, t: nat, a: Action)
    requires StepOf(s, s', t, a) && t < |s.epochs| == |s'.epochs| && Subject(s, t, a) < |s.guards| == |s'.guards|
    requires s.globalEpoch < BEING_INITIALIZED && s.epochs[t] <= s.globalEpoch
    requires var v := Subject(s, t, a);
      && (Complete(s.guards[v]) ==> s.guards[v] <= s.globalEpoch)
      && (Owns(Leaves(s, t, a), v) ==> s.guards[v] == BEING_INITIALIZED)
      && (Relies(Leaves(s, t, a), v) ==> Complete(s.guards[v]))
      && (Learned(Leaves(s, t, a), v) ==> s.guards[v] <= s.epochs[t])
    ensures s'.epochs[t] >= s.epochs[t]
    ensures var v := Subject(s, t, a); Learned(Arrives(s, t, a), v) ==> s'.guards[v] <= s'.epochs[t]
  {
    hide WellFormedStack, WithTop;
  }

  lemma CoverInvAfter(stacks: seq<Stack>, stacks': seq<Stack>, guards: seq<int>, guards': seq<int>,
                      epochs: seq<int>, epochs': seq<int>, t: nat, k: nat, v: Variable)
    requires CoverInv(stacks, guards, epochs) && OwnerInv(stacks, guards) && SameButOne(stacks, stacks', t, k)
    requires v < |guards| == |guards'| && guards' == guards[v := guards'[v]]
    requires guards'[v] == guards[v] || !Complete(guards[v])
    requires t < |epochs| == |epochs'| && epochs' == epochs[t := epochs'[t]] && epochs'[t] >= epochs[t]
    requires var pc' := FrameAt(stacks', t, k); pc'.Idle? || pc'.v == v
    requires Learned(FrameAt(stacks', t, k), v) ==> guards'[v] <= epochs'[t]
    ensures CoverInv(stacks', guards', epochs')
  {
    hide FrameAt;
    forall u: nat, j: nat, w: Variable | u < |epochs'| && w < |guards'| && Learned(FrameAt(stacks', u, j), w)
      ensures guards'[w] <= epochs'[u]
    {
      if u != t || j != k {
        assert FrameAt(stacks', u, j) == FrameAt(stacks, u, j);
        assert Relies(FrameAt(stacks, u, j), w);
      }
    }
  }

  /** Guards are written under the lock only, and the abort function writes UNINITIALIZED. */
  lemma StepOnGuards(s: State, s': State, t: nat, a: Action)
    requires StepOf(s, s', t, a) && t < |s.stacks|
    requires Subject(s, t, a) < |s.guards| == |s'.guards|
    ensures !HoldsLock(Top(s.stacks[t])) ==> s'.guards == s.guards
    ensures Arrives(s, t, a).AbortUnlock? ==> s'.guards[Subject(s, t, a)] == UNINITIALIZED
  {
    hide WellFormedStack, WithTop;
  }

  lemma StepKeepsAbortInv(s: State, s': State, t: nat, a: Action)
    requires WellFormed(s) && LockInv(s) && AbortInv(s.stacks, s.guards) && StepOf(s, s', t, a)
    ensures AbortInv(s'.stacks, s'.guards)
  {
    StepShape(s, s', t, a);
    StepOnFrames(s, s', t, a);
    StepOnGuards(s, s', t, a);
    hide Do, Arrives, WithTop;
    forall u: nat, j: nat | FrameAt(s'.stacks, u, j).AbortUnlock? && FrameAt(s'.stacks, u, j).v < |s'.guards|
      ensures s'.guards[FrameAt(s'.stacks, u, j).v] == UNINITIALIZED
    {
      if u != t || j != Depth(s, t, a) {
        assert FrameAt(s'.stacks, u, j) == FrameAt(s.stacks, u, j);
        AbortIsTop(s, u, j);
      }
    }
  }

  /** A frame in the abort function is the innermost one, and its thread holds the lock. */
  lemma AbortIsTop(s: State, t: nat, k: nat)
    requires WellFormed(s) && LockInv(s) && FrameAt(s.stacks, t, k).AbortUnlock?
    ensures t < |s.stacks| && k == |s.stacks[t]| - 1 && Top(s.stacks[t]).AbortUnlock? && s.lock == t
  {
    assert WellFormedStack(s.stacks[t], |s.guards|);
  }

  lemma TopLearned(s: State, t: nat)
    requires Inv(s) && t < |s.stacks| && s.stacks[t] != []
    ensures var pc := Top(s.stacks[t]);
      && !pc.Idle? && pc.v < |s.guards| && t < |s.epochs| && s.epochs[t] <= s.globalEpoch < BEING_INITIALIZED
      && (Complete(s.guards[pc.v]) ==> s.guards[pc.v] <= s.globalEpoch)
      && (Learned(pc, pc.v) ==> s.guards[pc.v] <= s.epochs[t])
  {
    TopInRange(s, t);
    var pc := Top(s.stacks[t]);
    assert FrameAt(s.stacks, t, |s.stacks[t]| - 1) == pc;
  }

  lemma StepKeepsCoverInv(s: State, s': State, t: nat, a: Action)
    requires Inv(s) && StepOf(s, s', t, a)
    ensures CoverInv(s'.stacks, s'.guards, s'.epochs)
    ensures t < |s.epochs| == |s'.epochs| && s'.epochs == s.epochs[t := s'.epochs[t]] && s'.epochs[t] >= s.epochs[t]
  {
    StepShape(s, s', t, a);
    if !a.Enter? {
      TopOwner(s, t);
      TopLearned(s, t);
    }
    StepOnEpoch(s, s', t, a);
    StepOnGuard(s, s', t, a);
    StepOnFrames(s, s', t, a);
    hide Do, Arrives, LockInv, EpochInv, AbortInv, WellFormed, OwnerInv, SameButOne, CoverInv;
    CoverInvAfter(s.stacks, s'.stacks, s.guards, s'.guards, s.epochs, s'.epochs, t, Depth(s, t, a), Subject(s, t, a));
  }

  lemma StepKeepsInv(s: State, s': State)
    requires Inv(s) && Next(s, s') && |s.guards| < LIMIT
    ensures Inv(s') && |s'.guards| == |s.guards|
  {
    var t: nat, a: Action :| StepOf(s, s', t, a);
    StepShape(s, s', t, a);
    StepKeepsLockInv(s, s', t, a);
    if !a.Enter? {
      TopOwner(s, t);
    }
    StepOnGuard(s, s', t, a);
    StepOnFrames(s, s', t, a);
    StepKeepsEpochInv(s, s', t, a);
    StepKeepsCoverInv(s, s', t, a);
    StepKeepsAbortInv(s, s', t, a);
    hide Do, LockInv, EpochInv, WellFormed, OwnerInv, SameButOne, CoverInv, AbortInv;
    OwnerInvAfter(s.stacks, s'.stacks, s.guards, s'.guards, t, Depth(s, t, a), Subject(s, t, a));
  }

  lemma {:induction false} RunKeepsInv(run: seq<State>, threads: nat, variables: nat, i: nat)
    requires IsRun(run, threads, variables) && i < |run| && variables < LIMIT
    ensures Inv(run[i]) && |run[i].guards| == variables
  {
    if i == 0 {
      InitEstablishesInv(run[0], threads, variables);
    } else {
      RunKeepsInv(run, threads, variables, i - 1);
      var k := i - 1;
      assert Next(run[k], run[k + 1]);
      StepKeepsInv(run[i - 1], run[i]);
    }
  }

  // ----- safety over whole runs

  /** What the runtime promises of one state, whatever initialisers enter. */
  ghost predicate Safe(s: State) {
    && WellFormed(s)
    // one frame of one thread at a time runs the initialiser of a variable
    && (forall t: nat, k: nat, u: nat, j: nat ::
          FrameAt(s.stacks, t, k).Initialising? && FrameAt(s.stacks, u, j) == FrameAt(s.stacks, t, k) ==> t == u && k == j)
    // an initialiser does not run again after it completed
    && (forall t: nat, k: nat :: FrameAt(s.stacks, t, k).Initialising? ==> IsCompleted(s, FrameAt(s.stacks, t, k).v, 0))
    // a variable is used, and the header is left without the claim, only after its footer ran
    && (forall t: nat, k: nat :: MeansComplete(FrameAt(s.stacks, t, k)) ==> IsCompleted(s, FrameAt(s.stacks, t, k).v, 1))
    // each footer runs at most once, and afterwards the guard says so
    && (forall v :: 0 <= v < |s.guards| ==> s.completions[v] <= 1)
    && (forall v :: 0 <= v < |s.guards| && s.completions[v] == 1 ==> Complete(s.guards[v]))
    // the comparison the compiler makes without the lock is sound
    && (forall t, v :: 0 <= t < |s.epochs| && 0 <= v < |s.guards| && s.guards[v] <= s.epochs[t] ==> s.completions[v] == 1)
    // and a thread that was told once need not ask again
    && CoverInv(s.stacks, s.guards, s.epochs)
    // an initialiser that threw has left its variable to others
    && (forall t: nat, k: nat :: FrameAt(s.stacks, t, k).AbortUnlock? ==> IsCompleted(s, FrameAt(s.stacks, t, k).v, 0))
    && AbortInv(s.stacks, s.guards)
  }

  predicate MeansComplete(pc: Pc) {
    pc.Using? || (pc.Returned? && !pc.claimed)
  }

  /** The footer of the variable has stored the guard so many times. */
  predicate IsCompleted(s: State, v: Variable, times: nat) {
    v < |s.completions| && s.completions[v] == times
  }

  lemma FrameInRange(s: State, t: nat, k: nat)
    requires WellFormed(s)
    ensures FrameAt(s.stacks, t, k).Idle? || FrameAt(s.stacks, t, k).v < |s.guards|
  {
    if t < |s.stacks| {
      assert WellFormedStack(s.stacks[t], |s.guards|);
    }
  }

  lemma InvImpliesSafe(s: State)
    requires Inv(s)
    ensures Safe(s)
  {
    forall t: nat, k: nat, u: nat, j: nat |
      FrameAt(s.stacks, t, k).Initialising? && FrameAt(s.stacks, u, j) == FrameAt(s.stacks, t, k)
      ensures t == u && k == j
    {
      var v := FrameAt(s.stacks, t, k).v;
      assert Owns(FrameAt(s.stacks, t, k), v) && Owns(FrameAt(s.stacks, u, j), v);
    }
    forall t: nat, k: nat | FrameAt(s.stacks, t, k).Initialising?
      ensures IsCompleted(s, FrameAt(s.stacks, t, k).v, 0)
    {
      FrameInRange(s, t, k);
      assert Owns(FrameAt(s.stacks, t, k), FrameAt(s.stacks, t, k).v);
    }
    forall t: nat, k: nat | MeansComplete(FrameAt(s.stacks, t, k))
      ensures IsCompleted(s, FrameAt(s.stacks, t, k).v, 1)
    {
      FrameInRange(s, t, k);
      assert Relies(FrameAt(s.stacks, t, k), FrameAt(s.stacks, t, k).v);
    }
    forall t: nat, k: nat | FrameAt(s.stacks, t, k).AbortUnlock?
      ensures IsCompleted(s, FrameAt(s.stacks, t, k).v, 0)
    {
      FrameInRange(s, t, k);
    }
  }

  /** A completed variable keeps its guard for the rest of the run, so it is never initialised again. */
  lemma {:induction false} CompletedStays(run: seq<State>, threads: nat, variables: nat, i: nat, k: nat, v: Variable)
    requires IsRun(run, threads, variables) && variables < LIMIT && i <= k < |run| && v < variables
    requires v < |run[i].completions| && run[i].completions[v] == 1
    ensures |run[i].guards| == |run[k].guards| == |run[k].completions| == variables
    ensures run[k].completions[v] == 1 && run[k].guards[v] == run[i].guards[v]
  {
    hide Init, Next, LockInv, OwnerInv, EpochInv, WellFormedStack;
    RunKeepsInv(run, threads, variables, k);
    if i < k {
      CompletedStays(run, threads, variables, i, k - 1, v);
      RunKeepsInv(run, threads, variables, k - 1);
      RunStep(run, threads, variables, k);
      StepKeepsCompleted(run[k - 1], run[k], v);
    }
  }

  lemma RunStep(run: seq<State>, threads: nat, variables: nat, k: nat)
    requires IsRun(run, threads, variables) && 0 < k < |run|
    ensures Next(run[k - 1], run[k])
  {
    var j := k - 1;
    assert Next(run[j], run[j + 1]);
  }

  lemma StepKeepsCompleted(s: State, s': State, v: Variable)
    requires Inv(s) && Next(s, s') && v < |s.guards| && s.completions[v] == 1
    ensures |s'.guards| == |s'.completions| == |s.guards|
    ensures s'.completions[v] == 1 && s'.guards[v] == s.guards[v]
  {
    hide WithTop, WellFormedStack, Sum;
    var t: nat, a: Action :| StepOf(s, s', t, a);
    StepShape(s, s', t, a);
    assert Complete(s.guards[v]);
    if !a.Enter? {
      TopOwner(s, t);
    }
  }

  lemma CompletingStoresLargest(s: State, s': State, v: Variable, w: Variable)
    requires Inv(s) && Next(s, s') && v < |s.guards| && w < |s.guards| == |s'.guards| == |s'.completions|
    requires s.completions[v] == 1 && s.completions[w] == 0 && s'.completions[w] == 1
    ensures s'.guards[w] > s.guards[v]
  {
    var t: nat, a: Action :| StepOf(s, s', t, a);
    assert Leaves(s, t, a) == FooterStore(w);
    assert StorePending(s);
  }

  /** Footers write strictly increasing guards: whoever completes later gets the larger value. */
  lemma {:induction false} LaterCompletionIsLarger(run: seq<State>, threads: nat, variables: nat, i: nat, k: nat, v: Variable, w: Variable)
    requires IsRun(run, threads, variables) && variables < LIMIT && i <= k < |run| && v < variables && w < variables
    requires v < |run[i].completions| && w < |run[i].completions| && w < |run[k].completions|
    requires run[i].completions[v] == 1 && run[i].completions[w] == 0 && run[k].completions[w] == 1
    ensures |run[k].guards| == variables && run[k].guards[w] > run[k].guards[v]
  {
    RunKeepsInv(run, threads, variables, k - 1);
    RunKeepsInv(run, threads, variables, k);
    CompletedStays(run, threads, variables, i, k - 1, v);
    RunStep(run, threads, variables, k);
    StepKeepsCompleted(run[k - 1], run[k], v);
    if run[k - 1].completions[w] == 1 {
      LaterCompletionIsLarger(run, threads, variables, i, k - 1, v, w);
      StepKeepsCompleted(run[k - 1], run[k], w);
    } else {
      CompletingStoresLargest(run[k - 1], run[k], v, w);
    }
  }

  // ----- runs step by step

  lemma Extend(run: seq<State>, threads: nat, variables: nat, enters: Entries, t: nat, a: Action) returns (longer: seq<State>)
    requires |run| > 0 && IsRunAlong(run, threads, variables, enters)
    requires WellFormed(run[|run| - 1]) && Enabled(run[|run| - 1], t, a) && EntersAlong(run[|run| - 1], t, a, enters)
    ensures IsRunAlong(longer, threads, variables, enters)
    ensures |longer| == |run| + 1 && longer[|run|] == Do(run[|run| - 1], t, a)
    ensures WellFormed(longer[|run|])
  {
    hide Init;
    var last := run[|run| - 1];
    longer := run + [Do(last, t, a)];
    assert StepOf(last, longer[|run|], t, a);
    StepShape(last, longer[|run|], t, a);
    hide Do, WellFormed, Enabled;
    forall i {:trigger longer[i + 1]} | 0 <= i < |longer| - 1
      ensures NextAlong(longer[i], longer[i + 1], enters)
    {
      if i < |run| - 1 {
        assert NextAlong(run[i], run[i + 1], enters);
      }
    }
  }

  /** The state with another stack for thread t. */
  function On(s: State, t: nat, stack: Stack): State
    requires t < |s.stacks|
  {
    s.(stacks := s.stacks[t := stack])
  }

  /** Moving the frame on top of a stack on. */
  lemma MoveOn(s: State, t: nat, stack: Stack, pc: Pc, pc': Pc)
    requires t < |s.stacks| && s.stacks[t] == stack + [pc] && !pc'.Idle?
    ensures s.stacks[t] != [] && At(s, t, pc') == On(s, t, stack + [pc']) && Top(s.stacks[t]) == pc
  {
    assert (stack + [pc])[|stack| := pc'] == stack + [pc'];
  }

  lemma MoveOnly(s: State, pc: Pc, pc': Pc)
    requires |s.stacks| > 0 && s.stacks[0] == [pc] && !pc'.Idle?
    ensures At(s, 0, pc') == On(s, 0, [pc']) && Top(s.stacks[0]) == pc
  {
    assert [pc][0 := pc'] == [pc'];
  }

  /** Thread t enters a declaration of a variable that it does not know to be complete, up to the header. */
  lemma ToHeader(run: seq<State>, threads: nat, variables: nat, enters: Entries, t: nat, v: Variable, s: State) returns (longer: seq<State>)
    requires |run| > 0 && IsRunAlong(run, threads, variables, enters) && s == run[|run| - 1] && WellFormed(s)
    requires t < |s.stacks| && v < |s.guards| && MayEnter(Top(s.stacks[t])) && s.lock == FREE && s.guards[v] > s.epochs[t]
    requires EntersAlong(s, t, Enter(v), enters)
    ensures |longer| > 0 && IsRunAlong(longer, threads, variables, enters) && WellFormed(longer[|longer| - 1])
    ensures longer[|longer| - 1] == On(s, t, s.stacks[t] + [Header(v)]).(lock := t)
  {
    hide IsRunAlong, Innermost, WellFormedStack;
    var stack := s.stacks[t];
    longer := Extend(run, threads, variables, enters, t, Enter(v));
    var now := longer[|longer| - 1];
    assert now == On(s, t, stack + [Check(v)]);
    MoveOn(now, t, stack, Check(v), HeaderLock(v));
    longer := Extend(longer, threads, variables, enters, t, Proceed);
    now := longer[|longer| - 1];
    assert now == On(s, t, stack + [HeaderLock(v)]);
    MoveOn(now, t, stack, HeaderLock(v), Header(v));
    longer := Extend(longer, threads, variables, enters, t, Proceed);
    assert longer[|longer| - 1] == On(s, t, stack + [Header(v)]).(lock := t);
  }

  /** And claims a variable that is uninitialised. */
  lemma Claim(run: seq<State>, threads: nat, variables: nat, enters: Entries, t: nat, v: Variable, s: State) returns (longer: seq<State>)
    requires |run| > 0 && IsRunAlong(run, threads, variables, enters) && s == run[|run| - 1] && WellFormed(s)
    requires t < |s.stacks| && v < |s.guards| && MayEnter(Top(s.stacks[t])) && s.lock == FREE
    requires EntersAlong(s, t, Enter(v), enters)
    requires s.epochs[t] < s.guards[v] == UNINITIALIZED
    ensures |longer| > 0 && IsRunAlong(longer, threads, variables, enters) && WellFormed(longer[|longer| - 1])
    ensures longer[|longer| - 1] == On(s, t, s.stacks[t] + [Initialising(v)]).(guards := s.guards[v := BEING_INITIALIZED])
  {
    hide IsRunAlong, Innermost, WellFormedStack;
    var stack, claimed := s.stacks[t], s.guards[v := BEING_INITIALIZED];
    longer := ToHeader(run, threads, variables, enters, t, v, s);
    var now := longer[|longer| - 1];
    MoveOn(now, t, stack, Header(v), HeaderUnlock(v, true));
    longer := Extend(longer, threads, variables, enters, t, Proceed);
    now := longer[|longer| - 1];
    assert now == On(s, t, stack + [HeaderUnlock(v, true)]).(lock := t, guards := claimed);
    MoveOn(now, t, stack, HeaderUnlock(v, true), Returned(v, true));
    longer := Extend(longer, threads, variables, enters, t, Proceed);
    now := longer[|longer| - 1];
    assert now == On(s, t, stack + [Returned(v, true)]).(guards := claimed);
    MoveOn(now, t, stack, Returned(v, true), Initialising(v));
    longer := Extend(longer, threads, variables, enters, t, Proceed);
    assert longer[|longer| - 1] == On(s, t, stack + [Initialising(v)]).(guards := claimed);
  }

  /** Or waits for a variable that is being initialised. */
  lemma Wait(run: seq<State>, threads: nat, variables: nat, enters: Entries, t: nat, v: Variable, s: State) returns (longer: seq<State>)
    requires |run| > 0 && IsRunAlong(run, threads, variables, enters) && s == run[|run| - 1] && WellFormed(s)
    requires t < |s.stacks| && v < |s.guards| && MayEnter(Top(s.stacks[t])) && s.lock == FREE
    requires EntersAlong(s, t, Enter(v), enters)
    requires s.epochs[t] < s.guards[v] == BEING_INITIALIZED
    ensures |longer| > 0 && IsRunAlong(longer, threads, variables, enters) && WellFormed(longer[|longer| - 1])
    ensures longer[|longer| - 1] == On(s, t, s.stacks[t] + [Sleeping(v)])
  {
    hide IsRunAlong, Innermost, WellFormedStack;
    longer := ToHeader(run, threads, variables, enters, t, v, s);
    var now := longer[|longer| - 1];
    MoveOn(now, t, s.stacks[t], Header(v), Sleeping(v));
    longer := Extend(longer, threads, variables, enters, t, Proceed);
    assert longer[|longer| - 1] == On(s, t, s.stacks[t] + [Sleeping(v)]);
  }

  function InitialState(threads: nat, variables: nat): State {
    State(seq(variables, _ => UNINITIALIZED), EPOCH_START, FREE, seq(threads, _ => []),
          seq(threads, _ => EPOCH_START), seq(variables, _ => 0), 0)
  }

  lemma InitialRun(threads: nat, variables: nat, enters: Entries)
    ensures IsRunAlong([InitialState(threads, variables)], threads, variables, enters) && WellFormed(InitialState(threads, variables))
  {
  }

  // ----- the limit is exact

  ghost predicate AllRunsSafe(threads: nat, variables: nat) {
    forall run: seq<State> :: IsRun(run, threads, variables) ==> forall i :: 0 <= i < |run| ==> Safe(run[i])
  }

  /** Thread 0 at rest after it alone initialised the variables below count. */
  ghost predicate Rested(s: State, variables: nat, count: nat) {
    && WellFormed(s) && |s.guards| == variables && count <= variables && |s.stacks| > 0
    && s.stacks[0] == [] && s.lock == FREE && count <= LIMIT
    && s.globalEpoch == EPOCH_START + count && s.epochs[0] <= s.globalEpoch
    && (forall v :: 0 <= v < count ==> s.completions[v] == 1 && s.guards[v] == EPOCH_START + v + 1)
    && (forall v :: count <= v < variables ==> s.completions[v] == 0 && s.guards[v] == UNINITIALIZED)
  }

  /** The state in which the footer has stored the guard of variable v. */
  function Stored(s: State, v: Variable): State
    requires |s.stacks| > 0 && v < |s.guards| && v < |s.completions|
  {
    On(s, 0, [FooterEpoch(v)]).(
      guards := s.guards[v := s.globalEpoch + 1], completions := s.completions[v := 1],
      globalEpoch := s.globalEpoch + 1, bumps := s.bumps + 1, lock := 0)
  }

  /** Thread 0 leaves the initialiser and takes the lock for the footer. */
  lemma RoundToFooter(run: seq<State>, threads: nat, variables: nat, enters: Entries, v: Variable, s: State) returns (longer: seq<State>)
    requires |run| > 0 && IsRunAlong(run, threads, variables, enters) && |s.stacks| > 0 && v < |s.guards| && s.lock == FREE
    requires run[|run| - 1] == On(s, 0, [Initialising(v)]) && WellFormed(run[|run| - 1])
    ensures |longer| > 0 && IsRunAlong(longer, threads, variables, enters) && WellFormed(longer[|longer| - 1])
    ensures longer[|longer| - 1] == On(s, 0, [FooterBump(v)]).(lock := 0)
  {
    hide IsRunAlong, Innermost, WellFormedStack, At;
    MoveOnly(run[|run| - 1], Initialising(v), FooterLock(v));
    longer := Extend(run, threads, variables, enters, 0, Proceed);
    assert longer[|longer| - 1] == On(s, 0, [FooterLock(v)]);
    MoveOnly(longer[|longer| - 1], FooterLock(v), FooterBump(v));
    longer := Extend(longer, threads, variables, enters, 0, Proceed);
    assert longer[|longer| - 1] == On(s, 0, [FooterBump(v)]).(lock := 0);
  }

  /** It completes the initialisation. */
  lemma RoundToStore(run: seq<State>, threads: nat, variables: nat, enters: Entries, v: Variable, s: State) returns (longer: seq<State>)
    requires |run| > 0 && IsRunAlong(run, threads, variables, enters) && v < variables && v < LIMIT && Rested(s, variables, v)
    requires run[|run| - 1] == On(s, 0, [Initialising(v)]).(guards := s.guards[v := BEING_INITIALIZED])
    requires WellFormed(run[|run| - 1])
    ensures |longer| > 0 && IsRunAlong(longer, threads, variables, enters) && WellFormed(longer[|longer| - 1])
    ensures longer[|longer| - 1] == Stored(s, v)
  {
    hide IsRunAlong, Innermost, WellFormedStack, At;
    var next, claimed := s.globalEpoch + 1, s.guards[v := BEING_INITIALIZED];
    longer := RoundToFooter(run, threads, variables, enters, v, s.(guards := claimed));
    MoveOnly(longer[|longer| - 1], FooterBump(v), FooterStore(v));
    longer := Extend(longer, threads, variables, enters, 0, Proceed);
    assert longer[|longer| - 1] == On(s, 0, [FooterStore(v)]).(guards := claimed, lock := 0, globalEpoch := next, bumps := s.bumps + 1);
    MoveOnly(longer[|longer| - 1], FooterStore(v), FooterEpoch(v));
    longer := Extend(longer, threads, variables, enters, 0, Proceed);
    assert longer[|longer| - 1] == Stored(s, v);
  }

  /** And leaves. */
  lemma RoundFromStore(run: seq<State>, threads: nat, variables: nat, enters: Entries, v: Variable, s: State) returns (longer: seq<State>)
    requires |run| > 0 && IsRunAlong(run, threads, variables, enters) && v < variables && v < LIMIT && Rested(s, variables, v)
    requires run[|run| - 1] == Stored(s, v) && WellFormed(run[|run| - 1])
    ensures |longer| > 0 && IsRunAlong(longer, threads, variables, enters) && Rested(longer[|longer| - 1], variables, v + 1)
  {
    hide IsRunAlong, Innermost, WellFormedStack;
    var stored, epochs := run[|run| - 1], s.epochs[0 := s.globalEpoch + 1];
    MoveOnly(stored, FooterEpoch(v), FooterUnlock(v));
    longer := Extend(run, threads, variables, enters, 0, Proceed);
    assert longer[|longer| - 1] == On(stored, 0, [FooterUnlock(v)]).(epochs := epochs);
    MoveOnly(longer[|longer| - 1], FooterUnlock(v), Using(v));
    longer := Extend(longer, threads, variables, enters, 0, Proceed);
    assert longer[|longer| - 1] == On(stored, 0, [Using(v)]).(epochs := epochs, lock := FREE);
    longer := Extend(longer, threads, variables, enters, 0, Proceed);
    assert longer[|longer| - 1] == On(stored, 0, []).(epochs := epochs, lock := FREE);
  }

  /** One thread initialising variable after variable. */
  lemma {:induction false} SequentialRun(threads: nat, variables: nat, enters: Entries, count: nat) returns (run: seq<State>)
    requires threads >= 1 && count <= variables && count <= LIMIT
    ensures |run| > 0 && IsRunAlong(run, threads, variables, enters) && Rested(run[|run| - 1], variables, count)
  {
    hide IsRunAlong;
    if count == 0 {
      InitialRun(threads, variables, enters);
      run := [InitialState(threads, variables)];
    } else {
      var before := SequentialRun(threads, variables, enters, count - 1);
      var s := before[|before| - 1];
      run := Claim(before, threads, variables, enters, 0, count - 1, s);
      assert s.stacks[0] + [Initialising(count - 1)] == [Initialising(count - 1)];
      run := RoundToStore(run, threads, variables, enters, count - 1, s);
      run := RoundFromStore(run, threads, variables, enters, count - 1, s);
    }
  }

  /** The protocol is safe for every run exactly when there are fewer than 2^31 - 1 guarded variables. */
  lemma SafeIffBelowLimit(threads: nat, variables: nat)
    requires threads >= 1
    ensures AllRunsSafe(threads, variables) <==> variables < LIMIT
  {
    if variables < LIMIT {
      forall run: seq<State>, i | IsRun(run, threads, variables) && 0 <= i < |run|
        ensures Safe(run[i])
      {
        RunKeepsInv(run, threads, variables, i);
        InvImpliesSafe(run[i]);
      }
    } else {
      var enters: Entries := (v, w) => false;
      var run := SequentialRun(threads, variables, enters, LIMIT);
      RunAlongIsRun(run, threads, variables, enters);
      var s := run[|run| - 1];
      assert s.completions[LIMIT - 1] == 1 && s.guards[LIMIT - 1] == BEING_INITIALIZED;
      assert !Safe(s);
    }
  }
}
