/** The descendant monitor thread against the cleanup thread of one supervised process. Both read
    the cgroup controls and the tree root through descriptors the other could be closing. Every
    interleaving is a run of the step relation below; a system call is a step with any outcome the
    kernel can give. */
module Supervision {
  import opened Seqs

  datatype Thread = Monitor | Cleanup

  /** What the tracker walks: the runtime's private scratch root, the request's tree, or nothing. */
  datatype Tree = NoTree | ScratchTree | RequestTree

  /** How far start-up got: whether there is a tracker, whether its thread was made, and whether
      that thread started; and whether the run has a resource guard. */
  datatype Config = Config(tracker: bool, made: bool, started: bool, guarded: bool, tree: Tree)

  /** Evaluator launches have a guard exactly when they have a private scratch root. */
  predicate WellFormed(c: Config) {
    && (c.started ==> c.made)
    && (c.made ==> c.tracker)
    && (c.guarded <==> c.tree == ScratchTree)
  }

  datatype Ownership = Open | Closed | Abandoned

  /** Where a thread is inside one pass of `_check_resources`. `Holding(true)` holds the guard lock
      and has read a live guard reference; `HasFd` has the raw tree descriptor number but has let
      the capability's own lock go. */
  datatype Pc = Out | AtGuard | Holding(borrowed: bool) | AtTree | HasFd

  datatype MonitorState = NotStarted | Running(pc: Pc) | Ended

  datatype Phase =
    | Waiting | Joining | FinalLook | Detaching | LastPass | Killing | Reaping | Emptying | Closing
    | Deciding | Validating | Settling | Dropping | Releasing | Done
  {
    function Rank(): nat {
      match this
      case Waiting => 0 case Joining => 1 case FinalLook => 2 case Detaching => 3 case LastPass => 4
      case Killing => 5 case Reaping => 6 case Emptying => 7 case Closing => 8 case Deciding => 9
      case Validating => 10 case Settling => 11 case Dropping => 12 case Releasing => 13 case Done => 14
    }

    /** The phase after one that ends without a step of its own. */
    function Following(c: Config): Phase {
      match this
      case FinalLook => Detaching
      case LastPass => Killing
      case Killing => Reaping
      case Reaping => if c.guarded then Emptying else Deciding
      case _ => Settling
    }
  }

  /** The kernel's side. `populated` says that the scope still has a live process. */
  datatype World = World(populated: bool, ownerGone: bool, scopeGone: bool, reaped: bool)

  datatype State = State(
    phase: Phase, monitor: MonitorState, cleanup: Pc, lock: Option<Thread>, stop: bool,
    attached: bool, collected: bool, guardEmpty: bool, guard: Ownership, tree: Ownership,
    world: World)

  /** A control read: it worked, it failed and the scope is proved collected, or it failed. */
  datatype Outcome = Fine | Gone | Fails

  /** One step of a pass over the resources, run by either thread. */
  datatype Move =
    | SkipGuard | Acquire | ReadControl(r: Outcome) | Release | FetchFd | UseFd | ReopenTree | EndPass

  datatype LoopStep = PassStarts | StopSeen | MonitorFails

  /** Cleanup's own steps, outside a pass. */
  datatype CleanStep =
    | StopMonitor | Joined | Detach | MoveOn | KillScope | Reap | ReadPopulated(r: Outcome)
    | SeenEmpty | EmptyFails | CloseGuard | Decide | Settle | DropTree | ReleaseRequest

  datatype WorldStep = TargetWrites | ScopeDrains | OwnerExits | ScopeCollected

  datatype Event = Pass(t: Thread, m: Move) | Loop(l: LoopStep) | Clean(k: CleanStep) | Kernel(w: WorldStep)

  function Init(c: Config): State {
    State(Waiting, if c.started then Running(Out) else NotStarted, Out, None, false,
          c.tracker && c.guarded, false, false, if c.guarded then Open else Closed,
          if c.tree == NoTree then Closed else Open,
          World(true, false, false, false))
  }

  // ----- One pass, run by either thread ---------------------------------------------------------

  predicate Alive(s: State) { s.monitor.Running? }

  /** Whether thread `t` is inside a pass at all; cleanup is only in three of its phases. */
  predicate Inside(s: State, t: Thread) {
    match t
    case Monitor => s.monitor.Running?
    case Cleanup => s.phase == FinalLook || s.phase == LastPass || s.phase == Validating
  }

  function PcOf(s: State, t: Thread): Pc {
    match t
    case Monitor => if s.monitor.Running? then s.monitor.pc else Out
    case Cleanup => s.cleanup
  }

  function At(s: State, t: Thread, pc: Pc): State {
    match t
    case Monitor => s.(monitor := Running(pc))
    case Cleanup => s.(cleanup := pc)
  }

  /** A guard read that fails stops the monitor; cleanup records the error and goes on. */
  function Throw(s: State, t: Thread): State {
    match t
    case Monitor => s.(monitor := Ended)
    case Cleanup => s.(cleanup := Out)
  }

  /** The kernel answers a control read: `Gone` needs the owner gone and the exact scope absent. */
  predicate Answers(w: World, r: Outcome) {
    match r
    case Fine => !w.scopeGone
    case Gone => w.ownerGone && w.scopeGone
    case Fails => true
  }

  predicate PassEnabled(c: Config, s: State, t: Thread, m: Move) {
    Inside(s, t) &&
    var pc := PcOf(s, t);
    match m
    case SkipGuard => pc == AtGuard && !c.guarded
    case Acquire => pc == AtGuard && c.guarded && s.lock == None
    case ReadControl(r) => pc == Holding(true) && Answers(s.world, r)
    case Release => pc.Holding?
    case FetchFd => pc == AtTree && c.tree == ScratchTree && s.tree == Open
    case UseFd => pc == HasFd
    case ReopenTree => pc == AtTree && c.tree != NoTree && s.tree == Open
    case EndPass => pc == AtGuard || pc == AtTree
  }

  function PassApply(s: State, t: Thread, m: Move): State {
    match m
    case SkipGuard => At(s, t, AtTree)
    case Acquire => At(s, t, Holding(s.attached && !s.collected)).(lock := Some(t))
    case ReadControl(Fine) => s
    case ReadControl(Gone) => At(s, t, Holding(false)).(collected := true)
    case ReadControl(Fails) => Throw(s, t).(lock := None)
    case Release => At(s, t, if s.phase == FinalLook && t == Cleanup then Out else AtTree).(lock := None)
    case FetchFd => At(s, t, HasFd)
    case UseFd => At(s, t, AtTree)
    case ReopenTree => At(s, t, Out)
    case EndPass => At(s, t, Out)
  }

  // ----- The monitor's loop ---------------------------------------------------------------------

  predicate LoopEnabled(s: State, l: LoopStep) {
    match l
    case PassStarts => s.monitor == Running(Out) && !s.stop
    case StopSeen => s.monitor == Running(Out) && s.stop
    case MonitorFails => s.monitor.Running? && !s.monitor.pc.Holding?
  }

  function LoopApply(s: State, l: LoopStep): State {
    match l
    case PassStarts => s.(monitor := Running(AtGuard))
    case StopSeen | MonitorFails => s.(monitor := Ended)
  }

  // ----- Cleanup --------------------------------------------------------------------------------

  /** Cleanup may look at the scope and kill it before the child is waited for, and again afterwards
      unless the scope is already known to be collected. */
  predicate Looking(c: Config, s: State) {
    c.guarded && (s.phase == Killing || (s.phase == Emptying && !s.collected))
  }

  predicate CleanEnabled(c: Config, s: State, k: CleanStep) {
    match k
    case StopMonitor => s.phase == Waiting
    case Joined => s.phase == Joining // the bounded join returns whether or not the thread ended
    case Detach => s.phase == Detaching && s.lock == None
    case MoveOn => (Inside(s, Cleanup) || s.phase == Killing || s.phase == Reaping) && s.cleanup == Out
    case KillScope => Looking(c, s)
    case Reap => Killing.Rank() <= s.phase.Rank() <= Deciding.Rank() && !s.world.reaped
    case ReadPopulated(r) => Looking(c, s) && Answers(s.world, r)
    case SeenEmpty => s.phase == Emptying && (s.collected || (!s.world.scopeGone && !s.world.populated))
    case EmptyFails => s.phase == Emptying && !s.collected
    case CloseGuard => s.phase == Closing
    case Decide => s.phase == Deciding
    case Settle => s.phase == Settling
    case DropTree => s.phase == Dropping
    case ReleaseRequest => s.phase == Releasing
  }

  /** Terminal validation is allowed only after the child is reaped and, with a guard, the scope
      was proved empty or collected. */
  predicate Quiescent(c: Config, s: State) {
    s.world.reaped && (c.guarded ==> s.guardEmpty)
  }

  /** `LinuxPathCapability.close`: idempotent, and a no-op on an abandoned capability. */
  function CloseOwned(o: Ownership): Ownership { if o == Open then Closed else o }

  /** Where a pass of cleanup begins; without a guard the final look returns at once. */
  function LookPc(c: Config): Pc { if c.guarded then AtGuard else Out }

  function CleanApply(c: Config, s: State, k: CleanStep): State {
    match k
    case StopMonitor =>
      if !c.tracker then s.(phase := Killing)
      else if c.made then s.(stop := true, phase := Joining)
      else s.(stop := true, phase := FinalLook, cleanup := LookPc(c))
    case Joined => s.(phase := FinalLook, cleanup := LookPc(c))
    case Detach => s.(attached := false, phase := LastPass, cleanup := AtGuard)
    case MoveOn => s.(phase := s.phase.Following(c))
    case KillScope => s
    case Reap => s.(world := s.world.(reaped := true))
    case ReadPopulated(Fine) => s
    case ReadPopulated(Gone) =>
      if s.phase == Emptying then s.(collected := true, guardEmpty := true, phase := Closing)
      else s.(collected := true)
    case ReadPopulated(Fails) => if s.phase == Emptying then s.(phase := Closing) else s
    case SeenEmpty => s.(guardEmpty := true, phase := Closing)
    case EmptyFails => s.(phase := Closing)
    case CloseGuard => s.(guard := Closed, phase := Deciding)
    case Decide =>
      if c.tracker && Quiescent(c, s) then s.(phase := Validating, cleanup := AtTree)
      else s.(phase := Settling)
    case Settle =>
      s.(phase := Dropping,
         tree := if Alive(s) && c.tree != NoTree && s.tree == Open then Abandoned else s.tree)
    case DropTree =>
      s.(phase := Releasing,
         tree := if c.tree == ScratchTree && !Alive(s) then CloseOwned(s.tree) else s.tree)
    case ReleaseRequest =>
      s.(phase := Done, tree := if c.tree == RequestTree then CloseOwned(s.tree) else s.tree)
  }

  // ----- The kernel and the target --------------------------------------------------------------

  /** Some target process can still write the tree. Without a guard the outer PID-namespace owner's
      reaping ends every descendant; with one, a live target is a live member of the scope. */
  predicate TargetLives(c: Config, s: State) {
    if c.guarded then s.world.populated else !s.world.reaped
  }

  predicate WorldEnabled(c: Config, s: State, w: WorldStep) {
    match w
    case TargetWrites => TargetLives(c, s)
    case ScopeDrains => s.world.populated
    case OwnerExits => !s.world.ownerGone
    case ScopeCollected => !s.world.populated && !s.world.scopeGone
  }

  function WorldApply(s: State, w: WorldStep): State {
    match w
    case TargetWrites => s
    case ScopeDrains => s.(world := s.world.(populated := false))
    case OwnerExits => s.(world := s.world.(ownerGone := true))
    case ScopeCollected => s.(world := s.world.(scopeGone := true))
  }

  // ----- Runs -----------------------------------------------------------------------------------

  predicate Enabled(c: Config, s: State, e: Event) {
    match e
    case Pass(t, m) => PassEnabled(c, s, t, m)
    case Loop(l) => LoopEnabled(s, l)
    case Clean(k) => CleanEnabled(c, s, k)
    case Kernel(w) => WorldEnabled(c, s, w)
  }

  function Apply(c: Config, s: State, e: Event): State {
    match e
    case Pass(t, m) => PassApply(s, t, m)
    case Loop(l) => LoopApply(s, l)
    case Clean(k) => CleanApply(c, s, k)
    case Kernel(w) => WorldApply(s, w)
  }

  ghost predicate Run(c: Config, ss: seq<State>, es: seq<Event>) {
    && WellFormed(c)
    && |ss| == |es| + 1
    && ss[0] == Init(c)
    && forall i :: 0 <= i < |es| ==> StepAt(c, ss, es, i)
  }

  ghost predicate StepAt(c: Config, ss: seq<State>, es: seq<Event>, i: nat)
    requires |ss| == |es| + 1 && i < |es|
  {
    Enabled(c, ss[i], es[i]) && ss[i + 1] == Apply(c, ss[i], es[i])
  }

  // ----- The invariant --------------------------------------------------------------------------

  predicate LockInv(s: State) {
    && (s.lock == Some(Monitor) <==> PcOf(s, Monitor).Holding?)
    && (s.lock == Some(Cleanup) <==> s.cleanup.Holding?)
    && (PcOf(s, Monitor) == Holding(true) ==> s.attached)
    && (s.cleanup == Holding(true) ==> s.attached)
    && (!Inside(s, Cleanup) ==> s.cleanup == Out)
  }

  predicate GuardInv(c: Config, s: State) {
    && (s.attached ==> c.tracker && c.guarded && s.phase.Rank() <= Detaching.Rank())
    && (c.guarded && s.phase.Rank() <= Closing.Rank() ==> s.guard == Open)
    && (!c.guarded ==> s.guard == Closed)
    && (s.phase.Rank() > Closing.Rank() ==> s.guard == Closed)
    && (s.phase == Emptying || s.phase == Closing ==> c.guarded)
    && (s.world.scopeGone ==> !s.world.populated)
    && (s.collected ==> s.world.scopeGone)
    && (s.guardEmpty ==> c.guarded && !s.world.populated)
    && (c.guarded && s.collected && s.phase.Rank() > Emptying.Rank() ==> s.guardEmpty)
    && (s.phase == Validating ==> c.tracker && Quiescent(c, s))
  }

  predicate TreeInv(c: Config, s: State) {
    && (Alive(s) ==> c.started)
    && (c.tree == NoTree ==> s.tree == Closed)
    && (c.tree != NoTree && s.phase.Rank() <= Settling.Rank() ==> s.tree == Open)
    && (s.phase.Rank() > Settling.Rank() && Alive(s) && c.tree != NoTree ==> s.tree == Abandoned)
    && (PcOf(s, Monitor) == HasFd || s.cleanup == HasFd ==> c.tree == ScratchTree)
    && (c.tree == ScratchTree && s.phase.Rank() > Dropping.Rank() ==> s.tree != Open)
    && (s.phase == Done ==> s.tree != Open)
  }

  predicate Inv(c: Config, s: State) { LockInv(s) && GuardInv(c, s) && TreeInv(c, s) }

  lemma MonitorPassKeepsInv(c: Config, s: State, m: Move)
    requires WellFormed(c) && Inv(c, s) && PassEnabled(c, s, Monitor, m)
    ensures Inv(c, PassApply(s, Monitor, m))
  {
    match m
    case SkipGuard =>
    case Acquire =>
    case ReadControl(r) => match r { case Fine => case Gone => case Fails => }
    case Release =>
    case FetchFd =>
    case UseFd =>
    case ReopenTree =>
    case EndPass =>
  }

  lemma CleanupPassKeepsInv(c: Config, s: State, m: Move)
    requires WellFormed(c) && Inv(c, s) && PassEnabled(c, s, Cleanup, m)
    ensures Inv(c, PassApply(s, Cleanup, m))
  {
    match m
    case SkipGuard =>
    case Acquire =>
    case ReadControl(r) => match r { case Fine => case Gone => case Fails => }
    case Release =>
    case FetchFd =>
    case UseFd =>
    case ReopenTree =>
    case EndPass =>
  }

  lemma MoveOnKeepsInv(c: Config, s: State)
    requires WellFormed(c) && Inv(c, s) && CleanEnabled(c, s, MoveOn)
    ensures Inv(c, CleanApply(c, s, MoveOn))
  {
    if s.phase == FinalLook {
    } else if s.phase == LastPass {
    } else if s.phase == Killing {
    } else if s.phase == Reaping {
    } else {
      assert s.phase == Validating;
    }
  }

  lemma ReapKeepsInv(c: Config, s: State)
    requires WellFormed(c) && Inv(c, s) && CleanEnabled(c, s, Reap)
    ensures Inv(c, CleanApply(c, s, Reap))
  {
  }

  lemma ReadPopulatedKeepsInv(c: Config, s: State, r: Outcome)
    requires WellFormed(c) && Inv(c, s) && CleanEnabled(c, s, ReadPopulated(r))
    ensures Inv(c, CleanApply(c, s, ReadPopulated(r)))
  {
    match r { case Fine => case Gone => case Fails => }
  }

  lemma DecideKeepsInv(c: Config, s: State)
    requires WellFormed(c) && Inv(c, s) && CleanEnabled(c, s, Decide)
    ensures Inv(c, CleanApply(c, s, Decide))
  {
  }

  lemma TreeStepKeepsInv(c: Config, s: State, k: CleanStep)
    requires WellFormed(c) && Inv(c, s) && CleanEnabled(c, s, k)
    requires k == Settle || k == DropTree || k == ReleaseRequest
    ensures Inv(c, CleanApply(c, s, k))
  {
    match k { case Settle => case DropTree => case ReleaseRequest => }
  }

  lemma LookStepKeepsInv(c: Config, s: State, k: CleanStep)
    requires WellFormed(c) && Inv(c, s) && CleanEnabled(c, s, k)
    requires k == StopMonitor || k == Joined || k == Detach
    ensures Inv(c, CleanApply(c, s, k))
  {
    match k { case StopMonitor => case Joined => case Detach => }
  }

  lemma CleanKeepsInv(c: Config, s: State, k: CleanStep)
    requires WellFormed(c) && Inv(c, s) && CleanEnabled(c, s, k)
    ensures Inv(c, CleanApply(c, s, k))
  {
    match k
    case StopMonitor | Joined | Detach => LookStepKeepsInv(c, s, k);
    case MoveOn => MoveOnKeepsInv(c, s);
    case KillScope =>
    case Reap => ReapKeepsInv(c, s);
    case ReadPopulated(r) => ReadPopulatedKeepsInv(c, s, r);
    case SeenEmpty =>
    case EmptyFails =>
    case CloseGuard =>
    case Decide => DecideKeepsInv(c, s);
    case Settle | DropTree | ReleaseRequest => TreeStepKeepsInv(c, s, k);
  }

  lemma LoopKeepsInv(c: Config, s: State, l: LoopStep)
    requires WellFormed(c) && Inv(c, s) && LoopEnabled(s, l)
    ensures Inv(c, LoopApply(s, l))
  {
    match l
    case PassStarts =>
    case StopSeen =>
    case MonitorFails =>
  }

  lemma WorldKeepsInv(c: Config, s: State, w: WorldStep)
    requires WellFormed(c) && Inv(c, s) && WorldEnabled(c, s, w)
    ensures Inv(c, WorldApply(s, w))
  {
  }

  lemma StepKeepsInv(c: Config, s: State, e: Event)
    requires WellFormed(c) && Inv(c, s) && Enabled(c, s, e)
    ensures Inv(c, Apply(c, s, e))
  {
    match e
    case Pass(Monitor, m) => MonitorPassKeepsInv(c, s, m);
    case Pass(Cleanup, m) => CleanupPassKeepsInv(c, s, m);
    case Loop(l) => LoopKeepsInv(c, s, l);
    case Clean(k) => CleanKeepsInv(c, s, k);
    case Kernel(w) => WorldKeepsInv(c, s, w);
  }

  lemma {:induction false} RunKeepsInv(c: Config, ss: seq<State>, es: seq<Event>, i: nat)
    requires Run(c, ss, es) && i < |ss|
    ensures Inv(c, ss[i])
  {
    if i > 0 {
      RunKeepsInv(c, ss, es, i - 1);
      assert StepAt(c, ss, es, i - 1);
      StepKeepsInv(c, ss[i - 1], es[i - 1]);
    }
  }

  // ----- What never comes back ------------------------------------------------------------------

  /** What later states keep: a closed descriptor stays closed, a quiet world stays quiet, and
      cleanup only moves forward. */
  predicate Later(c: Config, s: State, t: State) {
    && (s.guard == Closed ==> t.guard == Closed)
    && (s.tree != Open ==> t.tree == s.tree)
    && (!TargetLives(c, s) ==> !TargetLives(c, t))
    && (!Alive(s) ==> !Alive(t))
    && (s.world.reaped ==> t.world.reaped)
    && (s.guardEmpty ==> t.guardEmpty)
    && (s.collected ==> t.collected)
    && s.phase.Rank() <= t.phase.Rank()
  }

  lemma PassIsLater(c: Config, s: State, t: Thread, m: Move)
    requires PassEnabled(c, s, t, m)
    ensures Later(c, s, PassApply(s, t, m)) && PassApply(s, t, m).tree == s.tree
    ensures PassApply(s, t, m).world == s.world && PassApply(s, t, m).guardEmpty == s.guardEmpty
  {
    match m
    case SkipGuard =>
    case Acquire =>
    case ReadControl(r) => match r { case Fine => case Gone => case Fails => }
    case Release =>
    case FetchFd =>
    case UseFd =>
    case ReopenTree =>
    case EndPass =>
  }

  lemma LoopIsLater(c: Config, s: State, l: LoopStep)
    requires LoopEnabled(s, l)
    ensures Later(c, s, LoopApply(s, l)) && LoopApply(s, l).tree == s.tree
  {
  }

  lemma CleanIsLater(c: Config, s: State, k: CleanStep)
    requires WellFormed(c) && CleanEnabled(c, s, k)
    ensures Later(c, s, CleanApply(c, s, k))
    ensures k == CloseGuard ==> s.phase.Rank() < CleanApply(c, s, k).phase.Rank()
  {
    match k
    case StopMonitor =>
    case Joined =>
    case Detach =>
    case MoveOn => match s.phase { case FinalLook => case LastPass => case Killing => case Reaping => case _ => }
    case KillScope =>
    case Reap =>
    case ReadPopulated(r) => match r { case Fine => case Gone => case Fails => }
    case SeenEmpty =>
    case EmptyFails =>
    case CloseGuard =>
    case Decide =>
    case Settle =>
    case DropTree =>
    case ReleaseRequest =>
  }

  lemma WorldIsLater(c: Config, s: State, w: WorldStep)
    requires WorldEnabled(c, s, w)
    ensures Later(c, s, WorldApply(s, w)) && WorldApply(s, w).tree == s.tree
  {
  }

  lemma StepIsLater(c: Config, s: State, e: Event)
    requires WellFormed(c) && Enabled(c, s, e)
    ensures Later(c, s, Apply(c, s, e))
    ensures e == Clean(CloseGuard) ==> s.phase.Rank() < Apply(c, s, e).phase.Rank()
    ensures !e.Clean? ==> Apply(c, s, e).tree == s.tree
  {
    match e
    case Pass(t, m) => PassIsLater(c, s, t, m);
    case Loop(l) => LoopIsLater(c, s, l);
    case Clean(k) => CleanIsLater(c, s, k);
    case Kernel(w) => WorldIsLater(c, s, w);
  }

  lemma {:induction false} RunIsLater(c: Config, ss: seq<State>, es: seq<Event>, i: nat, j: nat)
    requires Run(c, ss, es) && i <= j < |ss|
    ensures Later(c, ss[i], ss[j])
    decreases j - i
  {
    if i < j {
      assert StepAt(c, ss, es, i);
      StepIsLater(c, ss[i], es[i]);
      RunIsLater(c, ss, es, i + 1, j);
    }
  }

  // ----- Theorem 1: the guard's descriptors ------------------------------------------------------

  /** A step that goes through the guard's own descriptors. */
  predicate UsesGuard(e: Event) {
    match e
    case Pass(_, m) => m.ReadControl?
    case Clean(k) => k.KillScope? || k.ReadPopulated? || k.SeenEmpty?
    case _ => false
  }

  lemma UseNeedsOpenGuard(c: Config, s: State, e: Event)
    requires WellFormed(c) && Inv(c, s) && Enabled(c, s, e) && UsesGuard(e)
    ensures s.guard == Open
  {
  }

  /** In every interleaving, no cgroup control is read or written by either thread once the guard's
      descriptors are closed, and they are closed at most once. */
  lemma GuardNeverUsedAfterClose(c: Config, ss: seq<State>, es: seq<Event>, i: nat, j: nat)
    requires Run(c, ss, es) && i < j < |es| && es[i] == Clean(CloseGuard)
    ensures !UsesGuard(es[j])
    ensures es[j] != Clean(CloseGuard)
  {
    assert StepAt(c, ss, es, i) && StepAt(c, ss, es, j);
    StepIsLater(c, ss[i], es[i]);
    RunIsLater(c, ss, es, i + 1, j);
    RunKeepsInv(c, ss, es, j);
    if UsesGuard(es[j]) { UseNeedsOpenGuard(c, ss[j], es[j]); }
  }

  // ----- Theorem 2: the tree root ----------------------------------------------------------------

  predicate UsesTree(e: Event) { e.Pass? && (e.m.FetchFd? || e.m.UseFd? || e.m.ReopenTree?) }

  lemma TreeChangeIsSafe(c: Config, s: State, k: CleanStep)
    requires WellFormed(c) && Inv(c, s) && CleanEnabled(c, s, k) && s.tree == Open
    ensures CleanApply(c, s, k).tree == Closed ==> !Alive(s)
    ensures CleanApply(c, s, k).tree == Abandoned ==> Alive(s)
  {
    match k
    case Settle =>
    case DropTree =>
    case ReleaseRequest =>
    case _ =>
  }

  lemma TreeUseIsSafe(c: Config, s: State, t: Thread, m: Move)
    requires WellFormed(c) && Inv(c, s) && PassEnabled(c, s, t, m) && UsesTree(Pass(t, m))
    ensures s.tree != Closed
  {
  }

  lemma TreeStepIsSafe(c: Config, s: State, e: Event)
    requires WellFormed(c) && Inv(c, s) && Enabled(c, s, e)
    ensures s.tree == Open && Apply(c, s, e).tree == Closed ==> !Alive(s)
    ensures s.tree == Open && Apply(c, s, e).tree == Abandoned ==> Alive(s)
    ensures UsesTree(e) ==> s.tree != Closed
  {
    StepIsLater(c, s, e);
    match e
    case Pass(t, m) => if UsesTree(e) { TreeUseIsSafe(c, s, t, m); }
    case Clean(k) => if s.tree == Open { TreeChangeIsSafe(c, s, k); }
    case _ =>
  }

  /** In every interleaving, the tree root is closed only when the monitor is not alive, and no
      thread uses its number once it is closed: a monitor that outlived its join keeps a leaked
      descriptor, never a reused number. */
  lemma TreeNeverClosedUnderMonitor(c: Config, ss: seq<State>, es: seq<Event>, i: nat)
    requires Run(c, ss, es) && i < |es|
    ensures ss[i].tree == Open && ss[i + 1].tree == Closed ==> !Alive(ss[i])
    ensures UsesTree(es[i]) ==> ss[i].tree != Closed
  {
    assert StepAt(c, ss, es, i);
    RunKeepsInv(c, ss, es, i);
    TreeStepIsSafe(c, ss[i], es[i]);
  }

  // ----- Theorem 3: terminal validation ----------------------------------------------------------

  /** The evidence that ends an emptiness wait: an unpopulated scope, or a proved collection. */
  predicate ProvesEmpty(e: Event) { e == Clean(SeenEmpty) || e == Clean(ReadPopulated(Gone)) }

  lemma CleanFlagCause(c: Config, s: State, k: CleanStep)
    requires CleanEnabled(c, s, k)
    ensures CleanApply(c, s, k).world.reaped ==> s.world.reaped || k == Reap
    ensures CleanApply(c, s, k).guardEmpty ==> s.guardEmpty || ProvesEmpty(Clean(k))
  {
    match k
    case StopMonitor =>
    case Joined =>
    case Detach =>
    case MoveOn => match s.phase { case FinalLook => case LastPass => case Killing => case Reaping => case _ => }
    case KillScope =>
    case Reap =>
    case ReadPopulated(r) => match r { case Fine => case Gone => case Fails => }
    case SeenEmpty =>
    case EmptyFails =>
    case CloseGuard =>
    case Decide =>
    case Settle =>
    case DropTree =>
    case ReleaseRequest =>
  }

  lemma FlagCause(c: Config, s: State, e: Event)
    requires Enabled(c, s, e)
    ensures Apply(c, s, e).world.reaped ==> s.world.reaped || e == Clean(Reap)
    ensures Apply(c, s, e).guardEmpty ==> s.guardEmpty || ProvesEmpty(e)
  {
    match e
    case Pass(t, m) => PassIsLater(c, s, t, m);
    case Loop(l) =>
    case Clean(k) => CleanFlagCause(c, s, k);
    case Kernel(w) =>
  }

  lemma {:induction false} FlagsHaveCauses(c: Config, ss: seq<State>, es: seq<Event>, i: nat)
    requires Run(c, ss, es) && i < |ss|
    ensures ss[i].world.reaped ==> exists k :: 0 <= k < i && es[k] == Clean(Reap)
    ensures ss[i].guardEmpty ==> exists k :: 0 <= k < i && ProvesEmpty(es[k])
  {
    if i > 0 {
      FlagsHaveCauses(c, ss, es, i - 1);
      assert StepAt(c, ss, es, i - 1);
      FlagCause(c, ss[i - 1], es[i - 1]);
    }
  }

  /** Terminal validation starts only after the child was reaped and, with a guard, after its scope
      was proved empty or collected; and from then on no target process writes the tree. */
  lemma TerminalTreeIsQuiet(c: Config, ss: seq<State>, es: seq<Event>, i: nat, j: nat)
    requires Run(c, ss, es) && i <= j < |es| && ss[i].phase == Validating
    ensures exists k :: 0 <= k < i && es[k] == Clean(Reap)
    ensures c.guarded ==> exists k :: 0 <= k < i && ProvesEmpty(es[k])
    ensures es[j] != Kernel(TargetWrites)
  {
    RunKeepsInv(c, ss, es, i);
    FlagsHaveCauses(c, ss, es, i);
    RunIsLater(c, ss, es, i, j);
    assert StepAt(c, ss, es, j);
  }

  lemma EvidenceIsKept(c: Config, s: State, e: Event)
    requires WellFormed(c) && Enabled(c, s, e)
    ensures e == Clean(Reap) ==> Apply(c, s, e).world.reaped
    ensures ProvesEmpty(e) ==> Apply(c, s, e).guardEmpty || Apply(c, s, e).collected
  {
  }

  lemma EvidenceStays(c: Config, ss: seq<State>, es: seq<Event>, k: nat, i: nat)
    requires Run(c, ss, es) && k < i < |ss|
    ensures es[k] == Clean(Reap) ==> ss[i].world.reaped
    ensures ProvesEmpty(es[k]) ==> ss[i].guardEmpty || ss[i].collected
  {
    assert StepAt(c, ss, es, k);
    EvidenceIsKept(c, ss[k], es[k]);
    RunIsLater(c, ss, es, k + 1, i);
  }

  ghost predicate Reaped(es: seq<Event>, i: nat) { exists k :: 0 <= k < i && k < |es| && es[k] == Clean(Reap) }

  ghost predicate ProvedEmpty(es: seq<Event>, i: nat) { exists k :: 0 <= k < i && k < |es| && ProvesEmpty(es[k]) }

  /** Cleanup goes to terminal validation exactly when there is a tracker, the child was reaped and,
      with a guard, the scope was proved empty or collected -- whichever look proved it. */
  lemma ValidatesExactly(c: Config, ss: seq<State>, es: seq<Event>, i: nat)
    requires Run(c, ss, es) && i < |es| && es[i] == Clean(Decide)
    ensures ss[i + 1].phase == Validating <==>
      c.tracker && Reaped(es, i) && (c.guarded ==> ProvedEmpty(es, i))
  {
    assert StepAt(c, ss, es, i);
    RunKeepsInv(c, ss, es, i);
    FlagsHaveCauses(c, ss, es, i);
    if Reaped(es, i) {
      var k :| 0 <= k < i && k < |es| && es[k] == Clean(Reap);
      EvidenceStays(c, ss, es, k, i);
    }
    if ProvedEmpty(es, i) {
      var k :| 0 <= k < i && k < |es| && ProvesEmpty(es[k]);
      EvidenceStays(c, ss, es, k, i);
    }
  }

  /** No teardown gets to the end without that decision. */
  lemma {:induction false} DecisionIsNeverSkipped(c: Config, ss: seq<State>, es: seq<Event>, i: nat)
    requires Run(c, ss, es) && i < |ss| && ss[i].phase.Rank() > Deciding.Rank()
    ensures exists k :: 0 <= k < i && es[k] == Clean(Decide)
    decreases i
  {
    assert StepAt(c, ss, es, i - 1);
    if ss[i - 1].phase.Rank() > Deciding.Rank() {
      DecisionIsNeverSkipped(c, ss, es, i - 1);
    } else {
      OnlyDecideDecides(c, ss[i - 1], es[i - 1]);
      assert es[i - 1] == Clean(Decide);
    }
  }

  lemma OnlyDecideDecides(c: Config, s: State, e: Event)
    requires Enabled(c, s, e) && s.phase.Rank() <= Deciding.Rank() < Apply(c, s, e).phase.Rank()
    ensures e == Clean(Decide)
  {
    match e
    case Pass(t, m) => KeepsPhase(s, t, m);
    case Loop(l) =>
    case Kernel(w) =>
    case Clean(k) =>
      match k {
        case MoveOn => match s.phase { case FinalLook => case LastPass => case Killing => case Reaping => case _ => }
        case ReadPopulated(r) => match r { case Fine => case Gone => case Fails => }
        case _ =>
      }
  }

  lemma KeepsPhase(s: State, t: Thread, m: Move)
    ensures PassApply(s, t, m).phase == s.phase
  {
    match m
    case SkipGuard =>
    case Acquire =>
    case ReadControl(r) => match r { case Fine => case Gone => case Fails => }
    case Release =>
    case FetchFd =>
    case UseFd =>
    case ReopenTree =>
    case EndPass =>
  }

  // ----- Theorem 4: nothing is left behind -------------------------------------------------------

  lemma {:induction false} EndedMonitorIsNotAbandoned(
      c: Config, ss: seq<State>, es: seq<Event>, i: nat, j: nat)
    requires Run(c, ss, es) && i <= j < |ss| && !Alive(ss[i]) && ss[i].tree != Abandoned
    ensures ss[j].tree != Abandoned
    decreases j - i
  {
    if i < j {
      assert StepAt(c, ss, es, i);
      RunKeepsInv(c, ss, es, i);
      StepIsLater(c, ss[i], es[i]);
      TreeStepIsSafe(c, ss[i], es[i]);
      EndedMonitorIsNotAbandoned(c, ss, es, i + 1, j);
    }
  }

  /** When cleanup and the request's release are over, the guard is closed and the tree root is not
      open; it was leaked only if the monitor was still alive when the settling began. */
  lemma TeardownSettlesEverything(c: Config, ss: seq<State>, es: seq<Event>, i: nat, j: nat)
    requires Run(c, ss, es) && i <= j < |ss|
    requires ss[i].phase == Settling && ss[j].phase == Done
    ensures ss[j].guard == Closed && ss[j].tree != Open
    ensures !Alive(ss[i]) ==> ss[j].tree == Closed
  {
    RunKeepsInv(c, ss, es, i);
    RunKeepsInv(c, ss, es, j);
    if !Alive(ss[i]) { EndedMonitorIsNotAbandoned(c, ss, es, i, j); }
  }

  // ----- Theorem 5: cleanup is never stuck -------------------------------------------------------

  /** The step cleanup itself can take next, if it is not waiting for the guard lock. */
  function NextMove(c: Config, s: State): Event {
    match s.phase
    case Waiting => Clean(StopMonitor)
    case Joining => Clean(Joined)
    case Detaching => Clean(Detach)
    case FinalLook | LastPass | Validating =>
      if s.cleanup == Out then Clean(MoveOn)
      else if s.cleanup.Holding? then Pass(Cleanup, Release)
      else if s.cleanup == HasFd then Pass(Cleanup, UseFd)
      else Pass(Cleanup, EndPass)
    case Killing | Reaping => Clean(MoveOn)
    case Emptying => if s.collected then Clean(SeenEmpty) else Clean(EmptyFails)
    case Closing => Clean(CloseGuard)
    case Deciding => Clean(Decide)
    case Settling => Clean(Settle)
    case Dropping => Clean(DropTree)
    case _ => Clean(ReleaseRequest)
  }

  /** Cleanup always has a step of its own, or it waits for a lock that the monitor can release at
      once: no interleaving deadlocks teardown. */
  lemma CleanupNeverStuck(c: Config, s: State)
    requires WellFormed(c) && Inv(c, s) && s.phase != Done
    ensures Enabled(c, s, NextMove(c, s)) || (s.lock == Some(Monitor) && Enabled(c, s, Pass(Monitor, Release)))
  {
    if s.phase == Detaching && s.lock.Some? {
      assert s.lock.value == Monitor;
    }
  }

  // ----- One whole run ---------------------------------------------------------------------------

  lemma StartRun(c: Config) returns (ss: seq<State>)
    requires WellFormed(c)
    ensures Run(c, ss, []) && ss == [Init(c)]
  {
    ss := [Init(c)];
  }

  lemma Extend(c: Config, ss: seq<State>, es: seq<Event>, e: Event) returns (ss': seq<State>, es': seq<Event>)
    requires Run(c, ss, es) && Enabled(c, ss[|es|], e)
    ensures Run(c, ss', es') && ss <= ss' && es' == es + [e] && ss'[|es'|] == Apply(c, ss[|es|], e)
  {
    ss', es' := ss + [Apply(c, ss[|es|], e)], es + [e];
    forall i | 0 <= i < |es'| ensures StepAt(c, ss', es', i) {
      if i < |es| { assert StepAt(c, ss, es, i); }
    }
  }

  /** An evaluator run with a tracker, its thread and a guard. */
  const FULL: Config := Config(true, true, true, true, ScratchTree)

  const START: World := World(true, false, false, false)

  lemma MonitorLooks() returns (ss: seq<State>, es: seq<Event>)
    ensures Run(FULL, ss, es) && Pass(Monitor, ReadControl(Fine)) in es && Pass(Monitor, ReopenTree) in es
    ensures ss[|es|] == State(FinalLook, Ended, AtGuard, None, true, true, false, false, Open, Open, START)
  {
    ss := StartRun(FULL);
    ss, es := Extend(FULL, ss, [], Loop(PassStarts));
    ss, es := Extend(FULL, ss, es, Pass(Monitor, Acquire));
    ss, es := Extend(FULL, ss, es, Pass(Monitor, ReadControl(Fine)));
    ss, es := Extend(FULL, ss, es, Pass(Monitor, Release));
    ss, es := Extend(FULL, ss, es, Pass(Monitor, ReopenTree));
    ss, es := Extend(FULL, ss, es, Clean(StopMonitor));
    ss, es := Extend(FULL, ss, es, Loop(StopSeen));
    ss, es := Extend(FULL, ss, es, Clean(Joined));
  }

  lemma CleanupLooks(ss0: seq<State>, es0: seq<Event>) returns (ss: seq<State>, es: seq<Event>)
    requires Run(FULL, ss0, es0)
    requires ss0[|es0|] == State(FinalLook, Ended, AtGuard, None, true, true, false, false, Open, Open, START)
    ensures Run(FULL, ss, es) && es0 <= es && ss0 <= ss
    ensures ss[|es|] == State(Detaching, Ended, Out, None, true, true, false, false, Open, Open, START)
  {
    ss, es := Extend(FULL, ss0, es0, Pass(Cleanup, Acquire));
    ss, es := Extend(FULL, ss, es, Pass(Cleanup, ReadControl(Fine)));
    ss, es := Extend(FULL, ss, es, Pass(Cleanup, Release));
    ss, es := Extend(FULL, ss, es, Clean(MoveOn));
  }

  lemma CleanupLooksAgain(ss0: seq<State>, es0: seq<Event>) returns (ss: seq<State>, es: seq<Event>)
    requires Run(FULL, ss0, es0)
    requires ss0[|es0|] == State(Detaching, Ended, Out, None, true, true, false, false, Open, Open, START)
    ensures Run(FULL, ss, es) && es0 <= es && ss0 <= ss
    ensures ss[|es|] == State(Killing, Ended, Out, None, true, false, false, false, Open, Open, START)
  {
    ss, es := Extend(FULL, ss0, es0, Clean(Detach));
    ss, es := Extend(FULL, ss, es, Pass(Cleanup, Acquire));
    ss, es := Extend(FULL, ss, es, Pass(Cleanup, Release));
    ss, es := Extend(FULL, ss, es, Pass(Cleanup, ReopenTree));
    ss, es := Extend(FULL, ss, es, Clean(MoveOn));
  }

  lemma ScopeIsKilled(ss0: seq<State>, es0: seq<Event>) returns (ss: seq<State>, es: seq<Event>)
    requires Run(FULL, ss0, es0)
    requires ss0[|es0|] == State(Killing, Ended, Out, None, true, false, false, false, Open, Open, START)
    ensures Run(FULL, ss, es) && es0 <= es && ss0 <= ss && Clean(KillScope) in es
    ensures ss[|es|] ==
      State(Killing, Ended, Out, None, true, false, false, false, Open, Open, World(false, false, false, true))
  {
    ss, es := Extend(FULL, ss0, es0, Clean(ReadPopulated(Fine)));
    ss, es := Extend(FULL, ss, es, Clean(KillScope));
    ss, es := Extend(FULL, ss, es, Kernel(ScopeDrains));
    ss, es := Extend(FULL, ss, es, Clean(Reap));
  }

  lemma ScopeIsSeenEmpty(ss0: seq<State>, es0: seq<Event>) returns (ss: seq<State>, es: seq<Event>)
    requires Run(FULL, ss0, es0)
    requires ss0[|es0|] ==
      State(Killing, Ended, Out, None, true, false, false, false, Open, Open, World(false, false, false, true))
    ensures Run(FULL, ss, es) && es0 <= es && ss0 <= ss
    ensures ss[|es|] ==
      State(Deciding, Ended, Out, None, true, false, false, true, Closed, Open, World(false, false, false, true))
  {
    ss, es := Extend(FULL, ss0, es0, Clean(MoveOn));
    ss, es := Extend(FULL, ss, es, Clean(MoveOn));
    ss, es := Extend(FULL, ss, es, Clean(SeenEmpty));
    ss, es := Extend(FULL, ss, es, Clean(CloseGuard));
  }

  lemma TreeIsValidated(ss0: seq<State>, es0: seq<Event>) returns (ss: seq<State>, es: seq<Event>)
    requires Run(FULL, ss0, es0)
    requires ss0[|es0|] ==
      State(Validating, Ended, AtTree, None, true, false, false, true, Closed, Open, World(false, false, false, true))
    ensures Run(FULL, ss, es) && es0 <= es && ss0 <= ss
    ensures ss[|es|] ==
      State(Settling, Ended, Out, None, true, false, false, true, Closed, Open, World(false, false, false, true))
  {
    ss, es := Extend(FULL, ss0, es0, Pass(Cleanup, FetchFd));
    ss, es := Extend(FULL, ss, es, Pass(Cleanup, UseFd));
    ss, es := Extend(FULL, ss, es, Pass(Cleanup, ReopenTree));
    ss, es := Extend(FULL, ss, es, Clean(MoveOn));
  }

  lemma EverythingIsReleased(ss0: seq<State>, es0: seq<Event>) returns (ss: seq<State>, es: seq<Event>)
    requires Run(FULL, ss0, es0)
    requires ss0[|es0|] ==
      State(Settling, Ended, Out, None, true, false, false, true, Closed, Open, World(false, false, false, true))
    ensures Run(FULL, ss, es) && es0 <= es && ss0 <= ss
    ensures ss[|es|] ==
      State(Done, Ended, Out, None, true, false, false, true, Closed, Closed, World(false, false, false, true))
  {
    ss, es := Extend(FULL, ss0, es0, Clean(Settle));
    ss, es := Extend(FULL, ss, es, Clean(DropTree));
    ss, es := Extend(FULL, ss, es, Clean(ReleaseRequest));
  }

  /** There is a run in which the monitor reads the controls and the tree, the scope is killed and seen
      empty, the terminal tree is validated, and everything is closed at the end. */
  lemma WholeRunExists() returns (ss: seq<State>, es: seq<Event>, i: nat)
    ensures Run(FULL, ss, es) && ss[|es|].phase == Done && ss[|es|].guard == Closed && ss[|es|].tree == Closed
    ensures Pass(Monitor, ReadControl(Fine)) in es && Pass(Monitor, ReopenTree) in es && Clean(KillScope) in es
    ensures i < |es| && es[i] == Clean(Decide) && ss[i + 1].phase == Validating
  {
    var ss1, es1 := MonitorLooks();
    ss, es := CleanupLooks(ss1, es1);
    ss, es := CleanupLooksAgain(ss, es);
    ss, es := ScopeIsKilled(ss, es);
    ss, es := ScopeIsSeenEmpty(ss, es);
    i := |es|;
    ss, es := Extend(FULL, ss, es, Clean(Decide));
    var ss2, es2 := ss, es;
    ss, es := TreeIsValidated(ss, es);
    ss, es := EverythingIsReleased(ss, es);
    assert ss[i + 1] == ss2[i + 1] && es[i] == es2[i];
    Members(es1, es);
    Members(es2, es);
  }

  lemma Members(part: seq<Event>, all: seq<Event>)
    requires part <= all
    ensures forall e :: e in part ==> e in all
  {
  }
}
