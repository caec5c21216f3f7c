/** The release barrier between the parent and the evaluator supervisor. The supervisor may fork
    the target only after it receives one byte, and the parent may send that byte only after every
    check on the received descriptors; either side, the channel and every check can fail. */
module ReleaseBarrier {
  import opened Seqs

  /** What the received descriptors really are: whether the directory is the fresh scope, and
      whether the kill descriptor is that directory's own `cgroup.kill`, open for writing. */
  datatype Rights = Rights(freshScope: bool, ownKill: bool)

  datatype Message = Release | Cancel

  datatype ParentPhase =
    | Spawning | AwaitingRights | Checking | Cancelling
    | LookingAlive | WritingKill | ReapingOwner | AwaitingEmpty | Collecting
    | Returned | EarlyLooking | EarlyKilling | AwaitingExit | LateLooking | LateKilling | Settling | Finished
    | Failed | NeverStarted

  /** The parent's checks, in the order in which the code makes them. */
  datatype Check =
    | GuardAdopted | ScopeMatched | KillMatched | ControlsRead | ScratchOpened | TmpfsValidated
    | TreeCopied | TreeAdopted

  const CHECK_COUNT := 8

  function CheckAt(k: nat): Check {
    match k
    case 0 => GuardAdopted case 1 => ScopeMatched case 2 => KillMatched case 3 => ControlsRead
    case 4 => ScratchOpened case 5 => TmpfsValidated case 6 => TreeCopied case _ => TreeAdopted
  }

  datatype SupervisorPhase = NotBorn | SettingUp | AtBarrier | Released | Forked | Aborting | Dead

  /** `passed` counts the checks made so far; `sent` says that a descriptor message is waiting;
      `first` is the oldest message sent to the supervisor, and `delivered` says that the release
      byte entered the channel. */
  datatype State = State(
    parent: ParentPhase, passed: nat, rights: Rights, collected: bool, errors: bool,
    supervisor: SupervisorPhase, target: bool, sent: bool,
    first: Option<Message>, closed: bool, delivered: bool, scopePresent: bool, reaped: bool)

  /** A look at `cgroup.events`, or a write to `cgroup.kill`: a live or empty scope, a failure with
      the scope proved gone, or another failure. */
  datatype Look = Live | Empty | Gone | Fails

  datatype ParentStep =
    | Spawn(ok: bool) | Receive(r: Option<Rights>) | Pass(check: Check) | CheckFails
    | SendRelease(arrives: bool, ok: bool) | SendCancel(arrives: bool)
    | LookAlive(look: Look) | WriteKill(look: Look) | Reap(ok: bool) | AwaitEmpty(look: Look) | Collect(ok: bool)
    | TearDown(killFirst: bool) | TargetExits | CloseGuard(ok: bool)

  datatype SupervisorStep = Born | SetupFails | SendRights | ReadBarrier | Fork | Dies

  datatype WorldStep = TargetDies | ScopeCollected

  datatype Event = Parent(p: ParentStep) | Supervisor(u: SupervisorStep) | Kernel(w: WorldStep)

  function Init(): State {
    State(Spawning, 0, Rights(false, false), false, false, NotBorn, false, false, None, false, false, false, false)
  }

  predicate SupervisorAlive(s: State) { s.supervisor != NotBorn && s.supervisor != Dead }

  /** The live-process bit of the scope: supervisor and target are its members. */
  predicate Populated(s: State) { SupervisorAlive(s) || s.target }

  /** `trusted_for_cleanup`: the kill descriptor is matched to the fresh scope. */
  predicate Trusted(s: State) { s.passed >= 3 }

  predicate Answers(s: State, look: Look) {
    match look
    case Live => s.scopePresent && Populated(s)
    case Empty => s.scopePresent && !Populated(s)
    case Gone => !s.scopePresent
    case Fails => true
  }

  /** The comparisons the code makes on what it received. */
  predicate Holds(s: State, check: Check) {
    match check
    case ScopeMatched => s.rights.freshScope
    case KillMatched => s.rights.ownKill
    case _ => true
  }

  /** The phases that look at `cgroup.events` before a kill, and those that write `cgroup.kill`: in the
      cleanup of a failed start, and twice in the teardown of a run -- before the target is waited
      for, when the run is abnormal or left descendants, and always after it. */
  predicate Looks(p: ParentPhase) { p == LookingAlive || p == EarlyLooking || p == LateLooking }

  predicate Kills(p: ParentPhase) { p == WritingKill || p == EarlyKilling || p == LateKilling }

  predicate TearingDown(p: ParentPhase) {
    p == EarlyLooking || p == EarlyKilling || p == AwaitingExit || p == LateLooking || p == LateKilling
    || p == Settling || p == Finished
  }

  function KillPhase(p: ParentPhase): ParentPhase {
    if p == EarlyLooking then EarlyKilling else if p == LateLooking then LateKilling else WritingKill
  }

  function AfterLook(p: ParentPhase): ParentPhase {
    if p == EarlyLooking || p == EarlyKilling then AwaitingExit
    else if p == LateLooking || p == LateKilling then Settling
    else ReapingOwner
  }

  predicate ParentEnabled(s: State, p: ParentStep) {
    match p
    case Spawn(_) => s.parent == Spawning
    case Receive(r) => s.parent == AwaitingRights && (r.Some? ==> s.sent)
    case Pass(check) =>
      s.parent == Checking && s.passed < CHECK_COUNT && CheckAt(s.passed) == check && Holds(s, check)
    case CheckFails => s.parent == Checking && s.passed < CHECK_COUNT
    case SendRelease(arrives, ok) => s.parent == Checking && s.passed == CHECK_COUNT && (ok ==> arrives)
    case SendCancel(_) => s.parent == Cancelling
    case LookAlive(look) => Looks(s.parent) && Answers(s, look)
    case WriteKill(look) => Kills(s.parent) && Answers(s, look)
    case Reap(_) => s.parent == ReapingOwner
    case AwaitEmpty(look) => s.parent == AwaitingEmpty && look != Live && Answers(s, look)
    case Collect(ok) => s.parent == Collecting && (ok ==> !s.scopePresent)
    case TearDown(_) => s.parent == Returned
    case TargetExits => s.parent == AwaitingExit
    case CloseGuard(ok) => s.parent == Settling && (ok ==> !s.scopePresent)
  }

  /** Cleanup looks at and kills the scope only through a trusted guard. */
  function AfterCancel(s: State): ParentPhase { if Trusted(s) then LookingAlive else ReapingOwner }

  /** The channel keeps message order, and the supervisor reads one message only: the first. */
  function Enqueue(first: Option<Message>, m: Message): Option<Message> {
    if first.Some? then first else Some(m)
  }

  /** Cleanup goes on whatever a look finds: a live scope is killed, a proved collection is noted,
      and any other failure is recorded. */
  function Noted(s: State, look: Look, live: ParentPhase, other: ParentPhase): State {
    s.(parent := if look == Live then live else other,
       collected := look == Gone || s.collected, errors := look == Fails || s.errors)
  }

  function ParentApply(s: State, p: ParentStep): State {
    match p
    case Spawn(ok) => s.(parent := if ok then AwaitingRights else NeverStarted)
    case Receive(None) => s.(parent := Cancelling)
    case Receive(Some(r)) => s.(parent := Checking, rights := r)
    case Pass(_) => s.(passed := s.passed + 1)
    case CheckFails => s.(parent := Cancelling)
    case SendRelease(arrives, ok) =>
      s.(parent := if ok then Returned else Cancelling, closed := ok || s.closed,
         first := if arrives then Enqueue(s.first, Release) else s.first, delivered := arrives || s.delivered)
    case SendCancel(arrives) =>
      s.(parent := AfterCancel(s), first := if arrives then Enqueue(s.first, Cancel) else s.first)
    case LookAlive(look) => Noted(s, look, KillPhase(s.parent), AfterLook(s.parent))
    case WriteKill(look) => Noted(s, look, AfterLook(s.parent), AfterLook(s.parent))
    case Reap(ok) =>
      s.(parent := if Trusted(s) && !s.collected then AwaitingEmpty else Collecting,
         reaped := ok || s.reaped, errors := !ok || s.errors)
    case AwaitEmpty(look) => Noted(s, look, Collecting, Collecting)
    case Collect(ok) => s.(parent := Failed, errors := !ok || s.errors, closed := true)
    case TearDown(killFirst) => s.(parent := if killFirst then EarlyLooking else AwaitingExit)
    case TargetExits => s.(parent := if s.collected then Settling else LateLooking)
    case CloseGuard(ok) => s.(parent := Finished, errors := !ok || s.errors)
  }

  predicate SupervisorEnabled(s: State, u: SupervisorStep) {
    match u
    case Born => s.supervisor == NotBorn && s.parent != Spawning && s.parent != NeverStarted && !s.reaped
    case SetupFails => s.supervisor == SettingUp
    case SendRights => s.supervisor == SettingUp
    case ReadBarrier => s.supervisor == AtBarrier && (s.first.Some? || s.closed)
    case Fork => s.supervisor == Released
    case Dies => SupervisorAlive(s)
  }

  function SupervisorApply(s: State, u: SupervisorStep): State {
    match u
    case Born => s.(supervisor := SettingUp, scopePresent := true)
    case SetupFails => s.(supervisor := Aborting)
    case SendRights => s.(supervisor := AtBarrier, sent := true)
    case ReadBarrier =>
      s.(supervisor := if s.first == Some(Release) then Released else Aborting)
    case Fork => s.(supervisor := Forked, target := true)
    case Dies => s.(supervisor := Dead)
  }

  predicate WorldEnabled(s: State, w: WorldStep) {
    match w
    case TargetDies => s.target
    case ScopeCollected => s.scopePresent && !Populated(s)
  }

  function WorldApply(s: State, w: WorldStep): State {
    match w
    case TargetDies => s.(target := false)
    case ScopeCollected => s.(scopePresent := false)
  }

  predicate Enabled(s: State, e: Event) {
    match e
    case Parent(p) => ParentEnabled(s, p)
    case Supervisor(u) => SupervisorEnabled(s, u)
    case Kernel(w) => WorldEnabled(s, w)
  }

  function Apply(s: State, e: Event): State {
    match e
    case Parent(p) => ParentApply(s, p)
    case Supervisor(u) => SupervisorApply(s, u)
    case Kernel(w) => WorldApply(s, w)
  }

  ghost predicate Run(ss: seq<State>, es: seq<Event>) {
    && |ss| == |es| + 1
    && ss[0] == Init()
    && forall i :: 0 <= i < |es| ==> StepAt(ss, es, i)
  }

  ghost predicate StepAt(ss: seq<State>, es: seq<Event>, i: nat)
    requires |ss| == |es| + 1 && i < |es|
  {
    Enabled(ss[i], es[i]) && ss[i + 1] == Apply(ss[i], es[i])
  }

  // ----- The invariant --------------------------------------------------------------------------

  predicate BarrierInv(s: State) {
    && s.passed <= CHECK_COUNT
    && (s.first == Some(Release) || s.supervisor == Released || s.supervisor == Forked || s.target ==> s.delivered)
    && (s.delivered || s.parent == Returned || TearingDown(s.parent) ==> s.passed == CHECK_COUNT)
    && (s.parent == Returned || TearingDown(s.parent) ==> s.delivered)
    && (s.passed >= 2 ==> s.rights.freshScope)
    && (s.passed >= 3 ==> s.rights.ownKill)
    && (s.parent == LookingAlive || s.parent == WritingKill || s.parent == AwaitingEmpty ==> Trusted(s))
    && (s.parent == Spawning || s.parent == AwaitingRights || s.parent == NeverStarted ==> s.passed == 0)
  }

  /** Nothing runs in the scope, and nothing ever will. */
  predicate Quiet(s: State) {
    !s.target && (s.supervisor == Dead || (s.supervisor == NotBorn && s.reaped))
  }

  predicate UndoInv(s: State) {
    && (Populated(s) ==> s.scopePresent)
    && (s.passed > 0 || s.parent == Checking ==> s.sent)
    && (s.sent ==> s.supervisor != NotBorn)
    && (s.collected ==> Quiet(s))
    && (s.parent == AwaitingEmpty || s.parent == Collecting || s.parent == Failed ==> s.errors || s.reaped)
    && (s.parent == Failed && !s.errors ==> Quiet(s))
    && (s.parent == Collecting && !s.errors && Trusted(s) ==> Quiet(s))
  }

  predicate Inv(s: State) { BarrierInv(s) && UndoInv(s) }

  /** The steps of a start that is not being undone yet. */
  lemma StartKeepsBarrier(s: State, p: ParentStep)
    requires BarrierInv(s) && ParentEnabled(s, p)
    ensures p.Spawn? || p.Receive? || p.Pass? || p.CheckFails? || p.SendRelease? || p.SendCancel? ==>
      BarrierInv(ParentApply(s, p))
  {
    match p
    case Spawn(ok) =>
    case Receive(r) => match r { case None => case Some(_) => }
    case Pass(check) => match check { case ScopeMatched => case KillMatched => case _ => }
    case CheckFails =>
    case SendRelease(arrives, ok) =>
    case SendCancel(arrives) =>
    case _ =>
  }

  /** The steps of cleanup and teardown. */
  lemma EndKeepsBarrier(s: State, p: ParentStep)
    requires BarrierInv(s) && ParentEnabled(s, p)
    ensures (p.LookAlive? || p.WriteKill? || p.Reap? || p.AwaitEmpty? || p.Collect? || p.TearDown? || p.TargetExits?
             || p.CloseGuard?) ==> BarrierInv(ParentApply(s, p))
  {
    match p
    case LookAlive(look) =>
    case WriteKill(look) =>
    case Reap(ok) =>
    case AwaitEmpty(look) =>
    case Collect(ok) =>
    case TearDown(_) =>
    case TargetExits =>
    case CloseGuard(_) =>
    case _ =>
  }

  lemma ParentKeepsBarrier(s: State, p: ParentStep)
    requires BarrierInv(s) && ParentEnabled(s, p)
    ensures BarrierInv(ParentApply(s, p))
  {
    StartKeepsBarrier(s, p);
    EndKeepsBarrier(s, p);
  }

  lemma ParentKeepsUndo(s: State, p: ParentStep)
    requires Inv(s) && ParentEnabled(s, p)
    ensures UndoInv(ParentApply(s, p))
  {
    match p
    case Spawn(ok) =>
    case Receive(r) => match r { case None => case Some(_) => }
    case Pass(check) =>
    case CheckFails =>
    case SendRelease(arrives, ok) =>
    case SendCancel(arrives) =>
    case LookAlive(look) =>
    case WriteKill(look) =>
    case Reap(ok) =>
    case AwaitEmpty(look) =>
    case Collect(ok) =>
    case TearDown(_) =>
    case TargetExits =>
    case CloseGuard(_) =>
  }

  lemma SupervisorKeepsInv(s: State, u: SupervisorStep)
    requires Inv(s) && SupervisorEnabled(s, u)
    ensures Inv(SupervisorApply(s, u))
  {
    match u
    case Born =>
    case SetupFails =>
    case SendRights =>
    case ReadBarrier =>
    case Fork =>
    case Dies =>
  }

  lemma StepKeepsInv(s: State, e: Event)
    requires Inv(s) && Enabled(s, e)
    ensures Inv(Apply(s, e))
  {
    match e
    case Parent(p) => ParentKeepsBarrier(s, p); ParentKeepsUndo(s, p);
    case Supervisor(u) => SupervisorKeepsInv(s, u);
    case Kernel(w) => match w { case TargetDies => case ScopeCollected => }
  }

  lemma InitInv()
    ensures Inv(Init())
  {
  }

  lemma {:induction false} RunKeepsInv(ss: seq<State>, es: seq<Event>, i: nat)
    requires Run(ss, es) && i < |ss|
    ensures Inv(ss[i])
  {
    if i == 0 {
      InitInv();
    } else {
      RunKeepsInv(ss, es, i - 1);
      assert StepAt(ss, es, i - 1);
      StepKeepsInv(ss[i - 1], es[i - 1]);
    }
  }

  // ----- Theorem 1: what comes before the fork ---------------------------------------------------

  /** `at[k]` is when check `k` was made: the checks come in order, each before the next. */
  ghost predicate MadeInOrder(es: seq<Event>, at: seq<nat>, before: nat) {
    && |at| <= CHECK_COUNT
    && (forall k :: 0 <= k < |at| ==> at[k] < before && at[k] < |es| && es[at[k]] == Parent(Pass(CheckAt(k))))
    && (forall k :: 0 < k < |at| ==> at[k - 1] < at[k])
  }

  lemma ParentProgress(s: State, p: ParentStep)
    requires ParentEnabled(s, p)
    ensures ParentApply(s, p).passed == if p.Pass? then s.passed + 1 else s.passed
    ensures p.Pass? ==> s.passed < CHECK_COUNT && p == Pass(CheckAt(s.passed))
    ensures ParentApply(s, p).delivered ==> s.delivered || p.SendRelease?
  {
    match p
    case Spawn(ok) =>
    case Receive(r) => match r { case None => case Some(_) => }
    case Pass(check) =>
    case CheckFails =>
    case SendRelease(arrives, ok) =>
    case SendCancel(arrives) =>
    case LookAlive(look) =>
    case WriteKill(look) =>
    case AwaitEmpty(look) =>
    case Reap(ok) =>
    case Collect(ok) =>
    case TearDown(_) =>
    case TargetExits =>
    case CloseGuard(_) =>
  }

  lemma SupervisorProgress(s: State, u: SupervisorStep)
    ensures SupervisorApply(s, u).passed == s.passed && SupervisorApply(s, u).delivered == s.delivered
    ensures SupervisorApply(s, u).parent == s.parent
  {
    match u { case Born => case SetupFails => case SendRights => case ReadBarrier => case Fork => case Dies => }
  }

  lemma Progress(s: State, e: Event)
    requires Enabled(s, e)
    ensures Apply(s, e).passed == s.passed
         || (s.passed < CHECK_COUNT && e == Parent(Pass(CheckAt(s.passed))) && Apply(s, e).passed == s.passed + 1)
    ensures Apply(s, e).delivered ==> s.delivered || (e.Parent? && e.p.SendRelease?)
  {
    match e
    case Parent(p) => ParentProgress(s, p);
    case Supervisor(u) => SupervisorProgress(s, u);
    case Kernel(w) => match w { case TargetDies => case ScopeCollected => }
  }

  lemma MadeOneMore(es: seq<Event>, at: seq<nat>, i: nat)
    requires MadeInOrder(es, at, i) && |at| < CHECK_COUNT && i < |es| && es[i] == Parent(Pass(CheckAt(|at|)))
    ensures MadeInOrder(es, at + [i], i + 1)
  {
  }

  lemma {:induction false} ChecksMade(ss: seq<State>, es: seq<Event>, i: nat) returns (at: seq<nat>)
    requires Run(ss, es) && i < |ss|
    ensures |at| == ss[i].passed && MadeInOrder(es, at, i)
  {
    if i == 0 {
      at := [];
    } else {
      at := ChecksMade(ss, es, i - 1);
      assert StepAt(ss, es, i - 1);
      Progress(ss[i - 1], es[i - 1]);
      if ss[i].passed != ss[i - 1].passed {
        MadeOneMore(es, at, i - 1);
        at := at + [i - 1];
      }
    }
  }

  lemma {:induction false} ReleaseWasSent(ss: seq<State>, es: seq<Event>, i: nat)
    requires Run(ss, es) && i < |ss| && ss[i].delivered
    ensures exists k :: 0 <= k < i && es[k].Parent? && es[k].p.SendRelease?
  {
    if i > 0 {
      assert StepAt(ss, es, i - 1);
      Progress(ss[i - 1], es[i - 1]);
      if ss[i - 1].delivered { ReleaseWasSent(ss, es, i - 1); }
    }
  }

  /** In every run, with a failure or a lost channel at any step, the target is forked only after
      all eight checks were made in order -- scope and kill descriptor matched, controls read,
      private mount validated, tree copied, terminal tree adopted -- and the parent sent the
      release. */
  lemma ForkComesAfterEveryCheck(ss: seq<State>, es: seq<Event>, j: nat) returns (at: seq<nat>)
    requires Run(ss, es) && j < |es| && es[j] == Supervisor(Fork)
    ensures |at| == CHECK_COUNT && MadeInOrder(es, at, j)
    ensures exists k :: 0 <= k < j && es[k].Parent? && es[k].p.SendRelease?
  {
    assert StepAt(ss, es, j);
    RunKeepsInv(ss, es, j);
    ReleaseWasSent(ss, es, j);
    at := ChecksMade(ss, es, j);
  }

  // ----- Theorem 2: what is killed ---------------------------------------------------------------

  /** In the cleanup of a failed start and in the teardown of every run, `cgroup.kill` is only ever
      written through a descriptor that is the fresh scope's own. */
  lemma KillOnlyReachesTheFreshScope(ss: seq<State>, es: seq<Event>, j: nat)
    requires Run(ss, es) && j < |es| && es[j].Parent? && es[j].p.WriteKill?
    ensures ss[j].rights == Rights(true, true)
    ensures exists k :: 0 <= k < j && es[k] == Parent(Pass(KillMatched))
  {
    assert StepAt(ss, es, j);
    RunKeepsInv(ss, es, j);
    var at := ChecksMade(ss, es, j);
    assert es[at[2]] == Parent(Pass(CheckAt(2)));
  }

  /** Once the guard is closed at the end of a teardown, nothing is killed through it any more. */
  lemma {:induction false} FinishedNeverKills(ss: seq<State>, es: seq<Event>, i: nat, j: nat)
    requires Run(ss, es) && i <= j < |es| && ss[i].parent == Finished
    ensures ss[j].parent == Finished && !es[j].Parent?
    decreases j
  {
    assert StepAt(ss, es, j);
    if i < j {
      FinishedNeverKills(ss, es, i, j - 1);
      assert StepAt(ss, es, j - 1);
      FinishedStays(ss[j - 1], es[j - 1]);
    }
    FinishedStays(ss[j], es[j]);
  }

  lemma FinishedIsLast(s: State)
    requires s.parent == Finished
    ensures forall p :: !ParentEnabled(s, p)
  {
    forall p: ParentStep ensures !ParentEnabled(s, p) {
      match p { case Receive(r) => match r { case None => case Some(_) => } case _ => }
    }
  }

  lemma FinishedStays(s: State, e: Event)
    requires Enabled(s, e) && s.parent == Finished
    ensures !e.Parent? && Apply(s, e).parent == Finished
  {
    FinishedIsLast(s);
    if e.Supervisor? { SupervisorProgress(s, e.u); }
  }

  // ----- Theorem 3: what a failed start leaves ---------------------------------------------------

  lemma QuietUnderParent(s: State, p: ParentStep)
    ensures Quiet(s) ==> Quiet(ParentApply(s, p))
  {
    match p
    case Spawn(ok) =>
    case Receive(r) => match r { case None => case Some(_) => }
    case Pass(check) =>
    case CheckFails =>
    case SendRelease(arrives, ok) =>
    case SendCancel(arrives) =>
    case LookAlive(look) =>
    case WriteKill(look) =>
    case Reap(ok) =>
    case AwaitEmpty(look) =>
    case Collect(ok) =>
    case TearDown(_) =>
    case TargetExits =>
    case CloseGuard(_) =>
  }

  lemma QuietSupervisor(s: State)
    requires Quiet(s)
    ensures forall u :: !SupervisorEnabled(s, u)
  {
    forall u: SupervisorStep ensures !SupervisorEnabled(s, u) {
      match u { case Born => case SetupFails => case SendRights => case ReadBarrier => case Fork => case Dies => }
    }
  }

  lemma QuietStays(s: State, e: Event)
    requires Enabled(s, e) && Quiet(s)
    ensures Quiet(Apply(s, e))
  {
    QuietSupervisor(s);
    if e.Parent? { QuietUnderParent(s, e.p); }
  }

  /** A start that failed, and whose cleanup recorded no error, leaves no live supervisor and no
      live target, then or later -- even when the failed release had in fact been delivered. */
  lemma {:induction false} CleanFailureLeavesNothingRunning(ss: seq<State>, es: seq<Event>, i: nat, j: nat)
    requires Run(ss, es) && i <= j < |ss| && ss[i].parent == Failed && !ss[i].errors
    ensures Quiet(ss[j])
    decreases j
  {
    if i == j {
      RunKeepsInv(ss, es, i);
    } else {
      CleanFailureLeavesNothingRunning(ss, es, i, j - 1);
      assert StepAt(ss, es, j - 1);
      QuietStays(ss[j - 1], es[j - 1]);
    }
  }

  // ----- Theorem 4: a failed release is ambiguous ------------------------------------------------

  /** A release that arrived although its send failed cannot be recalled: the cancel byte comes
      second, and the supervisor goes on to fork. So the undo must always look for live processes. */
  lemma CancelCannotRecallRelease(s: State)
    requires s.parent == Checking && s.passed == CHECK_COUNT && s.supervisor == AtBarrier && s.first == None
    ensures ParentEnabled(s, SendRelease(true, false))
    ensures var cancelled := ParentApply(ParentApply(s, SendRelease(true, false)), SendCancel(true));
      && cancelled.parent == LookingAlive
      && SupervisorEnabled(cancelled, ReadBarrier)
      && SupervisorApply(cancelled, ReadBarrier).supervisor == Released
  {
    var sent := ParentApply(s, SendRelease(true, false));
    assert sent.first == Some(Release) && sent.parent == Cancelling;
  }

  // ----- Theorem 5: the barrier does open ---------------------------------------------------------

  /** Nothing is in the channel before the parent has finished its checks, and the release byte, once
      there, is the first message. */
  predicate FirstInv(s: State) {
    && (s.delivered <==> s.first == Some(Release))
    && (s.parent == Spawning || s.parent == AwaitingRights || s.parent == Checking ==> s.first == None)
  }

  lemma ParentKeepsFirst(s: State, p: ParentStep)
    requires FirstInv(s) && ParentEnabled(s, p)
    ensures FirstInv(ParentApply(s, p))
    ensures ParentApply(s, p).delivered <==> s.delivered || (p.SendRelease? && p.arrives)
  {
    match p
    case Spawn(ok) =>
    case Receive(r) => match r { case None => case Some(_) => }
    case Pass(check) =>
    case CheckFails =>
    case SendRelease(arrives, ok) =>
    case SendCancel(arrives) =>
    case LookAlive(look) =>
    case WriteKill(look) =>
    case Reap(ok) =>
    case AwaitEmpty(look) =>
    case Collect(ok) =>
    case TearDown(_) =>
    case TargetExits =>
    case CloseGuard(_) =>
  }

  ghost predicate ReleaseArrived(es: seq<Event>, i: nat) {
    exists k :: 0 <= k < i && k < |es| && es[k].Parent? && es[k].p.SendRelease? && es[k].p.arrives
  }

  lemma {:induction false} FirstInRun(ss: seq<State>, es: seq<Event>, i: nat)
    requires Run(ss, es) && i < |ss|
    ensures FirstInv(ss[i]) && (ss[i].delivered <==> ReleaseArrived(es, i))
  {
    if i > 0 {
      FirstInRun(ss, es, i - 1);
      assert StepAt(ss, es, i - 1);
      StepKeepsFirst(ss[i - 1], es[i - 1]);
    }
  }

  lemma StepKeepsFirst(s: State, e: Event)
    requires FirstInv(s) && Enabled(s, e)
    ensures FirstInv(Apply(s, e))
    ensures Apply(s, e).delivered <==> s.delivered || (e.Parent? && e.p.SendRelease? && e.p.arrives)
  {
    match e
    case Parent(p) => ParentKeepsFirst(s, p);
    case Supervisor(u) => SupervisorKeepsFirst(s, u);
    case Kernel(w) => match w { case TargetDies => case ScopeCollected => }
  }

  lemma SupervisorKeepsFirst(s: State, u: SupervisorStep)
    ensures SupervisorApply(s, u).first == s.first && SupervisorApply(s, u).delivered == s.delivered
    ensures SupervisorApply(s, u).parent == s.parent
  {
    match u { case Born => case SetupFails => case SendRights => case ReadBarrier => case Fork => case Dies => }
  }

  /** The supervisor that reads the barrier goes on to fork exactly when a release byte has arrived:
      not on a cancel byte, and not on a closed channel. */
  lemma ReleasedExactly(ss: seq<State>, es: seq<Event>, i: nat)
    requires Run(ss, es) && i < |es| && es[i] == Supervisor(ReadBarrier)
    ensures ss[i + 1].supervisor == Released <==> ReleaseArrived(es, i)
    ensures ReleaseArrived(es, i) <==> Enabled(ss[i + 1], Supervisor(Fork))
  {
    assert StepAt(ss, es, i);
    FirstInRun(ss, es, i);
  }

  // ----- Theorem 6: the teardown looks after the exit ---------------------------------------------

  predicate LooksAt(e: Event) { e.Parent? && e.p.LookAlive? }

  /** A look or a kill that found the exact scope collected. */
  predicate FindsGone(e: Event) {
    e.Parent? && (e.p.LookAlive? || e.p.WriteKill? || e.p.AwaitEmpty?) && e.p.look == Gone
  }

  ghost predicate TargetExited(es: seq<Event>, i: nat) { exists k :: 0 <= k < i && k < |es| && es[k] == Parent(TargetExits) }

  ghost predicate LookedAfterExit(es: seq<Event>, i: nat) {
    exists j :: 0 <= j < i && j < |es| && LooksAt(es[j]) && TargetExited(es, j)
  }

  ghost predicate FoundGone(es: seq<Event>, i: nat) { exists j :: 0 <= j < i && j < |es| && FindsGone(es[j]) }

  /** What a teardown has looked at by now. */
  ghost predicate Looked(s: State, es: seq<Event>, i: nat) {
    && (s.collected ==> FoundGone(es, i))
    && (s.parent == LateLooking ==> TargetExited(es, i))
    && (s.parent == LateKilling || s.parent == Settling || s.parent == Finished ==> LookedAfterExit(es, i) || FoundGone(es, i))
  }

  lemma LookedGrows(s: State, es: seq<Event>, i: nat)
    requires Looked(s, es, i) && i < |es|
    ensures Looked(s, es, i + 1)
  {
  }

  lemma LookedStep(s: State, es: seq<Event>, i: nat)
    requires i < |es| && Looked(s, es, i) && Enabled(s, es[i])
    ensures Looked(Apply(s, es[i]), es, i + 1)
  {
    LookedGrows(s, es, i);
    if es[i].Parent? { LookedParent(s, es, i, es[i].p); } else { OthersKeepParent(s, es[i]); }
  }

  lemma OthersKeepParent(s: State, e: Event)
    requires !e.Parent?
    ensures Apply(s, e).parent == s.parent && Apply(s, e).collected == s.collected && Apply(s, e).errors == s.errors
  {
    match e
    case Supervisor(u) => SupervisorKeepsParent(s, u);
    case Kernel(w) => KernelKeepsParent(s, w);
  }

  lemma SupervisorKeepsParent(s: State, u: SupervisorStep)
    ensures var now := SupervisorApply(s, u);
      now.parent == s.parent && now.collected == s.collected && now.errors == s.errors
  {
    match u { case Born => case SetupFails => case SendRights => case ReadBarrier => case Fork => case Dies => }
  }

  lemma KernelKeepsParent(s: State, w: WorldStep)
    ensures var now := WorldApply(s, w);
      now.parent == s.parent && now.collected == s.collected && now.errors == s.errors
  {
    match w { case TargetDies => case ScopeCollected => }
  }

  lemma LookedParent(s: State, es: seq<Event>, i: nat, p: ParentStep)
    requires i < |es| && es[i] == Parent(p) && Looked(s, es, i) && Looked(s, es, i + 1) && ParentEnabled(s, p)
    ensures Looked(ParentApply(s, p), es, i + 1)
  {
    FoundByStep(s, p);
    if p.LookAlive? { assert LooksAt(es[i]); }
    if FindsGone(Parent(p)) { assert FindsGone(es[i]); }
    if p.TargetExits? { assert es[i] == Parent(TargetExits); }
  }

  /** How a step of the parent comes to know a collected scope, and enters the last phases. */
  lemma FoundByStep(s: State, p: ParentStep)
    requires ParentEnabled(s, p)
    ensures ParentApply(s, p).collected ==> s.collected || FindsGone(Parent(p))
    ensures ParentApply(s, p).parent == LateLooking ==> p.TargetExits?
    ensures ParentApply(s, p).parent == LateKilling ==> p.LookAlive? && s.parent == LateLooking
    ensures ParentApply(s, p).parent == Settling ==>
      (p.TargetExits? && s.collected) || (p.LookAlive? && s.parent == LateLooking) || s.parent == LateKilling
    ensures ParentApply(s, p).parent == Finished ==> p.CloseGuard? && s.parent == Settling
    ensures ParentApply(s, p).parent == Finished && !ParentApply(s, p).errors ==> !s.scopePresent
    ensures ParentApply(s, p).scopePresent == s.scopePresent
  {
    match p
    case Spawn(ok) =>
    case Receive(r) => match r { case None => case Some(_) => }
    case Pass(check) =>
    case CheckFails =>
    case SendRelease(arrives, ok) =>
    case SendCancel(arrives) =>
    case LookAlive(look) =>
    case WriteKill(look) =>
    case Reap(ok) =>
    case AwaitEmpty(look) =>
    case Collect(ok) =>
    case TearDown(killFirst) =>
    case TargetExits =>
    case CloseGuard(ok) =>
  }

  lemma {:induction false} LookedInRun(ss: seq<State>, es: seq<Event>, i: nat)
    requires Run(ss, es) && i < |ss|
    ensures Looked(ss[i], es, i)
    decreases i
  {
    if i > 0 {
      LookedInRun(ss, es, i - 1);
      assert StepAt(ss, es, i - 1);
      LookedStep(ss[i - 1], es, i - 1);
    }
  }

  /** No teardown finishes without a look at the scope after the target's exit, unless the scope was
      found collected. */
  lemma LateLookIsNeverSkipped(ss: seq<State>, es: seq<Event>, i: nat)
    requires Run(ss, es) && i < |ss| && ss[i].parent == Finished
    ensures LookedAfterExit(es, i) || FoundGone(es, i)
  {
    LookedInRun(ss, es, i);
  }

  /** A finished teardown without an error has seen its scope collected. */
  ghost predicate CleanEnd(s: State) { s.parent == Finished && !s.errors ==> !s.scopePresent }

  lemma CleanEndStays(s: State, e: Event)
    requires Enabled(s, e) && CleanEnd(s) && (s.parent == Finished ==> s.supervisor != NotBorn)
    ensures CleanEnd(Apply(s, e))
  {
    if e.Parent? {
      FoundByStep(s, e.p);
    } else {
      OthersKeepParent(s, e);
      if s.parent == Finished && !s.errors { ScopeIsMadeOnce(s, e); }
    }
  }

  lemma ScopeIsMadeOnce(s: State, e: Event)
    requires Enabled(s, e) && !e.Parent? && s.supervisor != NotBorn && !s.scopePresent
    ensures !Apply(s, e).scopePresent
  {
    match e
    case Supervisor(u) =>
      match u { case Born => case SetupFails => case SendRights => case ReadBarrier => case Fork => case Dies => }
    case Kernel(w) => match w { case TargetDies => case ScopeCollected => }
  }

  lemma FinishedWasBorn(s: State)
    requires Inv(s) && s.parent == Finished
    ensures s.supervisor != NotBorn
  {
  }

  lemma {:induction false} CleanEndInRun(ss: seq<State>, es: seq<Event>, i: nat)
    requires Run(ss, es) && i < |ss|
    ensures CleanEnd(ss[i])
    decreases i
  {
    if i > 0 {
      CleanEndInRun(ss, es, i - 1);
      assert StepAt(ss, es, i - 1);
      if ss[i - 1].parent == Finished {
        RunKeepsInv(ss, es, i - 1);
        FinishedWasBorn(ss[i - 1]);
      }
      CleanEndStays(ss[i - 1], es[i - 1]);
    }
  }

  /** A run torn down without an error leaves no live supervisor and no live target. */
  lemma CleanTeardownLeavesNothingRunning(ss: seq<State>, es: seq<Event>, i: nat)
    requires Run(ss, es) && i < |ss| && ss[i].parent == Finished && !ss[i].errors
    ensures Quiet(ss[i])
  {
    CleanEndInRun(ss, es, i);
    RunKeepsInv(ss, es, i);
  }

  // ----- Two whole runs ---------------------------------------------------------------------------

  lemma Extend(ss: seq<State>, es: seq<Event>, e: Event) returns (ss': seq<State>, es': seq<Event>)
    requires Run(ss, es) && Enabled(ss[|es|], e)
    ensures Run(ss', es') && es' == es + [e] && ss'[|es'|] == Apply(ss[|es|], e)
  {
    ss', es' := ss + [Apply(ss[|es|], e)], es + [e];
    forall i | 0 <= i < |es'| ensures StepAt(ss', es', i) {
      if i < |es| { assert StepAt(ss, es, i); }
    }
  }

  lemma RightsArrive(ss0: seq<State>, es0: seq<Event>) returns (ss: seq<State>, es: seq<Event>)
    requires Run(ss0, es0)
    requires ss0[|es0|] == Init()
    ensures Run(ss, es) && es0 <= es
    ensures ss[|es|] ==
      State(Checking, 0, Rights(true, true), false, false, AtBarrier, false, true, None, false, false, true, false)
  {
    ss, es := Extend(ss0, es0, Parent(Spawn(true)));
    ss, es := Extend(ss, es, Supervisor(Born));
    ss, es := Extend(ss, es, Supervisor(SendRights));
    ss, es := Extend(ss, es, Parent(Receive(Some(Rights(true, true)))));
  }

  lemma GuardIsChecked(ss0: seq<State>, es0: seq<Event>) returns (ss: seq<State>, es: seq<Event>)
    requires Run(ss0, es0)
    requires ss0[|es0|] ==
      State(Checking, 0, Rights(true, true), false, false, AtBarrier, false, true, None, false, false, true, false)
    ensures Run(ss, es) && es0 <= es
    ensures ss[|es|] ==
      State(Checking, 3, Rights(true, true), false, false, AtBarrier, false, true, None, false, false, true, false)
  {
    ss, es := Extend(ss0, es0, Parent(Pass(GuardAdopted)));
    ss, es := Extend(ss, es, Parent(Pass(ScopeMatched)));
    ss, es := Extend(ss, es, Parent(Pass(KillMatched)));
  }

  lemma MountIsChecked(ss0: seq<State>, es0: seq<Event>) returns (ss: seq<State>, es: seq<Event>)
    requires Run(ss0, es0)
    requires ss0[|es0|] ==
      State(Checking, 3, Rights(true, true), false, false, AtBarrier, false, true, None, false, false, true, false)
    ensures Run(ss, es) && es0 <= es
    ensures ss[|es|] ==
      State(Checking, 6, Rights(true, true), false, false, AtBarrier, false, true, None, false, false, true, false)
  {
    ss, es := Extend(ss0, es0, Parent(Pass(ControlsRead)));
    ss, es := Extend(ss, es, Parent(Pass(ScratchOpened)));
    ss, es := Extend(ss, es, Parent(Pass(TmpfsValidated)));
  }

  lemma TreeIsChecked(ss0: seq<State>, es0: seq<Event>) returns (ss: seq<State>, es: seq<Event>)
    requires Run(ss0, es0)
    requires ss0[|es0|] ==
      State(Checking, 6, Rights(true, true), false, false, AtBarrier, false, true, None, false, false, true, false)
    ensures Run(ss, es) && es0 <= es
    ensures ss[|es|] ==
      State(Checking, 8, Rights(true, true), false, false, AtBarrier, false, true, None, false, false, true, false)
  {
    ss, es := Extend(ss0, es0, Parent(Pass(TreeCopied)));
    ss, es := Extend(ss, es, Parent(Pass(TreeAdopted)));
  }

  lemma TargetIsForked(ss0: seq<State>, es0: seq<Event>) returns (ss: seq<State>, es: seq<Event>)
    requires Run(ss0, es0)
    requires ss0[|es0|] ==
      State(Checking, 8, Rights(true, true), false, false, AtBarrier, false, true, None, false, false, true, false)
    ensures Run(ss, es) && es0 <= es && Supervisor(Fork) in es
    ensures ss[|es|] ==
      State(Returned, 8, Rights(true, true), false, false, Forked, true, true, Some(Release), true, true, true, false)
  {
    ss, es := Extend(ss0, es0, Parent(SendRelease(true, true)));
    ss, es := Extend(ss, es, Supervisor(ReadBarrier));
    ss, es := Extend(ss, es, Supervisor(Fork));
  }

  lemma ScopeIsKilled(ss0: seq<State>, es0: seq<Event>) returns (ss: seq<State>, es: seq<Event>)
    requires Run(ss0, es0)
    requires ss0[|es0|] ==
      State(Returned, 8, Rights(true, true), false, false, Forked, true, true, Some(Release), true, true, true, false)
    ensures Run(ss, es) && es0 <= es && Parent(WriteKill(Live)) in es
    ensures ss[|es|] ==
      State(AwaitingExit, 8, Rights(true, true), false, false, Dead, false, true, Some(Release), true, true, true, false)
  {
    ss, es := Extend(ss0, es0, Parent(TearDown(true)));
    ss, es := Extend(ss, es, Parent(LookAlive(Live)));
    ss, es := Extend(ss, es, Parent(WriteKill(Live)));
    ss, es := Extend(ss, es, Kernel(TargetDies));
    ss, es := Extend(ss, es, Supervisor(Dies));
  }

  lemma ScopeIsSeenEmpty(ss0: seq<State>, es0: seq<Event>) returns (ss: seq<State>, es: seq<Event>)
    requires Run(ss0, es0)
    requires ss0[|es0|] ==
      State(AwaitingExit, 8, Rights(true, true), false, false, Dead, false, true, Some(Release), true, true, true, false)
    ensures Run(ss, es) && es0 <= es
    ensures ss[|es|] ==
      State(Settling, 8, Rights(true, true), false, false, Dead, false, true, Some(Release), true, true, true, false)
  {
    ss, es := Extend(ss0, es0, Parent(TargetExits));
    ss, es := Extend(ss, es, Parent(LookAlive(Empty)));
  }

  lemma TeardownFinishes(ss0: seq<State>, es0: seq<Event>) returns (ss: seq<State>, es: seq<Event>)
    requires Run(ss0, es0)
    requires ss0[|es0|] ==
      State(Settling, 8, Rights(true, true), false, false, Dead, false, true, Some(Release), true, true, true, false)
    ensures Run(ss, es) && es0 <= es
    ensures ss[|es|] ==
      State(Finished, 8, Rights(true, true), false, false, Dead, false, true, Some(Release), true, true, false, false)
  {
    ss, es := Extend(ss0, es0, Kernel(ScopeCollected));
    ss, es := Extend(ss, es, Parent(CloseGuard(true)));
  }

  lemma StartIsCancelled(ss0: seq<State>, es0: seq<Event>) returns (ss: seq<State>, es: seq<Event>)
    requires Run(ss0, es0)
    requires ss0[|es0|] ==
      State(Checking, 3, Rights(true, true), false, false, AtBarrier, false, true, None, false, false, true, false)
    ensures Run(ss, es) && es0 <= es
    ensures ss[|es|] ==
      State(LookingAlive, 3, Rights(true, true), false, false, AtBarrier, false, true, Some(Cancel), false, false, true, false)
  {
    ss, es := Extend(ss0, es0, Parent(CheckFails));
    ss, es := Extend(ss, es, Parent(SendCancel(true)));
  }

  lemma SupervisorIsKilled(ss0: seq<State>, es0: seq<Event>) returns (ss: seq<State>, es: seq<Event>)
    requires Run(ss0, es0)
    requires ss0[|es0|] ==
      State(LookingAlive, 3, Rights(true, true), false, false, AtBarrier, false, true, Some(Cancel), false, false, true, false)
    ensures Run(ss, es) && es0 <= es && Parent(WriteKill(Live)) in es
    ensures ss[|es|] ==
      State(ReapingOwner, 3, Rights(true, true), false, false, AtBarrier, false, true, Some(Cancel), false, false, true, false)
  {
    ss, es := Extend(ss0, es0, Parent(LookAlive(Live)));
    ss, es := Extend(ss, es, Parent(WriteKill(Live)));
  }

  lemma OwnerIsReaped(ss0: seq<State>, es0: seq<Event>) returns (ss: seq<State>, es: seq<Event>)
    requires Run(ss0, es0)
    requires ss0[|es0|] ==
      State(ReapingOwner, 3, Rights(true, true), false, false, AtBarrier, false, true, Some(Cancel), false, false, true, false)
    ensures Run(ss, es) && es0 <= es
    ensures ss[|es|] ==
      State(AwaitingEmpty, 3, Rights(true, true), false, false, Dead, false, true, Some(Cancel), false, false, true, true)
  {
    ss, es := Extend(ss0, es0, Supervisor(Dies));
    ss, es := Extend(ss, es, Parent(Reap(true)));
  }

  lemma StartIsUndone(ss0: seq<State>, es0: seq<Event>) returns (ss: seq<State>, es: seq<Event>)
    requires Run(ss0, es0)
    requires ss0[|es0|] ==
      State(AwaitingEmpty, 3, Rights(true, true), false, false, Dead, false, true, Some(Cancel), false, false, true, true)
    ensures Run(ss, es) && es0 <= es
    ensures ss[|es|] ==
      State(Failed, 3, Rights(true, true), false, false, Dead, false, true, Some(Cancel), true, false, false, true)
  {
    ss, es := Extend(ss0, es0, Parent(AwaitEmpty(Empty)));
    ss, es := Extend(ss, es, Kernel(ScopeCollected));
    ss, es := Extend(ss, es, Parent(Collect(true)));
  }

  /** There is a run in which every check passes, the target is forked, its scope is killed at teardown,
      and everything ends without an error. */
  lemma SuccessfulRunExists() returns (ss: seq<State>, es: seq<Event>)
    ensures Run(ss, es) && ss[|es|].parent == Finished && !ss[|es|].errors
    ensures Supervisor(Fork) in es && Parent(WriteKill(Live)) in es
  {
    ss, es := RightsArrive([Init()], []);
    ss, es := GuardIsChecked(ss, es);
    ss, es := MountIsChecked(ss, es);
    ss, es := TreeIsChecked(ss, es);
    ss, es := TargetIsForked(ss, es);
    var forked := es;
    ss, es := ScopeIsKilled(ss, es);
    var killed := es;
    ss, es := ScopeIsSeenEmpty(ss, es);
    ss, es := TeardownFinishes(ss, es);
    Members(forked, es);
    Members(killed, es);
  }

  /** And one in which a check fails: the start is cancelled, its scope killed, and nothing is left. */
  lemma FailedRunExists() returns (ss: seq<State>, es: seq<Event>)
    ensures Run(ss, es) && ss[|es|].parent == Failed && !ss[|es|].errors && Parent(WriteKill(Live)) in es
  {
    ss, es := RightsArrive([Init()], []);
    ss, es := GuardIsChecked(ss, es);
    ss, es := StartIsCancelled(ss, es);
    ss, es := SupervisorIsKilled(ss, es);
    var killed := es;
    ss, es := OwnerIsReaped(ss, es);
    ss, es := StartIsUndone(ss, es);
    Members(killed, es);
  }

  lemma Members(part: seq<Event>, all: seq<Event>)
    requires part <= all
    ensures forall e :: e in part ==> e in all
  {
  }
}
