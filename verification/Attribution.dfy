/** Which resource limit a run is blamed on: sampled thresholds, hard-guard events, the terminal
    checks, and the supervisor's own report. */
module Attribution {
  import opened Seqs

  datatype LimitName = Cpu | Memory | Processes | FileCount | FileBytes

  datatype Provenance = HardGuard | Sampled

  /** One attribution: the limit, its configured or physical value, and what was observed. */
  datatype Record = Record(name: LimitName, value: Option<nat>, observed: int, provenance: Provenance)

  datatype Limits = Limits(cpuSeconds: Option<nat>, memoryBytes: Option<nat>, processes: Option<nat>,
                           treeFiles: Option<nat>, treeBytes: Option<nat>)
  {
    function Configured(name: LimitName): Option<nat> {
      match name
      case Cpu => cpuSeconds
      case Memory => memoryBytes
      case Processes => processes
      case FileCount => treeFiles
      case FileBytes => treeBytes
    }
  }

  /** What a run should be blamed on after a series of reports: the last hard-guard report if there
      is any, and otherwise the first sampled one. */
  function Blamed(reports: seq<Record>): Option<Record> {
    if reports == [] then None
    else
      var before, last := Blamed(reports[..|reports| - 1]), reports[|reports| - 1];
      if last.provenance == HardGuard || before == None then Some(last) else before
  }

  lemma {:induction false} LastHardReportWins(reports: seq<Record>, k: nat)
    requires k < |reports| && reports[k].provenance == HardGuard
    requires forall j :: k < j < |reports| ==> reports[j].provenance == Sampled
    ensures Blamed(reports) == Some(reports[k])
    decreases |reports|
  {
    if k < |reports| - 1 {
      var front := reports[..|reports| - 1];
      LastHardReportWins(front, k);
    }
  }

  lemma {:induction false} FirstSampleStands(reports: seq<Record>)
    requires reports != [] && forall j :: 0 <= j < |reports| ==> reports[j].provenance == Sampled
    ensures Blamed(reports) == Some(reports[0])
    decreases |reports|
  {
    if |reports| > 1 {
      FirstSampleStands(reports[..|reports| - 1]);
    }
  }

  lemma {:induction false} BlameNeedsReports(reports: seq<Record>)
    ensures Blamed(reports) == None <==> reports == []
    ensures Blamed(reports).Some? ==> Blamed(reports).value in reports
    decreases |reports|
  {
    if reports != [] { BlameNeedsReports(reports[..|reports| - 1]); }
  }

  // ----- What a pass can see ------------------------------------------------------------------------

  datatype TreeScan = Fine | OverLimit(name: LimitName, observed: nat) | Inconclusive | Broken

  /** Everything one pass reads from the outside: guard events and accounting, tmpfs exhaustion, live
      processes, ticks, resident bytes, and a tree walk if one is due. */
  datatype Sight = Sight(
    hardEvent: Option<(LimitName, nat)>, guardCpu: Option<nat>, exhausted: Option<(LimitName, nat)>,
    live: nat, ticks: nat, resident: nat, treeDue: bool, tree: TreeScan)

  const MICROSECONDS := 1_000_000

  /** A sampled blame is justified: the limit was configured and the observation reaches it. */
  predicate Justified(limits: Limits, r: Record) {
    r.provenance == Sampled ==>
      && limits.Configured(r.name).Some? && r.value == limits.Configured(r.name)
      && r.observed >= r.value.value && (r.name != Cpu ==> r.observed > r.value.value)
  }

  /** What a tree walk reports is an excess of its own bound. */
  predicate TreeSight(limits: Limits, t: TreeScan) {
    t.OverLimit? ==>
      (t.name == FileCount || t.name == FileBytes)
      && limits.Configured(t.name).Some? && t.observed > limits.Configured(t.name).value
  }

  /** What the tracker is set up with; `scratch` holds the private mount's physical bytes and inodes. */
  datatype Setup = Setup(limits: Limits, guarded: bool, scratch: Option<(nat, nat)>, hasTree: bool, ticksPerSecond: nat)
  {
    function Physical(name: LimitName): Option<nat> {
      if scratch == None then None
      else if name == FileBytes then Some(scratch.value.0)
      else if name == FileCount then Some(scratch.value.1)
      else None
    }

    function Hard(event: (LimitName, nat)): Record { Record(event.0, limits.Configured(event.0), event.1, HardGuard) }

    function Exhausted(event: (LimitName, nat)): Record { Record(event.0, Physical(event.0), event.1, HardGuard) }

    function Sample(name: LimitName, observed: int): Record { Record(name, limits.Configured(name), observed, Sampled) }

    function Exceeds(name: LimitName, observed: nat): bool {
      limits.Configured(name).Some? && observed > limits.Configured(name).value
    }

    predicate TreeLimited() { hasTree && limits.treeFiles.Some? && limits.treeBytes.Some? }
  }

  /** A hard event, with the limit configured under its name. */
  function HardReport(s: Setup, event: (LimitName, nat)): Record {
    match event.0
    case Cpu => Record(Cpu, s.limits.cpuSeconds, event.1, HardGuard)
    case Memory => Record(Memory, s.limits.memoryBytes, event.1, HardGuard)
    case Processes => Record(Processes, s.limits.processes, event.1, HardGuard)
    case FileCount => Record(FileCount, s.limits.treeFiles, event.1, HardGuard)
    case FileBytes => Record(FileBytes, s.limits.treeBytes, event.1, HardGuard)
  }

  /** A full scratch mount, with the mount's own bytes or inodes. */
  function ExhaustedReport(s: Setup, event: (LimitName, nat)): Record
    requires s.scratch.Some?
  {
    match event.0
    case FileBytes => Record(FileBytes, Some(s.scratch.value.0), event.1, HardGuard)
    case FileCount => Record(FileCount, Some(s.scratch.value.1), event.1, HardGuard)
    case other => Record(other, None, event.1, HardGuard)
  }

  /** The guard's CPU accounting, in microseconds; a guard already detached or collected contributes
      nothing. */
  function GuardCpu(s: Setup, cpu: Option<nat>): seq<Record> {
    if cpu.Some? && s.limits.cpuSeconds.Some? && cpu.value >= s.limits.cpuSeconds.value * 1_000_000
    then [Record(Cpu, s.limits.cpuSeconds, cpu.value / 1_000_000, Sampled)]
    else []
  }

  function TickCpu(s: Setup, highWater: nat): seq<Record>
    requires s.ticksPerSecond > 0
  {
    if s.limits.cpuSeconds.Some? && highWater >= s.limits.cpuSeconds.value * s.ticksPerSecond
    then [Record(Cpu, s.limits.cpuSeconds, highWater / s.ticksPerSecond, Sampled)]
    else []
  }

  function TreeReport(s: Setup, tree: TreeScan): seq<Record> {
    if !s.hasTree || s.limits.treeFiles == None || s.limits.treeBytes == None || !tree.OverLimit? then []
    else if tree.name == FileCount then [Record(FileCount, s.limits.treeFiles, tree.observed, Sampled)]
    else [Record(FileBytes, s.limits.treeBytes, tree.observed, Sampled)]
  }

  function TerminalExhaustion(s: Setup, sight: Sight): seq<Record> {
    if s.scratch.Some? && sight.exhausted.Some? then [ExhaustedReport(s, sight.exhausted.value)] else []
  }

  function Max(a: nat, b: nat): nat { if a < b then b else a }

  /** Everything a pass could report, most authoritative first: hard events, exhaustion, processes,
      CPU, memory, the tree. A guarded run samples neither processes nor memory. */
  function Candidates(s: Setup, sight: Sight, highWater: nat): seq<Record>
    requires s.ticksPerSecond > 0
  {
    (if s.guarded && sight.hardEvent.Some? then [HardReport(s, sight.hardEvent.value)] else [])
    + (if s.scratch.Some? && s.hasTree && sight.exhausted.Some? then [ExhaustedReport(s, sight.exhausted.value)] else [])
    + SampleCandidates(s, sight, highWater)
  }

  function SampleCandidates(s: Setup, sight: Sight, highWater: nat): seq<Record>
    requires s.ticksPerSecond > 0
  {
    UsageCandidates(s, sight, highWater) + LiveTreeReport(s, sight)
  }

  function UsageCandidates(s: Setup, sight: Sight, highWater: nat): seq<Record>
    requires s.ticksPerSecond > 0
  {
    ProcessReport(s, sight) + (CpuReport(s, sight, highWater) + MemoryReport(s, sight))
  }

  function ProcessReport(s: Setup, sight: Sight): seq<Record> {
    if !s.guarded && s.limits.processes.Some? && sight.live > s.limits.processes.value
    then [Record(Processes, s.limits.processes, sight.live, Sampled)]
    else []
  }

  function CpuReport(s: Setup, sight: Sight, highWater: nat): seq<Record>
    requires s.ticksPerSecond > 0
  {
    if s.guarded then GuardCpu(s, sight.guardCpu) else TickCpu(s, Max(highWater, sight.ticks))
  }

  /** Processes come and go, so only the most ticks ever seen at once counts; a guarded run, or one
      without the limit, looks at none. */
  function CpuHighWater(s: Setup, sight: Sight, highWater: nat): nat {
    if s.guarded || s.limits.cpuSeconds == None then highWater else Max(highWater, sight.ticks)
  }

  function MemoryReport(s: Setup, sight: Sight): seq<Record> {
    if !s.guarded && s.limits.memoryBytes.Some? && sight.resident > s.limits.memoryBytes.value
    then [Record(Memory, s.limits.memoryBytes, sight.resident, Sampled)]
    else []
  }

  function LiveTreeReport(s: Setup, sight: Sight): seq<Record> {
    if sight.treeDue then TreeReport(s, sight.tree) else []
  }

  /** Only the most authoritative candidate is reported. */
  function Foremost(candidates: seq<Record>): (r: seq<Record>)
    ensures r <= candidates && |r| <= 1 && (r == [] ==> candidates == [])
  {
    if candidates == [] then [] else candidates[..1]
  }

  lemma ForemostOf(first: seq<Record>, rest: seq<Record>)
    requires |first| <= 1
    ensures Foremost(first + rest) == if first == [] then Foremost(rest) else first
  {
    if first == [] { assert first + rest == rest; }
  }

  lemma SampleForemost(s: Setup, sight: Sight, highWater: nat)
    requires s.ticksPerSecond > 0
    ensures Foremost(SampleCandidates(s, sight, highWater))
         == if UsageCandidates(s, sight, highWater) == [] then LiveTreeReport(s, sight)
            else Foremost(UsageCandidates(s, sight, highWater))
  {
    ForemostSplit(UsageCandidates(s, sight, highWater), LiveTreeReport(s, sight));
  }

  lemma ForemostSplit(first: seq<Record>, rest: seq<Record>)
    requires |rest| <= 1
    ensures Foremost(first + rest) == if first == [] then rest else Foremost(first)
  {
    if first == [] {
      assert first + rest == rest;
    } else {
      assert (first + rest)[..1] == first[..1];
    }
  }

  class Tracker {
    const setup: Option<Setup>
    var blame: Option<Record>
    var highWater: nat
    var inconclusive: nat
    ghost var reports: seq<Record>

    ghost predicate Valid()
      reads this
    {
      && blame == Blamed(reports) && (setup.Some? ==> setup.value.ticksPerSecond > 0)
      && forall r :: r in reports ==> setup.Some? ==> Justified(setup.value.limits, r)
    }

    constructor (setup: Option<Setup>)
      requires setup.Some? ==> setup.value.ticksPerSecond > 0
      ensures Valid() && reports == [] && this.setup == setup && highWater == 0
    {
      this.setup := setup;
      blame, highWater, inconclusive, reports := None, 0, 0, [];
    }

    /** `_set_resource_limit`: hard-guard callers, and only they, ask to replace. */
    method Report(r: Record)
      requires Valid() && (setup.Some? ==> Justified(setup.value.limits, r))
      modifies this`blame, this`reports
      ensures Valid() && reports == old(reports) + [r]
    {
      var replace := r.provenance == HardGuard;
      if blame == None || replace { blame := Some(r); }
      reports := reports + [r];
      assert reports[..|reports| - 1] == old(reports);
    }

    /** The sampled thresholds, in the order in which the code looks at them; the tree is walked only
        when nothing else is reported. */
    method CheckSamples(s: Setup, sight: Sight) returns (ok: bool)
      requires Valid() && setup == Some(s) && TreeSight(s.limits, sight.tree)
      modifies this
      ensures Valid() && reports == old(reports) + Foremost(SampleCandidates(s, sight, old(highWater)))
      ensures highWater == if ProcessReport(s, sight) != [] then old(highWater) else CpuHighWater(s, sight, old(highWater))
      ensures var walks := UsageCandidates(s, sight, old(highWater)) == [] && s.TreeLimited() && sight.treeDue;
        && (ok <==> !(walks && sight.tree.Broken?))
        && inconclusive == old(inconclusive) + if walks && sight.tree.Inconclusive? then 1 else 0
    {
      SampleForemost(s, sight, highWater);
      var found := CheckUsage(s, sight);
      if found { return true; }
      ok := CheckTree(s, sight);
    }

    /** Live processes, CPU seconds and resident bytes. */
    method CheckUsage(s: Setup, sight: Sight) returns (found: bool)
      requires Valid() && setup == Some(s)
      modifies this
      ensures Valid() && reports == old(reports) + Foremost(UsageCandidates(s, sight, old(highWater)))
      ensures found <==> UsageCandidates(s, sight, old(highWater)) != []
      ensures highWater == if ProcessReport(s, sight) != [] then old(highWater) else CpuHighWater(s, sight, old(highWater))
      ensures inconclusive == old(inconclusive)
    {
      if !s.guarded && s.Exceeds(Processes, sight.live) {
        Report(s.Sample(Processes, sight.live));
        return true;
      }
      ghost var cpu, memory := CpuReport(s, sight, highWater), MemoryReport(s, sight);
      ForemostOf(cpu, memory);
      assert UsageCandidates(s, sight, highWater) == cpu + memory;
      found := false;
      if s.limits.cpuSeconds.Some? {
        found := ReportCpu(s, sight);
      }
      if !found && !s.guarded && s.Exceeds(Memory, sight.resident) {
        Report(s.Sample(Memory, sight.resident));
        found := true;
      }
    }

    /** The live tree, when a walk is due. A tree that changes under the walk is no evidence. */
    method CheckTree(s: Setup, sight: Sight) returns (ok: bool)
      requires Valid() && setup == Some(s) && TreeSight(s.limits, sight.tree)
      modifies this
      ensures Valid() && highWater == old(highWater) && reports == old(reports) + LiveTreeReport(s, sight)
      ensures ok <==> !(s.TreeLimited() && sight.treeDue && sight.tree.Broken?)
      ensures inconclusive == old(inconclusive) +
        if s.TreeLimited() && sight.treeDue && sight.tree.Inconclusive? then 1 else 0
    {
      ok := true;
      if s.TreeLimited() && sight.treeDue {
        match sight.tree
        case Fine =>
        case OverLimit(_, _) => ReportTree(s, sight.tree);
        case Inconclusive => inconclusive := inconclusive + 1;
        case Broken => ok := false;
      }
    }

    /** CPU seconds, from the guard's accounting or from the high-water mark of sampled ticks. */
    method ReportCpu(s: Setup, sight: Sight) returns (found: bool)
      requires Valid() && setup == Some(s) && s.limits.cpuSeconds.Some?
      modifies this
      ensures Valid() && inconclusive == old(inconclusive) && highWater == CpuHighWater(s, sight, old(highWater))
      ensures reports == old(reports) + CpuReport(s, sight, old(highWater))
      ensures found <==> CpuReport(s, sight, old(highWater)) != []
    {
      if s.guarded {
        found := sight.guardCpu.Some? && sight.guardCpu.value >= s.limits.cpuSeconds.value * MICROSECONDS;
        if found { Report(s.Sample(Cpu, sight.guardCpu.value / MICROSECONDS)); }
      } else {
        if sight.ticks > highWater { highWater := sight.ticks; }
        found := highWater >= s.limits.cpuSeconds.value * s.ticksPerSecond;
        if found {
          WholeSeconds(highWater, s.limits.cpuSeconds.value, s.ticksPerSecond);
          Report(s.Sample(Cpu, highWater / s.ticksPerSecond));
        }
      }
    }

    /** `_check_resources`: nothing once a limit is recorded; otherwise exactly the most
        authoritative of everything that can be seen. */
    method CheckResources(sight: Sight) returns (ok: bool)
      requires Valid() && (setup.Some? ==> TreeSight(setup.value.limits, sight.tree))
      modifies this
      ensures Valid()
      ensures reports == old(reports) +
        (if setup == None || old(blame).Some? then [] else Foremost(Candidates(setup.value, sight, old(highWater))))
      ensures var walks := setup.Some? && old(blame) == None && setup.value.TreeLimited() && sight.treeDue
                           && Candidates(setup.value, sight, old(highWater)) == [];
        && (ok <==> !(walks && sight.tree.Broken?))
        && inconclusive == old(inconclusive) + if walks && sight.tree.Inconclusive? then 1 else 0
    {
      if setup == None || blame.Some? { return true; }
      var s := setup.value;
      if s.guarded && sight.hardEvent.Some? {
        Report(s.Hard(sight.hardEvent.value));
        return true;
      }
      if s.scratch.Some? && s.hasTree && sight.exhausted.Some? {
        Report(s.Exhausted(sight.exhausted.value));
        return true;
      }
      ok := CheckSamples(s, sight);
      assert Candidates(s, sight, old(highWater)) == SampleCandidates(s, sight, old(highWater));
    }

    /** `final_guard_observation` looks even when a limit is already recorded. */
    method FinalGuardObservation(sight: Sight)
      requires Valid()
      modifies this
      ensures Valid() && highWater == old(highWater) && inconclusive == old(inconclusive)
      ensures reports == old(reports) +
        (if setup == None || !setup.value.guarded then []
         else if sight.hardEvent.Some? then [HardReport(setup.value, sight.hardEvent.value)]
         else GuardCpu(setup.value, sight.guardCpu))
    {
      if setup == None || !setup.value.guarded { return; }
      if sight.hardEvent.Some? {
        Report(setup.value.Hard(sight.hardEvent.value));
        return;
      }
      if setup.value.limits.cpuSeconds.Some? {
        var found := ReportCpu(setup.value, sight);
      }
    }

    /** `validate_terminal_tree`: exhaustion first, then the strict walk; only a fine tree, or one over
        its limit, passes. */
    method ValidateTerminalTree(sight: Sight) returns (ok: bool)
      requires Valid() && (setup.Some? ==> TreeSight(setup.value.limits, sight.tree))
      modifies this`blame, this`reports
      ensures Valid()
      ensures reports == old(reports) +
        (if setup == None || !setup.value.TreeLimited() then []
         else TerminalExhaustion(setup.value, sight) + TreeReport(setup.value, sight.tree))
      ensures ok <==> setup == None || !setup.value.TreeLimited() || sight.tree.Fine? || sight.tree.OverLimit?
    {
      if setup == None || !setup.value.TreeLimited() { return true; }
      ReportExhaustion(setup.value, sight);
      ReportTree(setup.value, sight.tree);
      ok := sight.tree.Fine? || sight.tree.OverLimit?;
    }

    method ReportExhaustion(s: Setup, sight: Sight)
      requires Valid() && setup == Some(s)
      modifies this`blame, this`reports
      ensures Valid() && reports == old(reports) + TerminalExhaustion(s, sight)
    {
      if s.scratch.Some? && sight.exhausted.Some? { Report(s.Exhausted(sight.exhausted.value)); }
    }

    method ReportTree(s: Setup, tree: TreeScan)
      requires Valid() && setup == Some(s) && TreeSight(s.limits, tree) && s.TreeLimited()
      modifies this`blame, this`reports
      ensures Valid() && reports == old(reports) + TreeReport(s, tree)
    {
      if tree.OverLimit? { Report(s.Sample(tree.name, tree.observed)); }
    }
  }

  lemma WholeSeconds(ticks: nat, seconds: nat, perSecond: nat)
    requires perSecond > 0 && ticks >= seconds * perSecond
    ensures ticks / perSecond >= seconds
  {
    var q := ticks / perSecond;
    assert ticks < (q + 1) * perSecond;
    assert seconds * perSecond < (q + 1) * perSecond;
    CancelFactor(seconds, q + 1, perSecond);
  }

  lemma CancelFactor(a: nat, b: nat, factor: nat)
    requires factor > 0 && a * factor < b * factor
    ensures a < b
  {
  }

  // ----- Sequences of reports -------------------------------------------------------------------------

  /** Once a hard-guard report was made, whatever is reported later leaves a hard-guard blame. */
  lemma {:induction false} HardBlameIsNeverSampledAway(before: seq<Record>, more: seq<Record>)
    requires Blamed(before).Some? && Blamed(before).value.provenance == HardGuard
    ensures Blamed(before + more).Some? && Blamed(before + more).value.provenance == HardGuard
    decreases |more|
  {
    if more == [] {
      assert before + more == before;
    } else {
      var front := more[..|more| - 1];
      HardBlameIsNeverSampledAway(before, front);
      assert (before + more)[..|before + more| - 1] == before + front;
    }
  }

  /** And the first sampled one stands until a hard one arrives. */
  lemma {:induction false} SampledBlameStandsUntilHard(before: seq<Record>, more: seq<Record>)
    requires Blamed(before).Some?
    requires forall j :: 0 <= j < |more| ==> more[j].provenance == Sampled
    ensures Blamed(before + more) == Blamed(before)
    decreases |more|
  {
    if more == [] {
      assert before + more == before;
    } else {
      var front := more[..|more| - 1];
      SampledBlameStandsUntilHard(before, front);
      assert (before + more)[..|before + more| - 1] == before + front;
    }
  }

  // ----- The result ---------------------------------------------------------------------------------

  datatype Termination = Exited | Signalled | TimedOut | StreamLimit | ResourceLimit

  /** The supervisor's record, with the wait status already decoded to a return code. */
  datatype FinalStatus = FinalStatus(setupError: int, execError: int, returnCode: int, cpuMicroseconds: int,
                           hardLimit: int, hardObserved: int)

  datatype Result = Result(exitCode: Option<int>, signal: Option<int>, termination: Termination, blame: Option<Record>)

  /** What the request configured: the guard's two ceilings, and the scratch's physical bounds. */
  datatype Ceilings = Ceilings(guard: Option<(nat, nat)>, scratch: Option<(nat, nat)>)

  /** The supervisor's hard-event code, with its configured value; other codes are errors. */
  function HardCode(c: Ceilings, code: int, observed: int): Option<Record> {
    if code == 1 && c.guard.Some? then Some(Record(Memory, Some(c.guard.value.0), observed, HardGuard))
    else if code == 2 && c.guard.Some? then Some(Record(Processes, Some(c.guard.value.1), observed, HardGuard))
    else if code == 3 && c.scratch.Some? then Some(Record(FileBytes, Some(c.scratch.value.0), observed, HardGuard))
    else if code == 4 && c.scratch.Some? then Some(Record(FileCount, Some(c.scratch.value.1), observed, HardGuard))
    else None
  }

  function FinalCpuReport(setup: Option<Setup>, s: FinalStatus): seq<Record> {
    if setup == None || s.cpuMicroseconds < 0 then [] else GuardCpu(setup.value, Some(s.cpuMicroseconds))
  }

  /** Code 1 is the guard's memory ceiling and 2 its process ceiling, 3 the scratch mount's bytes and 4
      its inodes; such a code decides the blame, whatever was reported before. */
  ghost predicate BlamesCode(code: int, observed: int, c: Ceilings, blame: Option<Record>) {
    && (code == 1 ==> c.guard.Some? && blame == Some(Record(Memory, Some(c.guard.value.0), observed, HardGuard)))
    && (code == 2 ==> c.guard.Some? && blame == Some(Record(Processes, Some(c.guard.value.1), observed, HardGuard)))
    && (code == 3 ==> c.scratch.Some? && blame == Some(Record(FileBytes, Some(c.scratch.value.0), observed, HardGuard)))
    && (code == 4 ==> c.scratch.Some? && blame == Some(Record(FileCount, Some(c.scratch.value.1), observed, HardGuard)))
  }

  /** A code that no configured ceiling stands behind. */
  ghost predicate Unattributable(code: int, c: Ceilings) {
    code < 0 || code > 4 || ((code == 1 || code == 2) && c.guard == None) || ((code == 3 || code == 4) && c.scratch == None)
  }

  /** How the capture of one output stream came out: never set up, ended by a read error, or fine. */
  datatype CaptureEnd = Absent | Broken | Captured

  predicate CaptureFails(e: CaptureEnd, abnormal: bool) { e == Absent || (e == CaptureEnd.Broken && !abnormal) }

  /** What ends the run in an error instead of a result. */
  predicate Fatal(status: Option<FinalStatus>, c: Ceilings, abnormal: bool, stdout: CaptureEnd, stderr: CaptureEnd) {
    || CaptureFails(stdout, abnormal) || CaptureFails(stderr, abnormal)
    || match status
       case None => !abnormal
       case Some(s) =>
         s.setupError != 0 || s.execError != 0
         || (s.hardLimit != 0 && HardCode(c, s.hardLimit, s.hardObserved) == None)
  }

  /** The blame of a run that has a result, with the final reports made; a run without a tracker is
      blamed only on the supervisor's own event. */
  method FinalBlame(tracker: Tracker?, status: FinalStatus, c: Ceilings) returns (blame: Option<Record>)
    requires tracker != null ==> tracker.Valid()
    requires status.hardLimit != 0 ==> HardCode(c, status.hardLimit, status.hardObserved).Some?
    modifies tracker
    ensures BlamesCode(status.hardLimit, status.hardObserved, c, blame)
    ensures status.hardLimit == 0 && tracker != null ==>
      blame == Blamed(old(tracker.reports) + FinalCpuReport(tracker.setup, status))
    ensures status.hardLimit == 0 && tracker == null ==> blame == None
  {
    var hard := HardCode(c, status.hardLimit, status.hardObserved);
    if tracker == null {
      blame := hard;
    } else {
      FinalCpu(tracker, status);
      FinalEvent(tracker, hard);
      blame := tracker.blame;
      if hard.Some? { LastHardReportWins(tracker.reports, |tracker.reports| - 1); }
    }
  }

  method FinalEvent(tracker: Tracker, hard: Option<Record>)
    requires tracker.Valid() && (hard.Some? ==> hard.value.provenance == HardGuard)
    modifies tracker
    ensures tracker.Valid()
    ensures tracker.reports == if hard.Some? then old(tracker.reports) + [hard.value] else old(tracker.reports)
  {
    if hard.Some? { tracker.Report(hard.value); }
  }

  method FinalCpu(tracker: Tracker, status: FinalStatus)
    requires tracker.Valid()
    modifies tracker
    ensures tracker.Valid()
    ensures tracker.reports == old(tracker.reports) + FinalCpuReport(tracker.setup, status)
  {
    if tracker.setup.Some? && tracker.setup.value.limits.cpuSeconds.Some?
      && status.cpuMicroseconds >= tracker.setup.value.limits.cpuSeconds.value * MICROSECONDS
    {
      tracker.Report(tracker.setup.value.Sample(Cpu, status.cpuMicroseconds / MICROSECONDS));
    }
  }

  /** A blame decides the termination; otherwise a negative return code of an exited child is a signal. */
  function ResultOf(status: Option<FinalStatus>, waited: Termination, blame: Option<Record>): Result {
    var code := if status.Some? then Some(status.value.returnCode) else None;
    var negative := code.Some? && code.value < 0;
    var termination :=
      if blame.Some? then ResourceLimit else if waited == Exited && negative then Signalled else waited;
    Result(if termination == Exited && code.Some? && code.value >= 0 then code else None,
           if negative then Some(-code.value) else None, termination, blame)
  }

  /** `_render_result` on Linux, from the wait's verdict, the supervisor's status and the two
      captures; `None` is a failed run. A run without a tracker is blamed only on the supervisor's own event. */
  method RenderResult(tracker: Tracker?, status: Option<FinalStatus>, c: Ceilings, waited: Termination, abnormal: bool,
                      stdout: CaptureEnd, stderr: CaptureEnd)
    returns (r: Option<Result>)
    requires tracker != null ==> tracker.Valid()
    requires waited == ResourceLimit ==> tracker != null && tracker.blame.Some?
    requires waited != Signalled && (waited == Exited ==> !abnormal)
    modifies tracker
    ensures r.None? <==>
      || stdout == Absent || stderr == Absent || (!abnormal && (stdout == CaptureEnd.Broken || stderr == CaptureEnd.Broken))
      || (status == None && !abnormal)
      || (status.Some? && (status.value.setupError != 0 || status.value.execError != 0
                           || Unattributable(status.value.hardLimit, c)))
    ensures r.Some? && status.Some? ==>
      BlamesCode(status.value.hardLimit, status.value.hardObserved, c, r.value.blame)
    ensures r.Some? && tracker != null && status.Some? && status.value.hardLimit == 0 ==>
      r.value.blame == Blamed(old(tracker.reports) + FinalCpuReport(tracker.setup, status.value))
    ensures r.Some? && tracker != null && status == None ==> r.value.blame == Blamed(old(tracker.reports))
    ensures r.Some? && tracker == null && (status.Some? ==> status.value.hardLimit == 0) ==> r.value.blame == None
    ensures r.Some? ==> (r.value.termination == ResourceLimit <==> r.value.blame.Some?)
    ensures r.Some? ==> (r.value.exitCode.Some? <==> r.value.termination == Exited)
    ensures r.Some? && r.value.exitCode.Some? ==> status.Some? && r.value.exitCode.value == status.value.returnCode >= 0
    ensures r.Some? ==> (r.value.signal.Some? <==> status.Some? && status.value.returnCode < 0)
    ensures r.Some? && r.value.signal.Some? ==> status.Some? && r.value.signal.value == -status.value.returnCode
    ensures r.Some? ==> !(r.value.exitCode.Some? && r.value.signal.Some?)
    ensures r.Some? && r.value.termination != waited ==>
      r.value.termination == ResourceLimit || (waited == Exited && r.value.termination == Signalled && r.value.signal.Some?)
  {
    if Fatal(status, c, abnormal, stdout, stderr) { return None; }
    var blame := if tracker != null then tracker.blame else None;
    if status.Some? {
      blame := FinalBlame(tracker, status.value, c);
    }
    r := Some(ResultOf(status, waited, blame));
  }
}
