/** The descriptors of one evaluator run, from the handshake with the supervisor to the last
    close, whatever fails on the way. */
module EvaluatorRun {
  import opened Seqs
  import opened Capabilities
  import opened Ownership

  function Fd(fd: Option<nat>): (r: set<nat>) { if fd.Some? then {fd.value} else {} }

  /** `_close_fd`: a missing descriptor is nothing to close. */
  method CloseFd(t: Table, fd: Option<nat>)
    requires t.Valid() && Fd(fd) <= t.live
    modifies t`live
    ensures t.Valid() && t.live == old(t.live) - Fd(fd)
  {
    if fd.Some? { t.Close(fd.value); }
  }

  /** `_LinuxResourceGuardState`: the held scope directory and its kill control. */
  class Guard {
    const dir: Capability
    var kill: Option<nat>

    constructor (dir: Capability, kill: nat)
      ensures this.dir == dir && this.kill == Some(kill)
    {
      this.dir, this.kill := dir, Some(kill);
    }

    ghost function Held(): (r: set<nat>)
      reads this, dir
    {
      Fd(kill) + dir.Held()
    }

    ghost predicate Valid(t: Table)
      reads this, dir, t
    {
      dir.Owns(t) && Fd(kill) <= t.live && dir.d !in Fd(kill)
    }

    method Close(t: Table)
      requires t.Valid() && Valid(t)
      modifies this`kill, dir, t`live
      ensures t.Valid() && Valid(t) && kill == None && dir.closed
      ensures t.live == old(t.live) - old(Held())
    {
      CloseFd(t, kill);
      kill := None;
      dir.Close(t);
    }
  }

  /** `_LinuxResourceGuardState.adopt`: owns both descriptors, or closes both. */
  method Adopt(t: Table, dir: Capability, kill: nat) returns (g: Guard?)
    requires t.Valid() && dir.Owns(t) && !dir.closed && kill in t.live && kill != dir.d
    modifies dir, t`live
    ensures t.Valid()
    ensures g != null ==> fresh(g) && g.Valid(t) && g.dir == dir && g.kill == Some(kill) && !dir.closed && t.live == old(t.live)
    ensures g == null ==> t.live == old(t.live) - {kill, dir.d}
    ensures t.reliable ==> g != null
  {
    var ok := Try(t);
    if ok {
      g := new Guard(dir, kill);
    } else {
      t.Close(kill);
      dir.Close(t);
      g := null;
    }
  }

  /** Descriptors that came over the control socket: how many is up to the sender. */
  method ReceiveRights(t: Table) returns (fds: seq<nat>)
    requires t.Valid()
    modifies t
    ensures t.Valid() && t.next >= old(t.next)
    ensures forall i :: 0 <= i < |fds| ==> old(t.next) <= fds[i] < t.next
    ensures forall i, j :: 0 <= i < j < |fds| ==> fds[i] != fds[j]
    ensures t.live == old(t.live) + ToSet(fds)
    ensures t.reliable ==> |fds| == 3
  {
    fds := [];
    var count: int := *;
    if t.reliable { count := 3; }
    for i := 0 to if count < 0 then 0 else count
      invariant t.Valid() && t.next >= old(t.next)
      invariant forall i :: 0 <= i < |fds| ==> old(t.next) <= fds[i] < t.next
      invariant forall i, j :: 0 <= i < j < |fds| ==> fds[i] != fds[j]
      invariant t.live == old(t.live) + ToSet(fds) && |fds| == i
    {
      var d := t.Open();
      fds := fds + [d];
    }
  }

  method CloseFds(t: Table, fds: seq<nat>)
    requires t.Valid() && ToSet(fds) <= t.live
    requires forall i, j :: 0 <= i < j < |fds| ==> fds[i] != fds[j]
    modifies t`live
    ensures t.Valid() && t.live == old(t.live) - ToSet(fds)
  {
    for i := 0 to |fds|
      invariant t.Valid() && t.live == old(t.live) - ToSet(fds[..i])
    {
      assert fds[i] !in fds[..i];
      assert fds[..i + 1] == fds[..i] + [fds[i]];
      t.Close(fds[i]);
    }
    assert fds[..|fds|] == fds;
  }

  /** Everything the parent holds while it checks what it received: the three raw descriptors that
      nothing owns yet, and the capabilities made from the others. */
  class Received {
    var cgroup: Option<nat>
    var scratch: Option<nat>
    var kill: Option<nat>
    var dir: Option<Capability>
    var tree: Option<Capability>

    constructor (cgroup: nat, scratch: nat, kill: nat)
      ensures this.cgroup == Some(cgroup) && this.scratch == Some(scratch) && this.kill == Some(kill)
      ensures dir == None && tree == None
    {
      this.cgroup, this.scratch, this.kill := Some(cgroup), Some(scratch), Some(kill);
      dir, tree := None, None;
    }

    ghost function Caps(): (r: set<Capability>)
      reads this
    {
      (if dir.Some? then {dir.value} else {}) + (if tree.Some? then {tree.value} else {})
    }

    ghost function Held(): (r: set<nat>)
      reads this, Caps()
    {
      Fd(cgroup) + Fd(scratch) + Fd(kill) + HeldBy(Caps())
    }

    ghost predicate Valid(t: Table)
      reads this, t, Caps()
    {
      && Fd(cgroup) + Fd(scratch) + Fd(kill) <= t.live
      && AllOwn(Caps(), t) && Apart(Caps())
      && Fd(cgroup) !! Fd(scratch) !! Fd(kill) !! HeldBy(Caps())
      && (dir.Some? && tree.Some? ==> dir.value != tree.value)
    }

    /** The exception path of the handshake. */
    method CloseAll(t: Table)
      requires t.Valid() && Valid(t)
      modifies Caps(), t`live
      ensures t.Valid() && t.live == old(t.live) - old(Held())
    {
      if dir.Some? { dir.value.Close(t); }
      if tree.Some? { tree.value.Close(t); }
      CloseFd(t, cgroup);
      CloseFd(t, scratch);
      CloseFd(t, kill);
    }
  }

  ghost function GuardHeld(g: Guard?): (r: set<nat>)
    reads g, if g == null then {} else {g.dir}
  {
    if g == null then {} else g.Held()
  }

  ghost predicate GuardValid(g: Guard?, t: Table)
    reads g, t, if g == null then {} else {g.dir}
  {
    g != null ==> g.Valid(t)
  }

  /** The table is `rest`, what the handshake holds itself, and what the guard holds. */
  ghost predicate Holding(t: Table, rest: set<nat>, v: Received, g: Guard?)
    reads t, v, v.Caps(), g, if g == null then {} else {g.dir}
  {
    && t.Valid() && v.Valid(t) && GuardValid(g, t)
    && (g != null ==> g.dir !in v.Caps())
    && rest !! v.Held() !! GuardHeld(g)
    && t.live == rest + v.Held() + GuardHeld(g)
  }

  /** The scope descriptor becomes a capability, then both scope descriptors become the guard. */
  method TakeGuard(t: Table, v: Received, ghost rest: set<nat>) returns (g: Guard?)
    requires Holding(t, rest, v, null) && v.cgroup.Some? && v.kill.Some? && v.Caps() == {}
    modifies v, t`live
    ensures Holding(t, rest, v, g) && (g != null ==> fresh(g) && fresh(g.dir))
    ensures v.tree == None && v.scratch == old(v.scratch)
    ensures g != null ==> v.cgroup == None && v.kill == None && v.dir == None
    ensures forall c :: c in v.Caps() ==> fresh(c)
    ensures t.reliable ==> g != null
  {
    g := null;
    var d := v.cgroup.value;
    v.cgroup := None;
    v.dir := FromOpenFd(t, d);
    if v.dir == None { return; }
    var dir, kill := v.dir.value, v.kill.value;
    v.dir, v.kill := None, None;
    g := Adopt(t, dir, kill);
  }

  /** `validate_before_release` opens the expected scope to compare it and always closes it. */
  method ValidateGuard(t: Table) returns (ok: bool)
    requires t.Valid()
    modifies t
    ensures t.Valid() && t.next >= old(t.next) && t.live == old(t.live)
    ensures t.reliable ==> ok
  {
    var expected := Acquire(t);
    if expected.None? { return false; }
    ok := Try(t);
    expected.value.Close(t);
  }

  method ValidateHolding(t: Table, v: Received, g: Guard, ghost rest: set<nat>) returns (ok: bool)
    requires Holding(t, rest, v, g)
    modifies t
    ensures Holding(t, rest, v, g) && t.next >= old(t.next)
    ensures t.reliable ==> ok
  {
    ok := ValidateGuard(t);
  }

  /** The scratch descriptor becomes a capability only after the guard is safely owned. */
  method TakeTree(t: Table, v: Received, g: Guard, ghost rest: set<nat>) returns (ok: bool)
    requires Holding(t, rest, v, g) && v.scratch.Some? && v.Caps() == {}
    modifies v, t`live
    ensures Holding(t, rest, v, g) && v.dir == None && v.cgroup == old(v.cgroup) && v.kill == old(v.kill)
    ensures v.scratch == None && (ok <==> v.tree.Some?) && (ok ==> !v.tree.value.closed)
    ensures forall c :: c in v.Caps() ==> fresh(c)
    ensures t.reliable ==> ok
  {
    var d := v.scratch.value;
    v.scratch := None;
    v.tree := FromOpenFd(t, d);
    ok := v.tree.Some?;
  }

  /** A scratch that can still take a terminal root. */
  ghost predicate Unused(s: Scratch?)
    reads s
  {
    s != null ==> !s.closed && s.terminal == None
  }

  /** The last step: a duplicate of the validated root becomes the scratch's terminal tree. */
  method KeepTerminal(t: Table, s: Scratch, tree: Capability) returns (ok: bool)
    requires t.Valid() && s.Valid(t) && tree.Owns(t)
    modifies t, s`terminal
    ensures t.Valid() && s.Valid(t) && t.next >= old(t.next)
    ensures !ok ==> s.terminal == old(s.terminal) && t.live == old(t.live)
    ensures ok ==> old(s.terminal) == None && s.terminal.Some? && fresh(s.terminal.value) && !s.terminal.value.closed
    ensures ok ==> old(t.next) <= s.terminal.value.d && t.live == old(t.live) + {s.terminal.value.d}
    ensures t.reliable && !tree.closed && old(Unused(s)) ==> ok
  {
    var copy := tree.Duplicate(t);
    if copy.None? { return false; }
    ok := s.AdoptTerminal(t, copy.value);
  }

  /** What the handshake's own work leaves when it succeeds: the guard, and one open scratch root. */
  ghost predicate Checked(t: Table, rest: set<nat>, g: Guard?, tree: Option<Capability>)
    reads t, g, if g == null then {} else {g.dir}, if tree.Some? then {tree.value} else {}
  {
    && t.Valid() && GuardValid(g, t)
    && (tree.Some? ==> g != null && tree.value.Owns(t) && !tree.value.closed && tree.value != g.dir)
    && rest !! GuardHeld(g) !! (if tree.Some? then {tree.value.d} else {})
    && t.live == rest + GuardHeld(g) + (if tree.Some? then {tree.value.d} else {})
  }

  /** With the guard owned: validates it, and only then takes the scratch descriptor. On failure
      everything the handshake still holds itself is closed; the guard stays for common cleanup. */
  method CheckScratch(t: Table, v: Received, g: Guard, ghost rest: set<nat>) returns (tree: Option<Capability>)
    requires Holding(t, rest, v, g) && v.scratch.Some? && v.cgroup == None && v.kill == None && v.Caps() == {}
    modifies v, t
    ensures Checked(t, rest, g, tree) && t.next >= old(t.next) && (tree.Some? ==> fresh(tree.value))
    ensures t.reliable ==> tree.Some?
  {
    var ok := TakeChecked(t, v, g, rest);
    var fits := Try(t); // the mount's bounds, then the copy of the applied tree
    if ok && fits {
      tree := v.tree;
    } else {
      tree := None;
      DropReceived(t, v, g, rest);
    }
  }

  /** The guard is validated, and only then the scratch descriptor taken. */
  method TakeChecked(t: Table, v: Received, g: Guard, ghost rest: set<nat>) returns (ok: bool)
    requires Holding(t, rest, v, g) && v.scratch.Some? && v.cgroup == None && v.kill == None && v.Caps() == {}
    modifies v, t
    ensures Holding(t, rest, v, g) && t.next >= old(t.next) && forall c :: c in v.Caps() ==> fresh(c)
    ensures ok ==> v.scratch == None && v.cgroup == None && v.kill == None && v.dir == None
    ensures ok ==> v.tree.Some? && !v.tree.value.closed
    ensures t.reliable ==> ok
  {
    ok := ValidateHolding(t, v, g, rest);
    if ok { ok := TakeTree(t, v, g, rest); }
  }

  /** The exception path with the guard owned: everything but the guard is closed. */
  method DropReceived(t: Table, v: Received, g: Guard, ghost rest: set<nat>)
    requires Holding(t, rest, v, g)
    modifies v.Caps(), t`live
    ensures Checked(t, rest, g, None)
  {
    v.CloseAll(t);
  }

  /** The three received descriptors become the guard and the scratch root; on any failure the
      guard alone may stay, and everything else that was received is closed. */
  method CheckReceived(t: Table, v: Received, ghost rest: set<nat>) returns (g: Guard?, tree: Option<Capability>)
    requires Holding(t, rest, v, null) && v.cgroup.Some? && v.scratch.Some? && v.kill.Some? && v.Caps() == {}
    modifies v, t
    ensures Checked(t, rest, g, tree) && t.next >= old(t.next)
    ensures (g != null ==> fresh(g) && fresh(g.dir)) && (tree.Some? ==> fresh(tree.value))
    ensures t.reliable ==> tree.Some?
  {
    g, tree := null, None;
    var ok := Try(t); // making the descriptors non-inheritable
    if ok { g := TakeGuard(t, v, rest); }
    if g != null {
      tree := CheckScratch(t, v, g, rest);
    } else {
      v.CloseAll(t);
    }
  }

  /** Exactly three descriptors with the right payload, or none: any other message is closed. */
  method ReceiveThree(t: Table) returns (v: Received?)
    requires t.Valid()
    modifies t
    ensures t.Valid() && t.next >= old(t.next)
    ensures v == null ==> t.live == old(t.live)
    ensures v != null ==> fresh(v) && Holding(t, old(t.live), v, null)
    ensures v != null ==> v.cgroup.Some? && v.scratch.Some? && v.kill.Some? && v.Caps() == {}
    ensures t.reliable ==> v != null
  {
    v := null;
    var ok := Try(t);
    if !ok { return; }
    var fds := ReceiveRights(t);
    ok := Try(t);
    if ok && |fds| == 3 {
      assert ToSet(fds) == {fds[0], fds[1], fds[2]};
      v := new Received(fds[0], fds[1], fds[2]);
    } else {
      CloseFds(t, fds);
    }
  }

  /** Keeps a duplicate of the checked root as the terminal tree, or closes the root. */
  method Finish(t: Table, s: Scratch, g: Guard, checked: Capability, ghost rest: set<nat>)
    returns (tree: Option<Capability>)
    requires Checked(t, rest, g, Some(checked)) && s.Valid(t) && checked !in s.Parts() && s.Held() <= rest
    modifies t, checked, s`terminal
    ensures s.Valid(t) && t.next >= old(t.next) && (tree.Some? ==> tree == Some(checked))
    ensures tree.None? ==> s.terminal == old(s.terminal) && Checked(t, rest, g, None)
    ensures tree.Some? ==> old(s.terminal) == None && s.terminal.Some? && fresh(s.terminal.value)
    ensures tree.Some? ==> !s.terminal.value.closed && old(t.next) <= s.terminal.value.d
    ensures tree.Some? ==> Checked(t, rest + {s.terminal.value.d}, g, tree)
    ensures t.reliable && old(Unused(s)) ==> tree.Some?
  {
    tree := Some(checked);
    var ok := KeepTerminal(t, s, checked);
    if !ok {
      checked.Close(t);
      tree := None;
    }
  }

  method Handshake(t: Table, s: Scratch) returns (g: Guard?, tree: Option<Capability>)
    requires t.Valid() && s.Valid(t)
    modifies t, s`terminal
    ensures s.Valid(t) && t.next >= old(t.next)
    ensures (g != null ==> fresh(g) && fresh(g.dir)) && (tree.Some? ==> fresh(tree.value))
    ensures tree.None? ==> s.terminal == old(s.terminal) && Checked(t, old(t.live), g, None)
    ensures tree.Some? ==> old(s.terminal) == None && s.terminal.Some? && fresh(s.terminal.value)
    ensures tree.Some? ==> !s.terminal.value.closed && old(t.next) <= s.terminal.value.d
    ensures tree.Some? ==> Checked(t, old(t.live) + {s.terminal.value.d}, g, tree)
    ensures t.reliable && old(Unused(s)) ==> tree.Some?
  {
    g, tree := null, None;
    var v := ReceiveThree(t);
    if v != null {
      g, tree := CheckReceived(t, v, old(t.live));
      if tree.Some? { tree := Finish(t, s, g, tree.value, old(t.live)); }
    }
  }

  // ----- The run ---------------------------------------------------------------------------------

  /** `_RunningProcess`: what a started process holds besides its request. */
  datatype Running = Running(status: nat, guard: Guard?, tree: Option<Capability>)

  ghost function GuardObjects(g: Guard?): (r: set<object>) { if g == null then {} else {g, g.dir} }

  ghost function TreeObjects(tree: Option<Capability>): (r: set<Capability>) {
    if tree.Some? then {tree.value} else {}
  }

  /** What a monitor that outlived its join costs: the scratch root, if there is one. */
  ghost function Leak(tree: Option<Capability>, monitorAlive: bool): (r: set<nat>) {
    if monitorAlive && tree.Some? then {tree.value.d} else {}
  }

  /** Closing the guard and the scratch root; the root is leaked, not closed, only under a monitor
      that outlived its join. */
  method CloseRuntime(t: Table, g: Guard?, tree: Option<Capability>, monitorAlive: bool, ghost rest: set<nat>)
    requires Checked(t, rest, g, tree)
    modifies GuardObjects(g), TreeObjects(tree), t`live
    ensures t.Valid() && t.live == rest + (if monitorAlive && tree.Some? then {tree.value.d} else {})
  {
    if g != null { g.Close(t); }
    if tree.Some? {
      if monitorAlive { tree.value.Abandon(); } else { tree.value.Close(t); }
    }
  }

  /** All of a scratch's own state, as a value. */
  datatype View = NoScratch | View(seedReleased: bool, closed: bool, sourceClosed: bool,
                                   terminal: Option<Capability>, terminalClosed: bool)

  ghost function ViewOf(s: Scratch?): View
    reads s, ScratchParts(s), if s == null then {} else {s.source}
  {
    if s == null then NoScratch
    else View(s.seedReleased, s.closed, s.source.closed, s.terminal, s.terminal.Some? && s.terminal.value.closed)
  }

  /** The scratch gained an open terminal root on a descriptor not below `first`, or did not change. */
  ghost predicate OnlyGained(was: View, now: View, first: nat) {
    now == was || (was.View? && now.View? && was.terminal == None && now == was.(terminal := now.terminal)
      && now.terminal.Some? && first <= now.terminal.value.d)
  }

  /** None of the new capabilities is the scratch's. */
  ghost predicate NotOf(g: Guard?, tree: Option<Capability>, s: Scratch?)
    reads s
  {
    && (g != null ==> g.dir !in ScratchParts(s))
    && (tree.Some? ==> tree.value !in ScratchParts(s))
  }

  /** The handshake, seen from the scratch. */
  method BringUpEvaluator(t: Table, s: Scratch) returns (g: Guard?, tree: Option<Capability>)
    requires t.Valid() && ScratchValid(s, t) && ScratchHeld(s) <= t.live
    modifies t, s
    ensures BroughtUp(t, s, g, tree, old(t.next), old(t.live), old(ViewOf(s)), old(ScratchHeld(s)))
    ensures t.next >= old(t.next) && fresh(ScratchParts(s) - old(ScratchParts(s)))
    ensures (g != null ==> fresh(g) && fresh(g.dir)) && (tree.Some? ==> fresh(tree.value))
    ensures t.reliable && old(Unused(s)) ==> tree.Some?
  {
    g, tree := Handshake(t, s);
    assert s.Held() == old(s.Held()) + (if tree.Some? then {s.terminal.value.d} else {});
  }

  /** The table and the scratch after bring-up, which began with `before` and with what the scratch
      held then. */
  ghost predicate BroughtUp(t: Table, s: Scratch?, g: Guard?, tree: Option<Capability>, next: nat, before: set<nat>,
                            was: View, held: set<nat>)
    reads t, s, ScratchParts(s), if s == null then {} else {s.source}
    reads g, if g == null then {} else {g.dir}, if tree.Some? then {tree.value} else {}
  {
    && ScratchValid(s, t) && OnlyGained(was, ViewOf(s), next) && NotOf(g, tree, s)
    && Checked(t, before + ScratchHeld(s), g, tree)
    && forall d :: d in ScratchHeld(s) ==> d in held || d !in before
  }

  /** Without a scratch there is nothing to bring up. */
  lemma NothingToBringUp(t: Table)
    requires t.Valid()
    ensures BroughtUp(t, null, null, None, t.next, t.live, NoScratch, {})
  {
  }

  /** After the child is spawned: for an evaluator the handshake and then the release. */
  method BringUp(t: Table, s: Scratch?) returns (g: Guard?, tree: Option<Capability>, ok: bool)
    requires t.Valid() && ScratchValid(s, t) && ScratchHeld(s) <= t.live
    modifies t, s
    ensures BroughtUp(t, s, g, tree, old(t.next), old(t.live), old(ViewOf(s)), old(ScratchHeld(s)))
    ensures t.next >= old(t.next) && fresh(ScratchParts(s) - old(ScratchParts(s)))
    ensures (g != null ==> fresh(g) && fresh(g.dir)) && (tree.Some? ==> fresh(tree.value))
    ensures (t.reliable && old(Unused(s)) ==> ok) && (ok ==> (tree.Some? <==> s != null))
  {
    if s == null {
      NothingToBringUp(t);
      return null, None, true;
    }
    var sent := Try(t); // the release byte
    g, tree := BringUpEvaluator(t, s);
    ok := sent && tree.Some?;
  }

  /** The status pipe and, for an evaluator, the two ends of the control socket; or none of them. */
  method OpenEnds(t: Table, guarded: bool) returns (ends: seq<nat>)
    requires t.Valid()
    modifies t
    ensures t.Valid() && t.next >= old(t.next)
    ensures forall i, j :: 0 <= i < j < |ends| ==> ends[i] != ends[j]
    ensures forall d :: d in ends ==> old(t.next) <= d < t.next
    ensures t.live == old(t.live) + ToSet(ends) && |ends| != 1
    ensures t.reliable ==> |ends| == if guarded then 4 else 2
  {
    ends := [];
    var ok := Try(t);
    if !ok { return; }
    var read := t.Open();
    var write := t.Open();
    ends := [read, write];
    if !guarded { return; }
    ok := Try(t);
    if !ok {
      t.Close(read);
      t.Close(write);
      ends := [];
      return;
    }
    var parent := t.Open();
    var child := t.Open();
    ends := ends + [parent, child];
  }

  /** Descriptors that belong to nobody else can go without touching the guard, the root or the
      scratch. */
  method CloseBeside(t: Table, fds: seq<nat>, s: Scratch?, g: Guard?, tree: Option<Capability>, ghost rest: set<nat>)
    requires Checked(t, rest + ToSet(fds), g, tree) && rest !! ToSet(fds)
    requires ScratchValid(s, t) && ScratchHeld(s) <= rest
    requires forall i, j :: 0 <= i < j < |fds| ==> fds[i] != fds[j]
    modifies t`live
    ensures Checked(t, rest, g, tree) && ScratchValid(s, t)
    ensures ViewOf(s) == old(ViewOf(s)) && ScratchHeld(s) == old(ScratchHeld(s))
  {
    CloseFds(t, fds);
  }

  /** The same closing, seen from the scratch: it keeps what it owns. */
  method CloseOwned(t: Table, s: Scratch?, g: Guard?, tree: Option<Capability>, monitorAlive: bool, ghost rest: set<nat>)
    requires Checked(t, rest, g, tree) && ScratchValid(s, t) && ScratchHeld(s) <= rest && NotOf(g, tree, s)
    modifies GuardObjects(g), TreeObjects(tree), t`live
    ensures t.Valid() && ScratchValid(s, t)
    ensures ViewOf(s) == old(ViewOf(s)) && ScratchHeld(s) == old(ScratchHeld(s))
    ensures t.live == rest + Leak(tree, monitorAlive)
  {
    CloseRuntime(t, g, tree, monitorAlive, rest);
  }

  /** What a running child leaves in the table, on top of `before` and the scratch. */
  ghost predicate Up(t: Table, s: Scratch?, before: set<nat>, p: Running)
    reads t, s, ScratchParts(s), p.guard, if p.guard == null then {} else {p.guard.dir}, TreeObjects(p.tree)
  {
    && p.status !in before + ScratchHeld(s) && NotOf(p.guard, p.tree, s)
    && Checked(t, before + ScratchHeld(s) + {p.status}, p.guard, p.tree)
  }

  /** After bring-up: a good child is kept, and a failed one is given back with its status reader. */
  method KeepOrAbort(t: Table, s: Scratch?, p: Running, ok: bool, ghost before: set<nat>) returns (r: Option<Running>)
    requires Up(t, s, before, p) && ScratchValid(s, t)
    modifies GuardObjects(p.guard), TreeObjects(p.tree), t`live
    ensures t.Valid() && ScratchValid(s, t) && ViewOf(s) == old(ViewOf(s))
    ensures if ok then r == Some(p) && Up(t, s, before, p) else r == None && t.live == before + ScratchHeld(s)
  {
    if ok { return Some(p); }
    ghost var rest := before + ScratchHeld(s);
    assert ToSet([p.status]) == {p.status};
    CloseBeside(t, [p.status], s, p.guard, p.tree, rest);
    CloseOwned(t, s, p.guard, p.tree, false, rest);
    assert t.live == rest;
    r := None;
  }

  /** The parent drops its other ends, then keeps the child or gives it back. */
  method Settle(t: Table, s: Scratch?, p: Running, ok: bool, others: seq<nat>, ghost before: set<nat>)
    returns (r: Option<Running>)
    requires Checked(t, before + ScratchHeld(s) + {p.status} + ToSet(others), p.guard, p.tree)
    requires before + ScratchHeld(s) !! {p.status} !! ToSet(others)
    requires ScratchValid(s, t) && NotOf(p.guard, p.tree, s)
    requires forall i, j :: 0 <= i < j < |others| ==> others[i] != others[j]
    modifies GuardObjects(p.guard), TreeObjects(p.tree), t`live
    ensures t.Valid() && ScratchValid(s, t) && ViewOf(s) == old(ViewOf(s))
    ensures if ok then r == Some(p) && Up(t, s, before, p) else r == None && t.live == before + ScratchHeld(s)
  {
    CloseBeside(t, others, s, p.guard, p.tree, before + ScratchHeld(s) + {p.status});
    r := KeepOrAbort(t, s, p, ok, before);
  }

  /** Once the pipes are there: the child is running, or everything but what the scratch gained is
      given back. `others` are the ends the parent drops. */
  method StartChild(t: Table, s: Scratch?, status: nat, others: seq<nat>, ghost before: set<nat>)
    returns (p: Option<Running>)
    requires t.Valid() && ScratchValid(s, t) && ScratchHeld(s) <= before
    requires t.live == before + {status} + ToSet(others) && before !! {status} !! ToSet(others)
    requires forall i, j :: 0 <= i < j < |others| ==> others[i] != others[j]
    modifies t, s
    ensures t.Valid() && t.next >= old(t.next) && ScratchValid(s, t)
    ensures OnlyGained(old(ViewOf(s)), ViewOf(s), old(t.next))
    ensures fresh(ScratchParts(s) - old(ScratchParts(s)))
    ensures p == None ==> t.live == before + ScratchHeld(s)
    ensures p.Some? ==> Up(t, s, before, p.value)
    ensures p.Some? ==> fresh(GuardObjects(p.value.guard)) && fresh(TreeObjects(p.value.tree))
    ensures t.reliable && old(Unused(s)) ==> p.Some?
    ensures p.Some? ==> (p.value.tree.Some? <==> s != null)
  {
    var g, tree, ok := BringUp(t, s);
    assert before + {status} + ToSet(others) + ScratchHeld(s) == before + ScratchHeld(s) + {status} + ToSet(others);
    p := Settle(t, s, Running(status, g, tree), ok, others, before);
  }

  /** `_start_process` around the spawn. */
  method Spawn(t: Table, s: Scratch?) returns (p: Option<Running>)
    requires t.Valid() && ScratchValid(s, t) && ScratchHeld(s) <= t.live
    modifies t, s
    ensures t.Valid() && t.next >= old(t.next) && ScratchValid(s, t)
    ensures OnlyGained(old(ViewOf(s)), ViewOf(s), old(t.next))
    ensures fresh(ScratchParts(s) - old(ScratchParts(s)))
    ensures p == None ==> t.live == old(t.live) + ScratchHeld(s)
    ensures p.Some? ==> Up(t, s, old(t.live), p.value)
    ensures p.Some? ==> fresh(GuardObjects(p.value.guard)) && fresh(TreeObjects(p.value.tree))
    ensures t.reliable && old(Unused(s)) ==> p.Some?
    ensures p.Some? ==> (p.value.tree.Some? <==> s != null)
  {
    p := None;
    var ends := OpenEnds(t, s != null);
    var spawned := Try(t);
    if ends == [] || !spawned {
      CloseFds(t, ends);
    } else {
      assert ToSet(ends) == {ends[0]} + ToSet(ends[1..]);
      p := StartChild(t, s, ends[0], ends[1..], old(t.live));
    }
  }

  // ----- The whole run ---------------------------------------------------------------------------

  /** The table is `rest`, what the request's capabilities hold, and what the scratch holds. */
  ghost predicate Around(t: Table, q: Request, rest: set<nat>)
    reads t, q, q.Parts(), q.scratch, ScratchParts(q.scratch), if q.scratch == null then {} else {q.scratch.source}
  {
    && t.Valid() && q.Valid(t)
    && rest !! HeldBy(q.Parts()) !! ScratchHeld(q.scratch)
    && t.live == rest + HeldBy(q.Parts()) + ScratchHeld(q.scratch)
  }

  method CloseScratch(t: Table, s: Scratch?, ghost rest: set<nat>)
    requires t.Valid() && ScratchValid(s, t) && rest !! ScratchHeld(s) && t.live == rest + ScratchHeld(s)
    modifies s, ScratchParts(s), t`live
    ensures t.Valid() && ScratchValid(s, t) && ScratchHeld(s) == {} && t.live == rest
    ensures ScratchParts(s) <= old(ScratchParts(s))
  {
    if s != null { s.Close(t); }
  }

  /** Whatever the scratch gained is a new object on a new descriptor. */
  twostate predicate Gained(t: Table, s: Scratch?)
    reads t, s
  {
    && t.next >= old(t.next)
    && fresh(ScratchParts(s) - old(ScratchParts(s)))
    && forall c :: c in ScratchParts(s) ==> c in old(ScratchParts(s)) || old(t.next) <= c.d
  }

  /** The spawn; when it fails, the scratch is closed at once. */
  method SpawnOrClose(t: Table, s: Scratch?, ghost before: set<nat>) returns (p: Option<Running>)
    requires t.Valid() && ScratchValid(s, t) && before !! ScratchHeld(s) && t.live == before + ScratchHeld(s)
    modifies t, s, ScratchParts(s)
    ensures t.Valid() && ScratchValid(s, t) && Gained(t, s)
    ensures p == None ==> t.live == before && ScratchHeld(s) == {}
    ensures p.Some? ==> Up(t, s, before, p.value) && before !! ScratchHeld(s)
    ensures p.Some? ==> fresh(GuardObjects(p.value.guard)) && fresh(TreeObjects(p.value.tree))
    ensures t.reliable && old(Unused(s)) ==> p.Some?
    ensures p.Some? ==> (p.value.tree.Some? <==> s != null)
  {
    p := Spawn(t, s);
    if p == None {
      CloseScratch(t, s, before);
    } else {
      assert before + old(ScratchHeld(s)) + ScratchHeld(s) == before + ScratchHeld(s);
    }
  }

  /** The launch capabilities are closed; a tree that the request owns itself stays as it is. */
  method CloseLaunched(t: Table, q: Request)
    requires t.Valid() && q.Valid(t)
    modifies t`live, ToSet(q.launched)
    ensures t.Valid() && q.Valid(t) && forall c :: c in q.launched ==> c.closed
    ensures HeldBy(q.Parts()) <= old(HeldBy(q.Parts()))
    ensures t.live == old(t.live) - (old(HeldBy(q.Parts())) - HeldBy(q.Parts()))
  {
    CloseAll(t, q.launched);
    assert old(HeldBy(q.Parts())) - HeldBy(q.Parts()) == old(HeldBy(ToSet(q.launched)));
  }

  /** The same closing leaves a running child as it was. */
  method CloseUnder(t: Table, q: Request, p: Running, ghost rest: set<nat>)
    requires q.Valid(t) && rest !! HeldBy(q.Parts())
    requires Up(t, q.scratch, rest + HeldBy(q.Parts()), p) && rest + HeldBy(q.Parts()) !! ScratchHeld(q.scratch)
    requires q.Parts() !! TreeObjects(p.tree) && (p.guard != null ==> p.guard.dir !in q.Parts())
    modifies t`live, ToSet(q.launched)
    ensures t.Valid() && q.Valid(t) && (forall c :: c in q.launched ==> c.closed)
    ensures HeldBy(q.Parts()) <= old(HeldBy(q.Parts()))
    ensures Up(t, q.scratch, rest + HeldBy(q.Parts()), p) && rest !! HeldBy(q.Parts()) !! ScratchHeld(q.scratch)
  {
    CloseLaunched(t, q);
  }

  method CloseIdle(t: Table, q: Request, ghost rest: set<nat>)
    requires t.Valid() && q.Valid(t) && rest !! HeldBy(q.Parts())
    requires t.live == rest + HeldBy(q.Parts()) && ScratchHeld(q.scratch) == {}
    modifies t`live, ToSet(q.launched)
    ensures t.Valid() && q.Valid(t) && (forall c :: c in q.launched ==> c.closed) && ScratchHeld(q.scratch) == {}
    ensures HeldBy(q.Parts()) <= old(HeldBy(q.Parts())) && t.live == rest + HeldBy(q.Parts())
  {
    CloseLaunched(t, q);
  }

  /** `_start_process`: whatever happens, the launch capabilities are closed at the end. */
  method Start(t: Table, q: Request, ghost rest: set<nat>) returns (p: Option<Running>)
    requires Around(t, q, rest)
    modifies t, ToSet(q.launched), q.scratch, ScratchParts(q.scratch)
    ensures t.Valid() && q.Valid(t) && (forall c :: c in q.launched ==> c.closed)
    ensures HeldBy(q.Parts()) <= old(HeldBy(q.Parts())) && rest !! HeldBy(q.Parts()) !! ScratchHeld(q.scratch)
    ensures Gained(t, q.scratch)
    ensures p == None ==> t.live == rest + HeldBy(q.Parts()) && ScratchHeld(q.scratch) == {}
    ensures p.Some? ==> Up(t, q.scratch, rest + HeldBy(q.Parts()), p.value)
    ensures p.Some? ==> fresh(GuardObjects(p.value.guard)) && fresh(TreeObjects(p.value.tree))
    ensures t.reliable && old(Unused(q.scratch)) ==> p.Some?
    ensures p.Some? ==> (p.value.tree.Some? <==> q.scratch != null)
  {
    p := SpawnOrClose(t, q.scratch, rest + HeldBy(q.Parts()));
    if p.Some? { CloseUnder(t, q, p.value, rest); } else { CloseIdle(t, q, rest); }
  }

  /** `_cleanup_process`, for what the child itself added. */
  method Stop(t: Table, s: Scratch?, p: Running, monitorAlive: bool, ghost rest: set<nat>) returns (ghost leak: Option<nat>)
    requires Up(t, s, rest, p) && ScratchValid(s, t)
    modifies GuardObjects(p.guard), TreeObjects(p.tree), t`live
    ensures t.Valid() && ScratchValid(s, t)
    ensures ViewOf(s) == old(ViewOf(s)) && ScratchHeld(s) == old(ScratchHeld(s))
    ensures leak.Some? <==> monitorAlive && p.tree.Some?
    ensures leak.Some? ==> leak.value !in rest + ScratchHeld(s)
    ensures t.live == rest + ScratchHeld(s) + Fd(leak)
  {
    leak := if monitorAlive && p.tree.Some? then Some(p.tree.value.d) else None;
    assert ToSet([p.status]) == {p.status};
    CloseBeside(t, [p.status], s, p.guard, p.tree, rest + ScratchHeld(s));
    CloseOwned(t, s, p.guard, p.tree, monitorAlive, rest + ScratchHeld(s));
  }

  /** `_release`: what the request still holds is closed, and the scratch's source with it. */
  method Release(t: Table, q: Request, ghost before: set<nat>)
    requires t.Valid() && q.Valid(t) && before !! HeldBy(q.Parts()) !! ScratchHeld(q.scratch)
    requires t.live == before + HeldBy(q.Parts()) + ScratchHeld(q.scratch)
    modifies q`closed, q.Parts(), q.scratch, ScratchParts(q.scratch), t`live
    ensures t.Valid() && q.Valid(t) && q.closed && HeldBy(q.Parts()) == {}
    ensures ScratchParts(q.scratch) == old(ScratchParts(q.scratch))
    ensures before !! ScratchHeld(q.scratch) && t.live == before + ScratchHeld(q.scratch)
  {
    q.Drop(t);
    assert old(ScratchHeld(q.scratch)) - old(SourceHeld(q.scratch)) == ScratchHeld(q.scratch);
    q.closed := true;
  }

  /** A monitor that outlived its join may still use the tree that the request owns: it is leaked. */
  method AbandonTree(t: Table, q: Request) returns (ghost leak: Option<nat>)
    requires t.Valid() && q.Valid(t) && q.tree != []
    modifies q.tree[0]
    ensures t.Valid() && q.Valid(t) && HeldBy(q.Parts()) == old(HeldBy(q.Parts())) - Fd(leak)
    ensures Fd(leak) <= old(HeldBy(q.Parts()))
  {
    leak := if q.tree[0].closed then None else Some(q.tree[0].d);
    q.tree[0].Abandon();
  }

  /** `_cleanup_process`: the child is stopped, and the tree the monitor was given is not closed under
      it -- the scratch's root if there is one, and otherwise the request's own. */
  method StopAll(t: Table, q: Request, p: Running, monitorAlive: bool, ghost rest: set<nat>)
    returns (ghost leak: Option<nat>)
    requires q.Valid(t) && Up(t, q.scratch, rest + HeldBy(q.Parts()), p)
    requires rest !! HeldBy(q.Parts()) !! ScratchHeld(q.scratch)
    requires q.Parts() !! TreeObjects(p.tree) && (p.guard != null ==> p.guard.dir !in q.Parts())
    modifies GuardObjects(p.guard), TreeObjects(p.tree), t`live, ToSet(q.tree)
    ensures t.Valid() && q.Valid(t) && ViewOf(q.scratch) == old(ViewOf(q.scratch))
    ensures ScratchHeld(q.scratch) == old(ScratchHeld(q.scratch))
    ensures (leak.Some? ==> monitorAlive) && rest !! HeldBy(q.Parts()) !! Fd(leak) !! ScratchHeld(q.scratch)
    ensures t.live == rest + HeldBy(q.Parts()) + Fd(leak) + ScratchHeld(q.scratch)
    ensures q.tree == [] ==> (leak.Some? <==> monitorAlive && p.tree.Some?)
  {
    leak := StopChild(t, q, p, monitorAlive, rest);
    if monitorAlive && p.tree == None && q.tree != [] { leak := LeakTree(t, q, rest); }
  }

  /** The stop, seen from the request: it keeps what it owns. */
  method StopChild(t: Table, q: Request, p: Running, monitorAlive: bool, ghost rest: set<nat>)
    returns (ghost leak: Option<nat>)
    requires q.Valid(t) && Up(t, q.scratch, rest + HeldBy(q.Parts()), p)
    requires rest !! HeldBy(q.Parts()) !! ScratchHeld(q.scratch)
    requires q.Parts() !! TreeObjects(p.tree) && (p.guard != null ==> p.guard.dir !in q.Parts())
    modifies GuardObjects(p.guard), TreeObjects(p.tree), t`live
    ensures t.Valid() && q.Valid(t) && ViewOf(q.scratch) == old(ViewOf(q.scratch))
    ensures ScratchHeld(q.scratch) == old(ScratchHeld(q.scratch))
    ensures leak.Some? <==> monitorAlive && p.tree.Some?
    ensures rest !! HeldBy(q.Parts()) !! Fd(leak) !! ScratchHeld(q.scratch)
    ensures t.live == rest + HeldBy(q.Parts()) + Fd(leak) + ScratchHeld(q.scratch)
  {
    leak := Stop(t, q.scratch, p, monitorAlive, rest + HeldBy(q.Parts()));
  }

  method LeakTree(t: Table, q: Request, ghost rest: set<nat>) returns (ghost leak: Option<nat>)
    requires t.Valid() && q.Valid(t) && q.tree != [] && rest !! HeldBy(q.Parts()) !! ScratchHeld(q.scratch)
    requires t.live == rest + HeldBy(q.Parts()) + ScratchHeld(q.scratch)
    modifies q.tree[0]
    ensures t.Valid() && q.Valid(t) && ViewOf(q.scratch) == old(ViewOf(q.scratch))
    ensures ScratchHeld(q.scratch) == old(ScratchHeld(q.scratch))
    ensures rest !! HeldBy(q.Parts()) !! Fd(leak) !! ScratchHeld(q.scratch)
    ensures t.live == rest + HeldBy(q.Parts()) + Fd(leak) + ScratchHeld(q.scratch)
  {
    assert q.tree[0] in ToSet(q.tree) && q.tree[0] in q.Parts();
    leak := AbandonTree(t, q);
  }

  /** A run that did not start leaks nothing; one of an evaluator leaks exactly under a surviving monitor. */
  ghost predicate Outcome(ran: bool, leak: Option<nat>, q: Request, monitorAlive: bool) {
    (!ran ==> leak == None) && (q.tree == [] && ran ==> (leak.Some? <==> monitorAlive && q.scratch != null))
  }

  /** `_run_process_owned`: start, and stop whatever was started. */
  method RunOwned(t: Table, q: Request, monitorAlive: bool, ghost rest: set<nat>)
    returns (ran: bool, ghost leak: Option<nat>)
    requires Around(t, q, rest)
    modifies t, q.Parts(), q.scratch, ScratchParts(q.scratch)
    ensures t.Valid() && q.Valid(t) && Gained(t, q.scratch)
    ensures (leak.Some? ==> monitorAlive) && rest !! HeldBy(q.Parts()) !! Fd(leak) !! ScratchHeld(q.scratch)
    ensures t.live == rest + HeldBy(q.Parts()) + Fd(leak) + ScratchHeld(q.scratch)
    ensures Outcome(ran, leak, q, monitorAlive) && (t.reliable && old(Unused(q.scratch)) ==> ran)
  {
    leak := None;
    var p := Start(t, q, rest);
    ran := p.Some?;
    if ran { leak := StopAll(t, q, p.value, monitorAlive, rest); }
  }

  /** `_run_process`: a request that was not yet used is claimed, run and released. Nothing but the
      leak of a surviving monitor, and what the scratch now retains, is added to `rest`. */
  method RunRequest(t: Table, q: Request, monitorAlive: bool, ghost rest: set<nat>)
    returns (ran: bool, ghost leak: Option<nat>)
    requires Around(t, q, rest) && !q.consumed && !q.closed
    modifies t, q, q.Parts(), q.scratch, ScratchParts(q.scratch)
    ensures t.Valid() && q.Valid(t) && q.consumed && q.closed && HeldBy(q.Parts()) == {}
    ensures Gained(t, q.scratch)
    ensures (leak.Some? ==> monitorAlive) && rest !! Fd(leak) !! ScratchHeld(q.scratch)
    ensures t.live == rest + Fd(leak) + ScratchHeld(q.scratch)
    ensures Outcome(ran, leak, q, monitorAlive) && (t.reliable && old(Unused(q.scratch)) ==> ran)
  {
    q.consumed := true;
    ran, leak := RunOwned(t, q, monitorAlive, rest);
    Release(t, q, rest + Fd(leak));
  }

  /** Runs the request a launch made, then closes the launch. */
  method RunAndClose(t: Table, l: Launch, q: Request, monitorAlive: bool, ghost rest: set<nat>)
    returns (ran: bool, ghost leak: Option<nat>)
    requires l.Valid(t) && q.scratch == l.scratch && q.tree == [] && !q.consumed && !q.closed && !l.closed
    requires Around(t, q, rest) && HeldBy(l.Parts()) == {} && l.Parts() !! q.Parts()
    modifies t, l, l.Parts(), q, q.Parts(), l.scratch, ScratchParts(l.scratch)
    ensures t.Valid() && l.closed && (leak.Some? ==> monitorAlive) && t.live == rest + Fd(leak)
    ensures Outcome(ran, leak, q, monitorAlive) && (t.reliable && old(Unused(l.scratch)) ==> ran)
  {
    ran, leak := RunRequest(t, q, monitorAlive, rest);
    assert l.Valid(t);
    l.Close(t);
  }

  /** One evaluator launch, from its unused state to the end: the request is made, run and released
      and the launch is closed. With any call failing anywhere, exactly what the launch and its
      scratch owned has left the table, every descriptor opened on the way is closed again -- each
      once, since `Table.Close` accepts only live ones -- and only a monitor that outlived its join
      leaves one descriptor behind. */
  method RunLaunch(t: Table, l: Launch, monitorAlive: bool) returns (ran: bool, ghost leak: Option<nat>)
    requires t.Valid() && l.Valid(t) && !l.consumed && !l.closed
    modifies t, l, l.Parts(), l.scratch, ScratchParts(l.scratch)
    ensures t.Valid() && l.closed
    ensures (leak.Some? <==> ran && monitorAlive && l.scratch != null) && (ran ==> l.Disjoint())
    ensures t.reliable && old(l.AllOpen()) && l.Disjoint() && l.Shallow() && old(Unused(l.scratch)) ==> ran
    ensures t.live == old(t.live) - old(HeldBy(l.Parts())) - old(ScratchHeld(l.scratch)) + Fd(leak)
  {
    ghost var rest := t.live - HeldBy(l.Parts()) - ScratchHeld(l.scratch);
    var r := l.ProcessRequest(t);
    if r.Some? {
      ran, leak := RunAndClose(t, l, r.value, monitorAlive, rest);
    } else {
      ran, leak := false, None;
      l.Close(t);
    }
  }
}
