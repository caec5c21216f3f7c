/** Who owns each descriptor from a sandbox launch, through its process request, the evaluator
    handshake and the run, to the last close. */
module Ownership {
  import opened Seqs
  import opened Capabilities

  /** `EvaluatorScratch`: the pinned source of the applied tree, and the retained terminal root. */
  class Scratch {
    const source: Capability
    var terminal: Option<Capability>
    var seedReleased: bool
    var closed: bool

    ghost function Parts(): (r: set<Capability>)
      reads this
    {
      {source} + (if terminal.Some? then {terminal.value} else {})
    }

    ghost function Held(): (r: set<nat>)
      reads this, Parts()
    {
      HeldBy(Parts())
    }

    ghost predicate Valid(t: Table)
      reads this, t, source, Parts()
    {
      && AllOwn(Parts(), t) && Apart(Parts())
      && (terminal.Some? ==> terminal.value != source)
      && (seedReleased ==> source.closed)
      && (closed ==> seedReleased && terminal == None)
    }

    constructor (t: Table, source: Capability)
      requires t.Valid() && source.Owns(t)
      ensures Valid(t) && this.source == source && terminal == None && !seedReleased && !closed
    {
      this.source, terminal, seedReleased, closed := source, None, false, false;
    }

    method ReleaseSource(t: Table)
      requires t.Valid() && Valid(t)
      modifies this`seedReleased, source, t`live
      ensures t.Valid() && Valid(t) && seedReleased && source.closed
      ensures t.live == old(t.live) - old(source.Held())
    {
      if seedReleased { return; }
      seedReleased := true;
      source.Close(t);
    }

    method AdoptTerminal(t: Table, c: Capability) returns (ok: bool)
      requires t.Valid() && Valid(t) && c.Owns(t) && !c.closed
      requires forall p :: p in Parts() ==> p.d != c.d
      modifies this`terminal, c, t`live
      ensures t.Valid() && Valid(t)
      ensures ok <==> old(!closed && terminal == None)
      ensures ok ==> terminal == Some(c) && !c.closed && t.live == old(t.live)
      ensures !ok ==> terminal == old(terminal) && t.live == old(t.live) - {c.d}
    {
      if closed || terminal.Some? {
        c.Close(t);
        return false;
      }
      terminal := Some(c);
      return true;
    }

    method Close(t: Table)
      requires t.Valid() && Valid(t)
      modifies this, Parts(), t`live
      ensures t.Valid() && Valid(t) && closed && terminal == None && source.closed
      ensures t.live == old(t.live) - old(Held())
    {
      if closed { return; }
      closed := true;
      var last := terminal;
      terminal := None;
      var released := seedReleased;
      seedReleased := true;
      if !released { source.Close(t); }
      if last.Some? { last.value.Close(t); }
    }
  }

  ghost function ScratchParts(s: Scratch?): (r: set<Capability>)
    reads s
  {
    if s == null then {} else s.Parts()
  }

  /** What a request gives back when it releases the scratch's source. */
  ghost function SourceHeld(s: Scratch?): (r: set<nat>)
    reads s, if s == null then {} else {s.source}
  {
    if s == null then {} else s.source.Held()
  }

  ghost predicate ScratchValid(s: Scratch?, t: Table)
    reads s, t, ScratchParts(s), if s == null then {} else {s.source}
  {
    s != null ==> s.Valid(t)
  }

  /** Capabilities that share no object and no descriptor with the scratch. */
  ghost predicate Beside(parts: set<Capability>, s: Scratch?)
    reads s
  {
    Apart(parts + ScratchParts(s)) && parts !! ScratchParts(s)
  }

  /** Releasing the source leaves the scratch valid and its terminal root alone. */
  twostate predicate SourceReleased(s: Scratch?, t: Table)
    reads s, t, ScratchParts(s), if s == null then {} else {s.source}
  {
    s != null ==>
      && s.Valid(t) && s.source.closed && s.terminal == old(s.terminal)
      && (s.terminal.Some? ==> s.terminal.value.closed == old(s.terminal.value.closed))
  }

  /** All of `parts` and the scratch's source are closed, and exactly what they held has gone from
      `before`. */
  twostate predicate GivenBack(t: Table, parts: set<Capability>, s: Scratch?, before: set<nat>)
    reads t, parts, s, ScratchParts(s), if s == null then {} else {s.source}
  {
    && (forall c :: c in parts ==> c.closed)
    && t.live == before - old(HeldBy(parts)) - old(SourceHeld(s))
    && SourceReleased(s, t)
  }

  /** What every way of finishing or refusing a request closes. */
  method DropParts(t: Table, parts: seq<Capability>, scratch: Scratch?)
    requires t.Valid() && AllOwn(ToSet(parts), t) && Apart(ToSet(parts))
    requires ScratchValid(scratch, t) && Beside(ToSet(parts), scratch)
    modifies ToSet(parts), t`live, scratch, ScratchParts(scratch)
    ensures t.Valid() && AllOwn(ToSet(parts), t) && GivenBack(t, ToSet(parts), scratch, old(t.live))
  {
    CloseAll(t, parts);
    if scratch != null { scratch.ReleaseSource(t); }
  }

  /** `ProcessRequest`: what is handed to the child, the tree to score, and a borrowed scratch. */
  class Request {
    const launched: seq<Capability>
    const tree: seq<Capability>
    const scratch: Scratch?
    var consumed: bool
    var closed: bool

    ghost function Parts(): (r: set<Capability>) { ToSet(launched) + ToSet(tree) }

    ghost predicate Valid(t: Table)
      reads this, t, Parts(), scratch, ScratchParts(scratch), if scratch == null then {} else {scratch.source}
    {
      && AllOwn(Parts(), t) && Apart(Parts())
      && ScratchValid(scratch, t) && Beside(Parts(), scratch)
    }

    constructor (t: Table, launched: seq<Capability>, tree: seq<Capability>, scratch: Scratch?)
      requires AllOwn(ToSet(launched + tree), t) && Apart(ToSet(launched + tree))
      requires ScratchValid(scratch, t) && Beside(ToSet(launched + tree), scratch)
      ensures this.launched == launched && this.tree == tree && this.scratch == scratch
      ensures !consumed && !closed && Valid(t)
    {
      this.launched, this.tree, this.scratch := launched, tree, scratch;
      consumed, closed := false, false;
      assert ToSet(launched + tree) == ToSet(launched) + ToSet(tree);
    }

    method Drop(t: Table)
      requires t.Valid() && Valid(t)
      modifies Parts(), t`live, scratch, ScratchParts(scratch)
      ensures t.Valid() && Valid(t) && GivenBack(t, Parts(), scratch, old(t.live))
    {
      assert ToSet(launched + tree) == Parts();
      DropParts(t, launched + tree, scratch);
    }

    /** `close` does nothing to a request that was consumed: its run releases it. */
    method Close(t: Table)
      requires t.Valid() && Valid(t)
      modifies this`closed, Parts(), t`live, scratch, ScratchParts(scratch)
      ensures t.Valid() && Valid(t)
      ensures old(closed || consumed) ==> t.live == old(t.live)
      ensures old(!closed && !consumed) ==>
        t.live == old(t.live) - old(HeldBy(Parts())) - old(SourceHeld(scratch))
    {
      if closed || consumed { return; }
      closed := true;
      Drop(t);
    }
  }

  /** `all` is `part` and then newly made capabilities. */
  ghost predicate Extends(all: seq<Capability>, part: seq<Capability>, t: Table, base: nat)
    reads t, ToSet(all)
  {
    part <= all && Batch(all[|part|..], t, base)
  }

  twostate predicate Untouched(parts: set<Capability>, s: Scratch?)
    reads s, parts, ScratchParts(s)
  {
    && (forall c :: c in parts ==> c.closed == old(c.closed))
    && (s != null ==>
      && s.terminal == old(s.terminal) && s.seedReleased == old(s.seedReleased) && s.closed == old(s.closed)
      && forall c :: c in s.Parts() ==> c.closed == old(c.closed))
  }

  lemma NewBesideOld(existing: set<Capability>, made: set<Capability>, base: nat)
    requires Apart(existing) && Apart(made)
    requires (forall c :: c in existing ==> c.d < base) && forall c :: c in made ==> base <= c.d
    ensures Apart(existing + made) && existing !! made
  {
  }

  lemma RequestParts(
      t: Table, owned: seq<Capability>, hosts: seq<Capability>, tree: seq<Capability>, scratch: Scratch?, base: nat)
    requires AllOwn(ToSet(owned + tree), t) && Apart(ToSet(owned + tree))
    requires ScratchValid(scratch, t) && Beside(ToSet(owned + tree), scratch) && Batch(hosts, t, base)
    requires forall c :: c in ToSet(owned + tree) + ScratchParts(scratch) ==> c.d < base
    ensures AllOwn(ToSet(owned + hosts + tree), t) && Apart(ToSet(owned + hosts + tree))
    ensures Beside(ToSet(owned + hosts + tree), scratch)
  {
    assert ToSet(owned + hosts + tree) == ToSet(owned + tree) + ToSet(hosts);
    NewBesideOld(ToSet(owned + tree) + ScratchParts(scratch), ToSet(hosts), base);
    assert ToSet(owned + tree) + ToSet(hosts) + ScratchParts(scratch)
        == ToSet(owned + tree) + ScratchParts(scratch) + ToSet(hosts);
  }

  /** The request a transfer makes from what it took over and the host executables it added. */
  ghost predicate Transferred(
      q: Request, t: Table, owned: seq<Capability>, tree: seq<Capability>, scratch: Scratch?, base: nat,
      before: set<nat>)
    reads q, t, q.Parts(), scratch, ScratchParts(scratch), if scratch == null then {} else {scratch.source}
  {
    && q.scratch == scratch && q.tree == tree && q.Valid(t) && !q.consumed && !q.closed
    && Extends(q.launched, owned, t, base) && t.live == before + Ids(q.launched[|owned|..])
  }

  method Assemble(t: Table, owned: seq<Capability>, hosts: seq<Capability>, tree: seq<Capability>,
                  scratch: Scratch?, ghost base: nat, ghost before: set<nat>) returns (q: Request)
    requires AllOwn(ToSet(owned + tree), t) && Apart(ToSet(owned + tree))
    requires ScratchValid(scratch, t) && Beside(ToSet(owned + tree), scratch) && Batch(hosts, t, base)
    requires forall c :: c in ToSet(owned + tree) + ScratchParts(scratch) ==> c.d < base
    requires t.live == before + Ids(hosts)
    ensures fresh(q) && q.launched == owned + hosts
    ensures Transferred(q, t, owned, tree, scratch, base, before)
  {
    RequestParts(t, owned, hosts, tree, scratch, base);
    q := new Request(t, owned + hosts, tree, scratch);
    assert q.launched[|owned|..] == hosts;
  }

  /** The failure path of the transfer. */
  method Refuse(t: Table, hosts: seq<Capability>, parts: seq<Capability>, scratch: Scratch?,
                ghost before: set<nat>, ghost base: nat)
    requires t.Valid() && AllOwn(ToSet(parts), t) && Apart(ToSet(parts))
    requires ScratchValid(scratch, t) && Beside(ToSet(parts), scratch)
    requires Batch(hosts, t, base) && t.live == before + Ids(hosts) && forall d :: d in before ==> d < base
    requires forall c :: c in ToSet(parts) + ScratchParts(scratch) ==> c.d < base
    modifies ToSet(hosts), ToSet(parts), t`live, scratch, ScratchParts(scratch)
    ensures t.Valid() && GivenBack(t, ToSet(parts), scratch, before)
  {
    CloseBatch(t, hosts, before, base);
    DropParts(t, parts, scratch);
  }

  /** The host executables, beside everything that is already owned. */
  method AcquireHosts(t: Table, parts: seq<Capability>, scratch: Scratch?) returns (hosts: seq<Capability>, ok: bool)
    requires t.Valid() && AllOwn(ToSet(parts), t) && Apart(ToSet(parts))
    requires ScratchValid(scratch, t) && Beside(ToSet(parts), scratch)
    modifies t
    ensures t.Valid() && t.next >= old(t.next)
    ensures AllOwn(ToSet(parts), t) && ScratchValid(scratch, t) && Untouched(ToSet(parts), scratch)
    ensures Batch(hosts, t, old(t.next)) && t.live == old(t.live) + Ids(hosts) && forall c :: c in hosts ==> fresh(c)
    ensures (forall d :: d in old(t.live) ==> d < old(t.next))
    ensures forall c :: c in ToSet(parts) + ScratchParts(scratch) ==> c.d < old(t.next)
    ensures t.reliable ==> ok
  {
    hosts, ok := AcquireEach(t, if scratch == null then 2 else 3);
  }

  /** `_from_owned_capabilities`: takes over `owned` and `tree`, adds the host executables, and on
      any failure closes everything it was given and everything it made. */
  method FromOwned(t: Table, owned: seq<Capability>, tree: seq<Capability>, scratch: Scratch?)
    returns (r: Option<Request>)
    requires t.Valid() && AllOwn(ToSet(owned + tree), t) && Apart(ToSet(owned + tree))
    requires ScratchValid(scratch, t) && Beside(ToSet(owned + tree), scratch)
    modifies t, ToSet(owned + tree), scratch, ScratchParts(scratch)
    ensures t.Valid() && t.next >= old(t.next)
    ensures r.None? ==> GivenBack(t, ToSet(owned + tree), scratch, old(t.live))
    ensures r.Some? ==>
      fresh(r.value) && Transferred(r.value, t, owned, tree, scratch, old(t.next), old(t.live))
    ensures r.Some? ==> forall c :: c in r.value.launched[|owned|..] ==> fresh(c)
    ensures r.Some? ==> Untouched(ToSet(owned + tree), scratch)
    ensures t.reliable ==> r.Some?
  {
    var hosts, ok := AcquireHosts(t, owned + tree, scratch);
    var checked := Try(t); // the request validates its own fields
    if ok && checked {
      var q := Assemble(t, owned, hosts, tree, scratch, old(t.next), old(t.live));
      r := Some(q);
    } else {
      Refuse(t, hosts, owned + tree, scratch, old(t.live), old(t.next));
      r := None;
    }
  }

  // ----- The launch ------------------------------------------------------------------------------

  /** Everything the scratch still owns. */
  ghost function ScratchHeld(s: Scratch?): (r: set<nat>)
    reads s, ScratchParts(s)
  {
    HeldBy(ScratchParts(s))
  }

  /** `SandboxLaunch`: the one-shot owner of every descriptor one sandbox run starts from. */
  class Launch {
    const base: seq<Capability> // the sandbox executable and the working directory
    const mounts: seq<Capability>
    const roots: seq<Capability>
    const scratch: Scratch?
    const lineage: (nat, nat) -> Lineage // where the second of two roots lies, seen from the first
    var consumed: bool
    var closed: bool

    ghost function Parts(): (r: set<Capability>) { ToSet(base + mounts + roots) }

    ghost predicate AllOpen()
      reads Parts()
    {
      forall c :: c in Parts() ==> !c.closed
    }

    /** No root lies inside another. */
    ghost predicate Disjoint() {
      forall i, j :: 0 <= i < |roots| && 0 <= j < |roots| && i != j ==> lineage(i, j).Outside?
    }

    /** No root lies deeper than a climb may go. */
    ghost predicate Shallow() {
      forall i, j :: 0 <= i < |roots| && 0 <= j < |roots| && i != j ==> lineage(i, j).Within(4096)
    }

    ghost predicate Valid(t: Table)
      reads this, t, Parts(), scratch, ScratchParts(scratch), if scratch == null then {} else {scratch.source}
    {
      && AllOwn(Parts(), t) && Apart(Parts())
      && ScratchValid(scratch, t) && Beside(Parts(), scratch)
    }

    constructor (t: Table, base: seq<Capability>, mounts: seq<Capability>, roots: seq<Capability>, scratch: Scratch?,
                 lineage: (nat, nat) -> Lineage)
      requires AllOwn(ToSet(base + mounts + roots), t) && Apart(ToSet(base + mounts + roots))
      requires ScratchValid(scratch, t) && Beside(ToSet(base + mounts + roots), scratch)
      ensures Valid(t) && !consumed && !closed
      ensures this.base == base && this.mounts == mounts && this.roots == roots && this.scratch == scratch
      ensures this.lineage == lineage
    {
      this.base, this.mounts, this.roots, this.scratch, this.lineage := base, mounts, roots, scratch, lineage;
      consumed, closed := false, false;
    }

    /** Every pair of source roots is compared; each comparison gives back what it opened. Roots that
        pass are disjoint, and disjoint ones pass unless a call failed or a climb was too long. */
    method ValidateOverlapRoots(t: Table) returns (ok: bool)
      requires t.Valid() && AllOwn(ToSet(roots), t)
      modifies t
      ensures t.Valid() && t.next >= old(t.next) && t.live == old(t.live)
      ensures ok ==> Disjoint()
      ensures t.reliable && Disjoint() && Shallow() && (forall c :: c in roots ==> !c.closed) ==> ok
    {
      for i := 0 to |roots|
        invariant t.Valid() && t.next >= old(t.next) && t.live == old(t.live) && AllOwn(ToSet(roots), t)
        invariant forall a, b :: 0 <= a < i && a < b < |roots| ==> lineage(a, b).Outside? && lineage(b, a).Outside?
      {
        for j := i + 1 to |roots|
          invariant t.Valid() && t.next >= old(t.next) && t.live == old(t.live) && AllOwn(ToSet(roots), t)
          invariant forall b :: i < b < j ==> lineage(i, b).Outside? && lineage(b, i).Outside?
        {
          var apart := ComparePair(t, i, j);
          if !apart { return false; }
        }
      }
      ok := true;
    }

    /** `capabilities_overlap`: either one may lie inside the other. */
    method ComparePair(t: Table, i: nat, j: nat) returns (apart: bool)
      requires t.Valid() && AllOwn(ToSet(roots), t) && i < j < |roots|
      modifies t
      ensures t.Valid() && t.next >= old(t.next) && t.live == old(t.live)
      ensures apart ==> lineage(i, j).Outside? && lineage(j, i).Outside?
      ensures t.reliable && Disjoint() && Shallow() && (forall c :: c in roots ==> !c.closed) ==> apart
    {
      assert roots[i] in ToSet(roots) && roots[j] in ToSet(roots);
      var down := IsAncestor(t, roots[j], lineage(i, j));
      if down != Some(false) { return false; }
      var up := IsAncestor(t, roots[i], lineage(j, i));
      apart := up == Some(false);
    }

    /** Gives up everything the launch owns. */
    method GiveUp(t: Table)
      requires t.Valid() && Valid(t)
      modifies this`closed, t`live, Parts(), scratch, ScratchParts(scratch)
      ensures t.Valid() && Valid(t) && closed && forall c :: c in Parts() ==> c.closed
      ensures t.live == old(t.live) - old(HeldBy(Parts())) - old(ScratchHeld(scratch))
      ensures scratch != null ==> scratch.closed && scratch.terminal == None && scratch.source.closed
    {
      closed := true;
      CloseAll(t, base + mounts + roots);
      if scratch != null { scratch.Close(t); }
    }

    method Close(t: Table)
      requires t.Valid() && Valid(t)
      modifies this`closed, t`live, Parts(), scratch, ScratchParts(scratch)
      ensures t.Valid() && Valid(t) && closed
      ensures old(closed) ==> t.live == old(t.live)
      ensures !old(closed) ==> t.live == old(t.live) - old(HeldBy(Parts())) - old(ScratchHeld(scratch))
    {
      if !closed { GiveUp(t); }
    }

    /** A request made only of new, open capabilities, which are all that was added to `rest`. */
    ghost predicate HandedOver(q: Request, t: Table, first: nat, rest: set<nat>)
      reads q, t, q.Parts(), q.scratch, ScratchParts(q.scratch),
        if q.scratch == null then {} else {q.scratch.source}
    {
      && q.scratch == scratch && q.tree == [] && q.Valid(t) && !q.consumed && !q.closed
      && Batch(q.launched, t, first) && t.live == rest + Ids(q.launched)
    }

    lemma Handing(q: Request, t: Table, copies: seq<Capability>, first: nat, next: nat, before: set<nat>)
      requires Transferred(q, t, copies, [], scratch, next, before + Ids(copies)) && first <= next
      requires forall c :: c in copies ==> !c.closed && first <= c.d
      ensures HandedOver(q, t, first, before)
    {
      var hosts := q.launched[|copies|..];
      assert q.launched == copies + hosts;
      assert Ids(q.launched) == Ids(copies) + Ids(hosts);
      assert AllOwn(q.Parts(), t) && Apart(q.Parts());
    }

    /** The scratch owns no more than it did, and exactly the difference has left `before`. */
    twostate predicate OnlyScratchShrank(t: Table, before: set<nat>)
      reads t, scratch, ScratchParts(scratch)
    {
      && ScratchParts(scratch) == old(ScratchParts(scratch))
      && ScratchHeld(scratch) <= old(ScratchHeld(scratch))
      && t.live == before - (old(ScratchHeld(scratch)) - ScratchHeld(scratch))
    }

    method HandOver(t: Table, copies: seq<Capability>, ghost first: nat, ghost before: set<nat>)
      returns (r: Option<Request>)
      requires t.Valid() && Valid(t) && Batch(copies, t, first) && t.live == before + Ids(copies)
      requires (forall c :: c in Parts() + ScratchParts(scratch) ==> c.d < first) && forall d :: d in before ==> d < first
      requires first <= t.next && Parts() !! ToSet(copies)
      modifies t, ToSet(copies), scratch, ScratchParts(scratch)
      ensures t.Valid() && Valid(t) && t.next >= old(t.next)
      ensures r.None? ==> OnlyScratchShrank(t, before)
      ensures r.Some? ==> fresh(r.value) && HandedOver(r.value, t, first, before) && Untouched({}, scratch)
      ensures r.Some? ==> copies <= r.value.launched && forall c :: c in r.value.launched[|copies|..] ==> fresh(c)
      ensures t.reliable ==> r.Some?
    {
      var none: seq<Capability> := [];
      assert copies + none == copies;
      r := FromOwned(t, copies, none, scratch);
      if r.Some? {
        Handing(r.value, t, copies, first, old(t.next), before);
      } else {
        assert old(HeldBy(ToSet(copies))) == Ids(copies);
        assert old(ScratchHeld(scratch)) - ScratchHeld(scratch) == old(SourceHeld(scratch));
      }
    }

    method Transfer(t: Table) returns (r: Option<Request>)
      requires t.Valid() && Valid(t)
      modifies t, scratch, ScratchParts(scratch)
      ensures t.Valid() && Valid(t) && t.next >= old(t.next)
      ensures r.None? ==> OnlyScratchShrank(t, old(t.live))
      ensures r.Some? ==> fresh(r.value) && HandedOver(r.value, t, old(t.next), old(t.live))
      ensures r.Some? ==> (forall c :: c in r.value.launched ==> fresh(c)) && Untouched({}, scratch)
      ensures t.reliable && old(AllOpen()) ==> r.Some?
    {
      var copies, ok := CopyEach(t);
      if ok {
        r := HandOver(t, copies, old(t.next), old(t.live));
        assert r.Some? ==> r.value.launched == copies + r.value.launched[|copies|..];
      } else {
        DropCopies(t, copies, old(t.next), old(t.live));
        r := None;
      }
    }

    /** New owners of what the request needs, beside everything the launch owns. */
    method CopyEach(t: Table) returns (copies: seq<Capability>, ok: bool)
      requires t.Valid() && Valid(t)
      modifies t
      ensures t.Valid() && Valid(t) && t.next >= old(t.next) && Untouched({}, scratch)
      ensures Batch(copies, t, old(t.next)) && t.live == old(t.live) + Ids(copies)
      ensures (forall c :: c in copies ==> fresh(c)) && Parts() !! ToSet(copies)
      ensures (forall c :: c in Parts() + ScratchParts(scratch) ==> c.d < old(t.next))
      ensures forall d :: d in old(t.live) ==> d < old(t.next)
      ensures t.reliable && old(AllOpen()) ==> ok
    {
      copies, ok := DuplicateEach(t, base + mounts);
    }

    method DropCopies(t: Table, copies: seq<Capability>, ghost first: nat, ghost before: set<nat>)
      requires t.Valid() && Valid(t) && Batch(copies, t, first) && t.live == before + Ids(copies)
      requires (forall c :: c in Parts() + ScratchParts(scratch) ==> c.d < first) && forall d :: d in before ==> d < first
      requires Parts() !! ToSet(copies)
      modifies t`live, ToSet(copies)
      ensures t.Valid() && Valid(t) && OnlyScratchShrank(t, before)
    {
      CloseBatch(t, copies, before, first);
    }

    /** Closing the originals leaves the new request as it was. */
    method CloseOriginals(t: Table, q: Request, ghost first: nat, ghost before: set<nat>)
      requires t.Valid() && Valid(t) && HandedOver(q, t, first, before)
      requires (forall c :: c in Parts() + ScratchParts(scratch) ==> c.d < first) && forall d :: d in before ==> d < first
      modifies t`live, Parts()
      ensures t.Valid() && Valid(t) && forall c :: c in Parts() ==> c.closed
      ensures HandedOver(q, t, first, before - old(HeldBy(Parts())))
    {
      CloseAll(t, base + mounts + roots);
    }

    /** `process_request`: hands duplicates to a new request and closes the originals, or fails and
        leaves nothing of the launch, the scratch or the duplicates open. */
    method ProcessRequest(t: Table) returns (r: Option<Request>)
      requires t.Valid() && Valid(t)
      modifies this, t, Parts(), scratch, ScratchParts(scratch)
      ensures t.Valid() && Valid(t) && t.next >= old(t.next)
      ensures old(consumed || closed) ==> r.None? && t.live == old(t.live) && closed == old(closed)
      ensures !old(consumed || closed) && r.None? ==>
        closed && t.live == old(t.live) - old(HeldBy(Parts())) - old(ScratchHeld(scratch))
      ensures r.None? ==> ScratchParts(scratch) <= old(ScratchParts(scratch))
      ensures r.Some? ==> fresh(r.value) && consumed && closed == old(closed)
      ensures r.Some? ==> HandedOver(r.value, t, old(t.next), old(t.live) - old(HeldBy(Parts())))
      ensures r.Some? ==> forall c :: c in Parts() ==> c.closed
      ensures r.Some? ==> (forall c :: c in r.value.launched ==> fresh(c)) && Untouched({}, scratch)
      ensures r.Some? ==> Disjoint()
      ensures t.reliable && old(AllOpen()) && Disjoint() && Shallow() && !old(consumed || closed) ==> r.Some?
    {
      if consumed || closed { return None; }
      consumed := true;
      r := HandOverOrGiveUp(t);
    }

    /** The transfer of a launch that is not used yet. */
    method HandOverOrGiveUp(t: Table) returns (r: Option<Request>)
      requires t.Valid() && Valid(t)
      modifies this`closed, t, Parts(), scratch, ScratchParts(scratch)
      ensures t.Valid() && Valid(t) && t.next >= old(t.next)
      ensures r.None? ==> closed && t.live == old(t.live) - old(HeldBy(Parts())) - old(ScratchHeld(scratch))
      ensures r.None? ==> ScratchParts(scratch) <= old(ScratchParts(scratch))
      ensures r.Some? ==> fresh(r.value) && closed == old(closed)
      ensures r.Some? ==> HandedOver(r.value, t, old(t.next), old(t.live) - old(HeldBy(Parts())))
      ensures r.Some? ==> forall c :: c in Parts() ==> c.closed
      ensures r.Some? ==> (forall c :: c in r.value.launched ==> fresh(c)) && Untouched({}, scratch)
      ensures (r.Some? ==> Disjoint()) && (t.reliable && old(AllOpen()) && Disjoint() && Shallow() ==> r.Some?)
    {
      r := TransferIfDisjoint(t);
      if r.Some? {
        CloseOriginals(t, r.value, old(t.next), old(t.live));
      } else {
        GiveUp(t);
      }
    }

    /** The roots are compared before anything is transferred. */
    method TransferIfDisjoint(t: Table) returns (r: Option<Request>)
      requires t.Valid() && Valid(t)
      modifies t, scratch, ScratchParts(scratch)
      ensures t.Valid() && Valid(t) && t.next >= old(t.next)
      ensures r.None? ==> OnlyScratchShrank(t, old(t.live))
      ensures r.Some? ==> fresh(r.value) && HandedOver(r.value, t, old(t.next), old(t.live))
      ensures r.Some? ==> (forall c :: c in r.value.launched ==> fresh(c)) && Untouched({}, scratch)
      ensures (r.Some? ==> Disjoint()) && (t.reliable && old(AllOpen()) && Disjoint() && Shallow() ==> r.Some?)
    {
      var ok := ValidateOverlapRoots(t);
      if ok { r := Transfer(t); } else { r := None; }
    }
  }
}
