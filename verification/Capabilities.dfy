/** Exclusive ownership of kernel descriptors. Every system call may fail, and every owner must
    close what it holds exactly once. */
module Capabilities {
  import opened Seqs

  /** The kernel's table of open descriptors. A descriptor is named by the moment it was opened, not
      by its reusable number: closing it requires it to be live, so a proof that every `Close` is
      allowed is a proof that nothing is closed twice and no reused number is ever closed. */
  class Table {
    const reliable: bool // no system call fails in this process
    var live: set<nat>
    var next: nat

    ghost predicate Valid()
      reads this
    {
      forall d :: d in live ==> d < next
    }

    constructor (reliable: bool)
      ensures Valid() && live == {} && this.reliable == reliable
    {
      this.reliable, live, next := reliable, {}, 0;
    }

    method Open() returns (d: nat)
      requires Valid()
      modifies this
      ensures Valid() && d == old(next) && next == d + 1
      ensures live == old(live) + {d}
    {
      d := next;
      live, next := live + {d}, next + 1;
    }

    method Close(d: nat)
      requires Valid() && d in live
      modifies this`live
      ensures Valid() && live == old(live) - {d}
    {
      live := live - {d};
    }
  }

  /** A call that may fail, unless nothing fails. */
  method Try(t: Table) returns (ok: bool)
    ensures t.reliable ==> ok
  {
    ok := true;
    if !t.reliable { ok := *; }
  }

  /** `LinuxPathCapability`: one owned descriptor. */
  class Capability {
    const d: nat
    var closed: bool

    constructor (d: nat)
      ensures this.d == d && !closed
    {
      this.d, closed := d, false;
    }

    /** An open capability owns a live descriptor; a closed or abandoned one owns nothing. */
    ghost predicate Owns(t: Table)
      reads this, t
    {
      d < t.next && (!closed ==> d in t.live)
    }

    ghost function Held(): (r: set<nat>)
      reads this
    {
      if closed then {} else {d}
    }

    method Close(t: Table)
      requires t.Valid() && Owns(t)
      modifies this, t`live
      ensures t.Valid() && closed
      ensures t.live == old(t.live) - old(Held())
    {
      if !closed {
        closed := true;
        t.Close(d);
      }
    }

    /** Gives the descriptor up without closing it: it stays live for the rest of the process. */
    method Abandon()
      modifies this
      ensures closed
    {
      closed := true;
    }

    /** `duplicate`, and `reopen_directory` with its identity check: a new owner, or nothing new. */
    method Duplicate(t: Table) returns (r: Option<Capability>)
      requires t.Valid() && Owns(t)
      modifies t
      ensures t.Valid() && t.next >= old(t.next)
      ensures r.None? ==> t.live == old(t.live)
      ensures r.Some? ==> fresh(r.value) && !r.value.closed && old(t.next) <= r.value.d < t.next
      ensures r.Some? ==> t.live == old(t.live) + {r.value.d}
      ensures (closed ==> r.None?) && (t.reliable && !closed ==> r.Some?)
    {
      var ok := Try(t);
      if closed || !ok { return None; }
      var d' := t.Open();
      r := FromOpenFd(t, d');
    }
  }

  /** `_from_open_fd`: takes the descriptor over, and closes it when it cannot become a capability. */
  method FromOpenFd(t: Table, d: nat) returns (r: Option<Capability>)
    requires t.Valid() && d in t.live
    modifies t`live
    ensures t.Valid()
    ensures r.None? ==> t.live == old(t.live) - {d}
    ensures r.Some? ==> fresh(r.value) && !r.value.closed && r.value.d == d && t.live == old(t.live)
    ensures t.reliable ==> r.Some?
  {
    var ok := Try(t);
    if ok {
      var c := new Capability(d);
      r := Some(c);
    } else {
      t.Close(d);
      r := None;
    }
  }

  // ----- Groups ---------------------------------------------------------------------------------

  ghost function HeldBy(parts: set<Capability>): (r: set<nat>)
    reads parts
  {
    set c | c in parts && !c.closed :: c.d
  }

  /** One owner per descriptor. */
  ghost predicate Apart(parts: set<Capability>) {
    forall a, b :: a in parts && b in parts && a != b ==> a.d != b.d
  }

  ghost predicate AllOwn(parts: set<Capability>, t: Table)
    reads parts, t
  {
    forall c :: c in parts ==> c.Owns(t)
  }

  /** `_close_capabilities`: every capability is closed, and exactly what they held is given back. */
  method CloseAll(t: Table, parts: seq<Capability>)
    requires t.Valid() && Apart(ToSet(parts)) && AllOwn(ToSet(parts), t)
    modifies t`live, ToSet(parts)
    ensures t.Valid() && AllOwn(ToSet(parts), t) && forall c :: c in parts ==> c.closed
    ensures t.live == old(t.live) - old(HeldBy(ToSet(parts)))
  {
    for i := 0 to |parts|
      invariant t.Valid() && AllOwn(ToSet(parts), t)
      invariant forall k :: 0 <= k < i ==> parts[k].closed
      invariant forall c :: c in parts && !c.closed ==> old(!c.closed)
      invariant forall c :: c in parts && c !in parts[..i] ==> c.closed == old(c.closed)
      invariant t.live == old(t.live) - old(HeldBy(ToSet(parts[..i])))
    {
      assert parts[..i + 1] == parts[..i] + [parts[i]];
      parts[i].Close(t);
    }
    assert parts[..|parts|] == parts;
  }

  /** What a batch of new capabilities adds: each is new, open, and alone on its descriptor. */
  ghost predicate Batch(cs: seq<Capability>, t: Table, base: nat)
    reads t, ToSet(cs)
  {
    && Apart(ToSet(cs)) && AllOwn(ToSet(cs), t)
    && forall c :: c in cs ==> !c.closed && base <= c.d
  }

  ghost function Ids(cs: seq<Capability>): (r: set<nat>) { set c | c in cs :: c.d }

  /** One after another, until one fails; the caller owns whatever was made. */
  method DuplicateEach(t: Table, sources: seq<Capability>) returns (cs: seq<Capability>, ok: bool)
    requires t.Valid() && AllOwn(ToSet(sources), t)
    modifies t
    ensures t.Valid() && t.next >= old(t.next)
    ensures Batch(cs, t, old(t.next)) && forall c :: c in cs ==> fresh(c)
    ensures t.live == old(t.live) + Ids(cs)
    ensures |cs| <= |sources| && (ok ==> |cs| == |sources|)
    ensures t.reliable && (forall c :: c in sources ==> !c.closed) ==> ok
  {
    cs, ok := [], true;
    for i := 0 to |sources|
      invariant t.Valid() && t.next >= old(t.next) && |cs| == i && ok && AllOwn(ToSet(sources), t)
      invariant Batch(cs, t, old(t.next)) && forall c :: c in cs ==> fresh(c)
      invariant t.live == old(t.live) + Ids(cs)
    {
      var c := sources[i].Duplicate(t);
      if c.None? { ok := false; return; }
      cs := cs + [c.value];
    }
  }

  /** Giving back a whole batch restores the table. */
  method CloseBatch(t: Table, cs: seq<Capability>, ghost before: set<nat>, ghost base: nat)
    requires t.Valid() && Batch(cs, t, base) && t.live == before + Ids(cs)
    requires forall d :: d in before ==> d < base
    modifies t`live, ToSet(cs)
    ensures t.Valid() && t.live == before
  {
    assert HeldBy(ToSet(cs)) == Ids(cs);
    CloseAll(t, cs);
  }

  /** `acquire_absolute` below a pinned `/`: the root descriptor is opened and closed again on every
      path. */
  method AcquireBelowRoot(t: Table) returns (r: Option<Capability>)
    requires t.Valid()
    modifies t
    ensures t.Valid() && t.next >= old(t.next)
    ensures r.None? ==> t.live == old(t.live)
    ensures r.Some? ==> fresh(r.value) && !r.value.closed && old(t.next) <= r.value.d < t.next
    ensures r.Some? ==> t.live == old(t.live) + {r.value.d}
    ensures t.reliable ==> r.Some?
  {
    var ok := Try(t);
    if !ok { return None; }
    var root := t.Open();
    ok := Try(t);
    if !ok {
      t.Close(root);
      return None;
    }
    var d := t.Open();
    t.Close(root);
    r := FromOpenFd(t, d);
  }

  /** `acquire_absolute`: a lookup that may follow a last symlink goes through the parent directory,
      itself a capability, which is closed on every path. */
  method Acquire(t: Table) returns (r: Option<Capability>)
    requires t.Valid()
    modifies t
    ensures t.Valid() && t.next >= old(t.next)
    ensures r.None? ==> t.live == old(t.live)
    ensures r.Some? ==> fresh(r.value) && !r.value.closed && old(t.next) <= r.value.d < t.next
    ensures r.Some? ==> t.live == old(t.live) + {r.value.d}
    ensures t.reliable ==> r.Some?
  {
    var follows := *; // `allow_symlinks`, and the path is not `/`
    r := AcquireBelowRoot(t);
    if follows && r.Some? { r := OpenBelow(t, r.value); }
  }

  /** The object named in a held parent directory, which is closed whatever happens. */
  method OpenBelow(t: Table, parent: Capability) returns (r: Option<Capability>)
    requires t.Valid() && parent.Owns(t) && !parent.closed
    modifies t, parent
    ensures t.Valid() && t.next >= old(t.next)
    ensures r.None? ==> t.live == old(t.live) - {parent.d}
    ensures r.Some? ==> fresh(r.value) && !r.value.closed && old(t.next) <= r.value.d < t.next
    ensures r.Some? ==> t.live == old(t.live) - {parent.d} + {r.value.d}
    ensures t.reliable ==> r.Some?
  {
    var ok := Try(t);
    if !ok {
      parent.Close(t);
      return None;
    }
    var d := t.Open();
    parent.Close(t);
    r := FromOpenFd(t, d);
  }

  method AcquireEach(t: Table, n: nat) returns (cs: seq<Capability>, ok: bool)
    requires t.Valid()
    modifies t
    ensures t.Valid() && t.next >= old(t.next)
    ensures Batch(cs, t, old(t.next)) && forall c :: c in cs ==> fresh(c)
    ensures t.live == old(t.live) + Ids(cs)
    ensures |cs| <= n && (ok ==> |cs| == n) && (t.reliable ==> ok)
  {
    cs, ok := [], true;
    for i := 0 to n
      invariant t.Valid() && t.next >= old(t.next) && |cs| == i && ok
      invariant Batch(cs, t, old(t.next)) && forall c :: c in cs ==> fresh(c)
      invariant t.live == old(t.live) + Ids(cs)
    {
      var c := Acquire(t);
      if c.None? { ok := false; return; }
      cs := cs + [c.value];
    }
  }

  const MAX_ANCESTRY_DEPTH := 4096

  /** Where a directory lies: so many levels inside the one asked for, or outside it and so many levels
      below `/`. */
  datatype Lineage = Inside(levels: nat) | Outside(depth: nat)
  {
    predicate Within(bound: nat) { match this case Inside(n) => n < bound case Outside(n) => n < bound }
  }

  /** `is_ancestor`: walks up held parents and, whatever fails, gives every one of them back. An answer
      is right, and there is one unless a call failed or the climb was too long. */
  method IsAncestor(t: Table, descendant: Capability, lineage: Lineage) returns (r: Option<bool>)
    requires t.Valid() && descendant.Owns(t)
    modifies t
    ensures t.Valid() && t.next >= old(t.next) && t.live == old(t.live)
    ensures r.Some? ==> r.value == lineage.Inside? && lineage.Within(4096)
    ensures t.reliable && !descendant.closed ==> (r.Some? <==> lineage.Within(4096))
  {
    var first := descendant.Duplicate(t);
    if first.None? { return None; }
    var current := first.value;
    for i := 0 to MAX_ANCESTRY_DEPTH
      invariant t.Valid() && t.next >= old(t.next)
      invariant fresh(current) && current.Owns(t) && !current.closed && old(t.next) <= current.d
      invariant t.live == old(t.live) + {current.d}
      invariant match lineage case Inside(n) => i <= n case Outside(n) => i <= n
    {
      if lineage == Inside(i) {
        current.Close(t);
        return Some(true);
      }
      var parent := current.Duplicate(t); // `open_parent` opens `..` under the same lock
      if parent.None? {
        current.Close(t);
        return None;
      }
      if lineage == Outside(i) {
        parent.value.Close(t);
        current.Close(t);
        return Some(false);
      }
      current.Close(t);
      current := parent.value;
    }
    current.Close(t);
    r := None;
  }
}
