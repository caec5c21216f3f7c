/** The descriptor-relative walk over a directory tree that nobody changes meanwhile: what it counts,
    and exactly when it succeeds, whatever order the kernel lists each directory in. */
module TreeWalk {
  import opened Seqs
  import Paths

  /** A path component, as the code points of a Python string. */
  type Name = seq<int>

  /** What a name in a directory can denote; `Other` is a symlink or a special file. */
  datatype Node = File(mode: nat, bytes: seq<int>) | Dir(mode: nat, entries: seq<Entry>) | Other

  datatype Entry = Entry(name: Name, node: Node)

  const MAX_DEPTH := 4096
  const MAX_DIRECTORIES := 10_000
  const MAX_ENTRIES := 10_000

  /** `_component_text`: non-empty, not `.` or `..`, no `/`, backslash or NUL, UTF-8 encodable. */
  predicate ValidName(name: Name) {
    && name != [] && name != [0x2E] && name != [0x2E, 0x2E]
    && 0x2F !in name && 0x5C !in name && 0 !in name
    && forall c :: c in name ==> !Paths.IsSurrogate(c)
  }

  /** The names the walk takes are the portable paths of one part, and those with a colon besides. */
  lemma NamesAreOnePartPaths(name: Name)
    ensures ValidName(name) ==> Paths.NoSlash(name)
    ensures Paths.NoSlash(name) && 0x3A !in name ==> (ValidName(name) <==> Paths.ValidRelativePath(name))
  {
    if Paths.NoSlash(name) {
      Paths.SplitOne(name);
      var parts := Paths.Split(name);
      assert parts == [name] && parts[0] in parts;
      assert (forall p :: p in parts ==> p != [] && p != [0x2E] && p != [0x2E, 0x2E])
        <==> name != [] && name != [0x2E] && name != [0x2E, 0x2E];
      assert name != [] ==> name[0] in name;
    }
  }

  datatype Limits = Limits(files: Option<nat>, bytes: Option<nat>)

  datatype Usage = Usage(files: nat, bytes: nat, dirs: nat) {
    function Plus(u: Usage): Usage { Usage(files + u.files, bytes + u.bytes, dirs + u.dirs) }

    function OneMoreDirectory(): Usage { Usage(files, bytes, dirs + 1) }
  }

  const NOTHING := Usage(0, 0, 0)

  /** What a node adds to the counts of the directory that lists it. */
  function Totals(n: Node): Usage
    decreases n, 0
  {
    match n
    case File(_, bytes) => Usage(1, |bytes|, 0)
    case Dir(_, entries) => TotalsOf(entries).OneMoreDirectory()
    case Other => NOTHING
  }

  function TotalsOf(es: seq<Entry>): Usage
    decreases es, 1
  {
    if es == [] then NOTHING else Totals(es[0].node).Plus(TotalsOf(es[1..]))
  }

  /** The bounds that do not depend on counts: valid names, files and directories only, at most
      4096 levels down, and at most 10000 entries in each directory. */
  predicate Shapely(n: Node, depth: nat)
    decreases n
  {
    match n
    case File(_, _) => true
    case Dir(_, entries) =>
      depth <= 4096 && |entries| <= 10_000
      && forall i :: 0 <= i < |entries| ==> ValidName(entries[i].name) && Shapely(entries[i].node, depth + 1)
    case Other => false
  }

  predicate Under(limit: Option<nat>, value: nat) { limit.Some? ==> value <= limit.value }

  predicate Fits(l: Limits, u: Usage) {
    Under(l.files, u.files) && Under(l.bytes, u.bytes) && u.dirs <= 10_000
  }

  /** The caller's view: within every bound. */
  predicate Acceptable(root: Node, l: Limits) {
    root.Dir? && Shapely(root, 0) && Fits(l, TotalsOf(root.entries))
  }

  datatype Outcome = Done | FileCount | FileBytes | Policy

  // ----- Totals do not depend on listing order ---------------------------------------------------

  lemma PlusCommutes(a: Usage, b: Usage, c: Usage)
    ensures a.Plus(b.Plus(c)) == b.Plus(a.Plus(c))
  {
  }

  /** Counting a directory first and its entries afterwards counts the same. */
  lemma DirectoryFirst(u: Usage, n: Node)
    requires n.Dir?
    ensures u.Plus(Totals(n)) == Usage(u.files, u.bytes, u.dirs + 1).Plus(TotalsOf(n.entries))
  {
    match n
    case Dir(_, entries) =>
      var inner := TotalsOf(entries);
      assert Totals(n) == inner.OneMoreDirectory();
  }

  /** Whichever entry is taken out first, the totals are its own plus those of the rest. */
  lemma {:induction false} TotalsPick(es: seq<Entry>, i: nat)
    requires i < |es|
    ensures TotalsOf(es) == Totals(es[i].node).Plus(TotalsOf(Without(es, i)))
    decreases |es|
  {
    if i == 0 {
      assert Without(es, 0) == es[1..];
    } else {
      TotalsPick(es[1..], i - 1);
      WithoutLater(es, i);
      PlusCommutes(Totals(es[0].node), Totals(es[i].node), TotalsOf(Without(es[1..], i - 1)));
    }
  }

  // ----- Going through a directory ---------------------------------------------------------------

  /** `seen` entries of directory `n` were listed and are fine; the others are `left`. */
  ghost predicate Progress(n: Node, depth: nat, left: seq<Entry>, seen: nat) {
    && n.Dir? && seen + |left| == |n.entries| && seen <= 10_000
    && (forall e :: e in left ==> e in n.entries)
    && (forall e :: e in n.entries && e !in left ==> ValidName(e.name) && Shapely(e.node, depth + 1))
  }

  /** The next entry is not one too many, is well named, and is in shape. */
  predicate Welcome(e: Entry, depth: nat, seen: nat) {
    seen < 10_000 && ValidName(e.name) && Shapely(e.node, depth + 1)
  }

  lemma Advance(n: Node, depth: nat, left: seq<Entry>, i: nat, seen: nat)
    requires Progress(n, depth, left, seen) && i < |left| && Welcome(left[i], depth, seen)
    ensures Progress(n, depth, Without(left, i), seen + 1)
  {
    forall e | e in left && e != left[i] ensures e in Without(left, i) {
      var k :| 0 <= k < |left| && left[k] == e;
      assert Without(left, i)[if k < i then k else k - 1] == e;
    }
  }

  lemma Complete(n: Node, depth: nat, seen: nat)
    requires Progress(n, depth, [], seen) && depth <= 4096
    ensures Shapely(n, depth)
  {
    forall i | 0 <= i < |n.entries| ensures ValidName(n.entries[i].name) && Shapely(n.entries[i].node, depth + 1) {
      assert n.entries[i] in n.entries;
    }
  }

  /** An entry that is one too many, badly named, or itself out of shape puts the directory out of shape. */
  lemma Stops(n: Node, depth: nat, left: seq<Entry>, i: nat, seen: nat)
    requires Progress(n, depth, left, seen) && i < |left| && !Welcome(left[i], depth, seen)
    ensures !Shapely(n, depth)
  {
    assert left[i] in n.entries;
  }

  /** The counts so far and the totals still to come make the same sum at every point. */
  lemma CountOn(start: Usage, n: Node, now: Usage, left: seq<Entry>, i: nat, l: Limits)
    requires n.Dir? && i < |left| && start.Plus(TotalsOf(n.entries)) == now.Plus(TotalsOf(left))
    ensures start.Plus(TotalsOf(n.entries)) == now.Plus(Totals(left[i].node)).Plus(TotalsOf(Without(left, i)))
    ensures !Fits(l, now.Plus(Totals(left[i].node))) ==> !Fits(l, start.Plus(TotalsOf(n.entries)))
  {
    TotalsPick(left, i);
  }

  // ----- The walk ---------------------------------------------------------------------------------

  /** The walk's running counts. */
  class Walker {
    const limits: Limits
    var files: nat
    var bytes: nat
    var dirs: nat

    constructor (limits: Limits)
      ensures this.limits == limits && Counts() == NOTHING
    {
      this.limits, files, bytes, dirs := limits, 0, 0, 0;
    }

    function Counts(): Usage
      reads this
    {
      Usage(files, bytes, dirs)
    }

    /** What an outcome says about the counts: a limit error is raised at the first excess. */
    ghost predicate Reports(r: Outcome)
      reads this
    {
      && (r == FileCount ==> limits.files.Some? && files == limits.files.value + 1)
      && (r == FileBytes ==> limits.bytes.Some? && bytes > limits.bytes.value && Under(limits.files, files))
    }

    /** `visit_child`: counts one regular file, or counts a directory and goes into it. */
    method VisitChild(n: Node, depth: nat) returns (r: Outcome)
      requires Fits(limits, Counts())
      modifies this
      decreases n, 3
      ensures r == Done <==> Shapely(n, depth + 1) && Fits(limits, old(Counts()).Plus(Totals(n)))
      ensures r == Done ==> Counts() == old(Counts()).Plus(Totals(n))
      ensures Reports(r)
    {
      match n
      case Other => r := Policy;
      case File(_, _) => r := VisitFile(n);
      case Dir(_, _) => r := VisitDirectory(n, depth);
    }

    method VisitDirectory(n: Node, depth: nat) returns (r: Outcome)
      requires n.Dir? && Fits(limits, Counts())
      modifies this
      decreases n, 2
      ensures r == Done <==> Shapely(n, depth + 1) && Fits(limits, old(Counts()).Plus(Totals(n)))
      ensures r == Done ==> Counts() == old(Counts()).Plus(Totals(n))
      ensures Reports(r)
    {
      ghost var goal := Counts().Plus(Totals(n));
      DirectoryFirst(Counts(), n);
      dirs := dirs + 1;
      assert goal == Counts().Plus(TotalsOf(n.entries));
      if dirs > MAX_DIRECTORIES {
        assert !Fits(limits, goal);
        r := Policy;
      } else {
        r := Visit(n, depth + 1);
      }
    }

    /** A regular file counts one file and its bytes, each checked at once. */
    method VisitFile(n: Node) returns (r: Outcome)
      requires n.File? && Fits(limits, Counts())
      modifies this
      ensures r == Done <==> Fits(limits, old(Counts()).Plus(Totals(n)))
      ensures r == Done ==> Counts() == old(Counts()).Plus(Totals(n))
      ensures Reports(r)
    {
      files := files + 1;
      if limits.files.Some? && files > limits.files.value { return FileCount; }
      bytes := bytes + |n.bytes|;
      if limits.bytes.Some? && bytes > limits.bytes.value { return FileBytes; }
      r := Done;
    }

    /** `visit`: every listed child in turn, in whatever order the kernel lists them. */
    method Visit(n: Node, depth: nat) returns (r: Outcome)
      requires n.Dir? && Fits(limits, Counts())
      modifies this
      decreases n, 1
      ensures r == Done <==> Shapely(n, depth) && Fits(limits, old(Counts()).Plus(TotalsOf(n.entries)))
      ensures r == Done ==> Counts() == old(Counts()).Plus(TotalsOf(n.entries))
      ensures Reports(r)
    {
      if depth > MAX_DEPTH { return Policy; }
      var left := n.entries;
      var seen: nat := 0;
      while left != []
        invariant Progress(n, depth, left, seen) && Fits(limits, Counts())
        invariant old(Counts()).Plus(TotalsOf(n.entries)) == Counts().Plus(TotalsOf(left))
        decreases |left|
      {
        var i: nat :| i < |left|;
        CountOn(old(Counts()), n, Counts(), left, i, limits);
        r := VisitNext(n, depth, left[i], seen);
        if r != Done {
          if !Welcome(left[i], depth, seen) { Stops(n, depth, left, i, seen); }
          return;
        }
        Advance(n, depth, left, i, seen);
        left, seen := Without(left, i), seen + 1;
      }
      Complete(n, depth, seen);
      r := Done;
    }

    /** One listed name: the entry count and the name are checked before it is looked at. */
    method VisitNext(n: Node, depth: nat, e: Entry, seen: nat) returns (r: Outcome)
      requires n.Dir? && e in n.entries && Fits(limits, Counts())
      modifies this
      decreases n, 0
      ensures r == Done <==> Welcome(e, depth, seen) && Fits(limits, old(Counts()).Plus(Totals(e.node)))
      ensures r == Done ==> Counts() == old(Counts()).Plus(Totals(e.node))
      ensures Reports(r)
    {
      if seen >= MAX_ENTRIES || !ValidName(e.name) {
        r := Policy;
      } else {
        r := VisitChild(e.node, depth);
      }
    }
  }

  /** `walk_tree`: on a stable tree it succeeds exactly when every bound holds, whatever the listing
      order, and then returns the exact totals. */
  method WalkTree(root: Node, limits: Limits) returns (r: Outcome, usage: Usage)
    ensures r == Done <==> Acceptable(root, limits)
    ensures r == Done ==> usage == TotalsOf(root.entries)
    ensures r == FileCount ==> limits.files.Some? && usage.files == limits.files.value + 1
    ensures r == FileBytes ==> limits.bytes.Some? && usage.bytes > limits.bytes.value
  {
    if !root.Dir? { return Policy, NOTHING; }
    var w := new Walker(limits);
    r := w.Visit(root, 0);
    usage := w.Counts();
  }
}
