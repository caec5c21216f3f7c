/** The descriptor-relative copy of a stable source tree into a private, empty destination. The
    destination is updated in place, one path at a time. */
module TreeCopy {
  import opened Seqs
  import opened TreeWalk

  type Path = seq<Name>

  datatype Inode = FileInode(mode: nat, bytes: seq<int>) | DirInode(mode: nat)

  function WithMode(inode: Inode, mode: nat): Inode {
    match inode
    case FileInode(_, bytes) => FileInode(mode, bytes)
    case DirInode(_) => DirInode(mode)
  }

  /** Only the low nine mode bits are carried over. */
  function Permissions(mode: nat): nat { mode % 0x200 }

  /** The bits above the ninth -- the file type, set-id and sticky bits -- are dropped, and the nine
      permission bits are kept. */
  lemma PermissionsAreLowBits(high: nat, low: nat)
    requires low < 512
    ensures Permissions(512 * high + low) == low
  {
    assert (512 * high + low) / 512 == high;
  }

  function FileAt(n: Node): Inode
    requires !n.Other?
  {
    match n
    case File(mode, bytes) => FileInode(Permissions(mode), bytes)
    case Dir(mode, _) => DirInode(Permissions(mode))
  }

  /** A directory lists each name once. */
  predicate NamesDistinct(es: seq<Entry>) {
    forall i, j :: 0 <= i < j < |es| ==> es[i].name != es[j].name
  }

  /** A real tree: distinct names in every directory. */
  predicate RealTree(n: Node)
    decreases n
  {
    n.Dir? ==> NamesDistinct(n.entries) && forall i :: 0 <= i < |n.entries| ==> RealTree(n.entries[i].node)
  }

  function Find(es: seq<Entry>, name: Name): Option<Node>
    decreases |es|
  {
    if es == [] then None else if es[0].name == name then Some(es[0].node) else Find(es[1..], name)
  }

  /** What the copy of `n`, whose own path is `[]`, must have at `p`: the name space, the bytes and
      the permissions of the source. */
  function Expected(n: Node, p: Path): Option<Inode>
    decreases |p|
  {
    if p == [] then (if n.Other? then None else Some(FileAt(n)))
    else if !n.Dir? then None
    else
      match Find(n.entries, p[0])
      case None => None
      case Some(child) => Expected(child, p[1..])
  }

  lemma {:induction false} FindEntry(es: seq<Entry>, e: Entry)
    requires NamesDistinct(es) && e in es
    ensures Find(es, e.name) == Some(e.node)
    decreases |es|
  {
    if es[0] != e {
      var i :| 0 <= i < |es| && es[i] == e;
      assert es[1..][i - 1] == e;
      FindEntry(es[1..], e);
    }
  }

  lemma {:induction false} FindOnlyEntries(es: seq<Entry>, name: Name)
    requires Find(es, name).Some?
    ensures Entry(name, Find(es, name).value) in es
    decreases |es|
  {
    if es[0].name != name { FindOnlyEntries(es[1..], name); }
  }

  // ----- The destination -------------------------------------------------------------------------

  datatype Copied = Finished | Refused(r: Outcome) | CallFailed

  type Image = map<Path, Inode>

  function At(m: Image, p: Path): Option<Inode> { if p in m then Some(m[p]) else None }

  class Disk {
    var nodes: Image

    constructor (nodes: Image)
      ensures this.nodes == nodes
    {
      this.nodes := nodes;
    }

    /** Creates a new object with owner-only permissions; the name must be free. */
    method Create(p: Path, inode: Inode) returns (ok: bool)
      modifies this
      ensures ok ==> p !in old(nodes) && nodes == old(nodes)[p := inode]
      ensures !ok ==> nodes == old(nodes)
    {
      ok := *;
      ok := ok && p !in nodes;
      if ok { nodes := nodes[p := inode]; }
    }

    method ChangeMode(p: Path, mode: nat) returns (ok: bool)
      requires p in nodes
      modifies this
      ensures ok ==> nodes == old(nodes)[p := WithMode(old(nodes)[p], mode)]
      ensures !ok ==> nodes == old(nodes)
    {
      ok := *;
      if ok { nodes := nodes[p := WithMode(nodes[p], mode)]; }
    }

    /** One `write`: any non-empty prefix may be taken. */
    method Write(p: Path, block: seq<int>) returns (written: nat)
      requires p in nodes && nodes[p].FileInode?
      modifies this
      ensures written <= |block|
      ensures nodes == old(nodes)[p := FileInode(old(nodes)[p].mode, old(nodes)[p].bytes + block[..written])]
    {
      var n: int := *;
      written := if 0 <= n <= |block| then n else 0;
      nodes := nodes[p := FileInode(nodes[p].mode, nodes[p].bytes + block[..written])];
    }

    /** `_write_all`: loops over partial writes; a write that takes nothing fails the copy. */
    method WriteAll(p: Path, block: seq<int>) returns (ok: bool)
      requires p in nodes && nodes[p].FileInode?
      modifies this
      ensures ok ==> nodes == old(nodes)[p := FileInode(old(nodes)[p].mode, old(nodes)[p].bytes + block)]
    {
      var done: nat := 0;
      while done < |block|
        invariant done <= |block| && p in nodes
        invariant nodes[p] == FileInode(old(nodes)[p].mode, old(nodes)[p].bytes + block[..done])
        invariant nodes == old(nodes)[p := nodes[p]]
      {
        var n := Write(p, block[done..]);
        if n == 0 { return false; }
        assert block[..done] + block[done..][..n] == block[..done + n];
        done := done + n;
      }
      assert block[..done] == block;
      ok := true;
    }

    /** `_copy_regular_contents` on a stable file: blocks of at most `chunk` bytes, each possibly
        short, until the size seen at acquisition is copied. */
    method CopyContents(p: Path, source: seq<int>, chunk: nat) returns (ok: bool)
      requires chunk > 0 && p in nodes && nodes[p].FileInode? && nodes[p].bytes == []
      modifies this
      ensures ok ==> nodes == old(nodes)[p := FileInode(old(nodes)[p].mode, source)]
    {
      var offset: nat := 0;
      while offset < |source|
        invariant offset <= |source| && p in nodes
        invariant nodes[p] == FileInode(old(nodes)[p].mode, source[..offset])
        invariant nodes == old(nodes)[p := nodes[p]]
      {
        var size := Min(chunk, |source| - offset);
        var short: int := *; // a read may return less than was asked for
        if 0 < short < size { size := short; }
        var block := source[offset..offset + size];
        ok := WriteAll(p, block);
        if !ok { return; }
        assert source[..offset] + block == source[..offset + size];
        offset := offset + size;
      }
      assert source[..offset] == source;
      ok := true;
    }
  }

  // ----- The copy --------------------------------------------------------------------------------

  /** The entries still to be listed are all there is no copy of yet. */
  predicate Named(es: seq<Entry>, name: Name) { exists e :: e in es && e.name == name }

  ghost predicate Below(at: Path, p: Path) { at < p }

  lemma ChildPaths(at: Path, name: Name, p: Path)
    ensures at + [name] <= p <==> Below(at, p) && p[|at|] == name
    ensures at + [name] <= p ==> p[|at|..][0] == name && p[|at|..][1..] == p[|at + [name]|..]
  {
    if at + [name] <= p { assert p[|at|] == (at + [name])[|at|]; }
    if Below(at, p) && p[|at|] == name { assert p[..|at| + 1] == at + [name]; }
  }

  /** At and below `at`, `m` is the source's image; everywhere else it is `base`. */
  ghost predicate Imaged(m: Image, base: Image, at: Path, n: Node) {
    forall p :: At(m, p) == if at <= p then Expected(n, p[|at|..]) else At(base, p)
  }

  /** What `m` has at `p` when the entries `left` of directory `at` are not copied yet. */
  ghost function SoFar(base: Image, at: Path, n: Node, left: seq<Entry>, p: Path): Option<Inode> {
    if !Below(at, p) then At(base, p)
    else if Named(left, p[|at|]) then None
    else Expected(n, p[|at|..])
  }

  ghost predicate ImagedExcept(m: Image, base: Image, at: Path, n: Node, left: seq<Entry>) {
    forall p :: At(m, p) == SoFar(base, at, n, left, p)
  }

  ghost predicate Vacant(m: Image, q: Path) { forall p :: q <= p ==> At(m, p) == None }

  lemma StartsEmpty(m: Image, at: Path, n: Node)
    requires n.Dir? && forall p :: Below(at, p) ==> At(m, p) == None
    ensures ImagedExcept(m, m, at, n, n.entries)
  {
    forall p ensures At(m, p) == SoFar(m, at, n, n.entries, p) {
      if Below(at, p) && !Named(n.entries, p[|at|]) && Find(n.entries, p[|at|]).Some? {
        FindOnlyEntries(n.entries, p[|at|]);
      }
    }
  }

  lemma NextIsVacant(m: Image, base: Image, at: Path, n: Node, left: seq<Entry>, e: Entry)
    requires ImagedExcept(m, base, at, n, left) && e in left
    ensures Vacant(m, at + [e.name])
  {
    forall p | at + [e.name] <= p ensures At(m, p) == None {
      ChildPaths(at, e.name, p);
      assert At(m, p) == SoFar(base, at, n, left, p);
    }
  }

  /** Copying one more entry extends the image by exactly that entry's own image. */
  lemma ImageGrows(m: Image, m': Image, base: Image, at: Path, n: Node, left: seq<Entry>, i: nat)
    requires n.Dir? && NamesDistinct(n.entries) && NamesDistinct(left) && i < |left| && left[i] in n.entries
    requires ImagedExcept(m, base, at, n, left) && Imaged(m', m, at + [left[i].name], left[i].node)
    ensures ImagedExcept(m', base, at, n, Without(left, i))
  {
    var e := left[i];
    FindEntry(n.entries, e);
    forall p ensures At(m', p) == SoFar(base, at, n, Without(left, i), p) {
      ChildPaths(at, e.name, p);
      assert At(m, p) == SoFar(base, at, n, left, p);
      if Below(at, p) { NamedWithout(left, i, p[|at|]); }
    }
  }

  lemma StillDistinct(left: seq<Entry>, i: nat)
    requires i < |left| && NamesDistinct(left)
    ensures NamesDistinct(Without(left, i))
  {
    var rest := Without(left, i);
    forall j, k | 0 <= j < k < |rest| ensures rest[j].name != rest[k].name {
      assert rest[j] == left[if j < i then j else j + 1] && rest[k] == left[if k < i then k else k + 1];
    }
  }

  lemma NamedWithout(left: seq<Entry>, i: nat, name: Name)
    requires i < |left| && NamesDistinct(left)
    ensures Named(Without(left, i), name) <==> Named(left, name) && name != left[i].name
  {
    var rest := Without(left, i);
    if Named(left, name) && name != left[i].name {
      var e :| e in left && e.name == name;
      var k :| 0 <= k < |left| && left[k] == e;
      assert rest[if k < i then k else k - 1] == e;
    }
  }

  /** The running counts of one copy, and where it writes. */
  class Copier {
    const disk: Disk
    const limits: Limits
    const chunk: nat
    var files: nat
    var bytes: nat
    var dirs: nat

    constructor (disk: Disk, limits: Limits, chunk: nat)
      requires chunk > 0
      ensures this.disk == disk && this.limits == limits && this.chunk == chunk && Counts() == NOTHING
    {
      this.disk, this.limits, this.chunk := disk, limits, chunk;
      files, bytes, dirs := 0, 0, 0;
    }

    function Counts(): Usage
      reads this
    {
      Usage(files, bytes, dirs)
    }

    /** `copy_child`, for a regular file. */
    method CopyFile(n: Node, q: Path) returns (r: Copied)
      requires n.File? && Fits(limits, Counts()) && chunk > 0 && Vacant(disk.nodes, q)
      modifies this, disk
      ensures r != CallFailed ==> (r == Finished <==> Fits(limits, old(Counts()).Plus(Totals(n))))
      ensures r == Finished ==> Counts() == old(Counts()).Plus(Totals(n)) && Imaged(disk.nodes, old(disk.nodes), q, n)
    {
      files := files + 1;
      if limits.files.Some? && files > limits.files.value { return Refused(FileCount); }
      bytes := bytes + |n.bytes|;
      if limits.bytes.Some? && bytes > limits.bytes.value { return Refused(FileBytes); }
      var ok := disk.Create(q, FileInode(0x180, []));
      if ok { ok := disk.CopyContents(q, n.bytes, chunk); }
      if ok { ok := disk.ChangeMode(q, Permissions(n.mode)); }
      if !ok { return CallFailed; }
      r := Finished;
      assert disk.nodes == old(disk.nodes)[q := FileAt(n)];
      OneFileImage(old(disk.nodes), q, n);
    }

    /** `copy_child`: one entry, at its own path `q`. */
    method CopyChild(n: Node, q: Path, depth: nat) returns (r: Copied)
      requires RealTree(n) && Fits(limits, Counts()) && chunk > 0 && Vacant(disk.nodes, q)
      modifies this, disk
      decreases n, 4
      ensures r != CallFailed ==>
        (r == Finished <==> Shapely(n, depth + 1) && Fits(limits, old(Counts()).Plus(Totals(n))))
      ensures r == Finished ==> Counts() == old(Counts()).Plus(Totals(n)) && Imaged(disk.nodes, old(disk.nodes), q, n)
    {
      match n
      case Other => r := Refused(Policy);
      case File(_, _) => r := CopyFile(n, q);
      case Dir(_, _) => r := CopySubdirectory(n, q, depth);
    }

    /** `copy_child`, for a directory: counted first. */
    method CopySubdirectory(n: Node, q: Path, depth: nat) returns (r: Copied)
      requires n.Dir? && RealTree(n) && Fits(limits, Counts()) && chunk > 0 && Vacant(disk.nodes, q)
      modifies this, disk
      decreases n, 3
      ensures r != CallFailed ==>
        (r == Finished <==> Shapely(n, depth + 1) && Fits(limits, old(Counts()).Plus(Totals(n))))
      ensures r == Finished ==> Counts() == old(Counts()).Plus(Totals(n)) && Imaged(disk.nodes, old(disk.nodes), q, n)
    {
      ghost var goal := Counts().Plus(Totals(n));
      DirectoryFirst(Counts(), n);
      dirs := dirs + 1;
      assert goal == Counts().Plus(TotalsOf(n.entries));
      if dirs > MAX_DIRECTORIES {
        assert !Fits(limits, goal);
        r := Refused(Policy);
      } else {
        r := FillDirectory(n, q, depth);
      }
    }

    /** The directory itself: created private, filled, and then given its own mode. */
    method FillDirectory(n: Node, q: Path, depth: nat) returns (r: Copied)
      requires n.Dir? && RealTree(n) && Fits(limits, Counts()) && chunk > 0 && Vacant(disk.nodes, q)
      modifies this, disk
      decreases n, 2
      ensures r != CallFailed ==>
        (r == Finished <==> Shapely(n, depth + 1) && Fits(limits, old(Counts()).Plus(TotalsOf(n.entries))))
      ensures r == Finished ==>
        Counts() == old(Counts()).Plus(TotalsOf(n.entries)) && Imaged(disk.nodes, old(disk.nodes), q, n)
    {
      var ok := disk.Create(q, DirInode(0x1C0));
      if !ok { return CallFailed; }
      ghost var made := disk.nodes;
      StillVacant(old(disk.nodes), q, DirInode(0x1C0));
      r := CopyDirectory(n, q, depth + 1);
      if r == Finished {
        ghost var filled := disk.nodes;
        DirectoryImage(old(disk.nodes), made, filled, q, n);
        ok := disk.ChangeMode(q, Permissions(n.mode));
        if !ok { r := CallFailed; }
      }
    }

    /** One listed entry, with the image of the others kept. */
    method CopyNext(n: Node, at: Path, depth: nat, left: seq<Entry>, i: nat, seen: nat, ghost base: Image)
      returns (r: Copied)
      requires n.Dir? && RealTree(n) && Fits(limits, Counts()) && chunk > 0
      requires i < |left| && NamesDistinct(left) && left[i] in n.entries
      requires ImagedExcept(disk.nodes, base, at, n, left)
      modifies this, disk
      decreases n, 0
      ensures r != CallFailed ==>
        (r == Finished <==> Welcome(left[i], depth, seen) && Fits(limits, old(Counts()).Plus(Totals(left[i].node))))
      ensures r == Finished ==>
        Counts() == old(Counts()).Plus(Totals(left[i].node)) && ImagedExcept(disk.nodes, base, at, n, Without(left, i))
    {
      var e := left[i];
      if seen >= MAX_ENTRIES || !ValidName(e.name) {
        r := Refused(Policy);
      } else {
        ghost var before := disk.nodes;
        NextIsVacant(before, base, at, n, left, e);
        r := CopyChild(e.node, at + [e.name], depth);
        if r == Finished { ImageGrows(before, disk.nodes, base, at, n, left, i); }
      }
    }

    /** `copy_directory`: every listed entry in turn, in whatever order the kernel lists them. */
    method CopyDirectory(n: Node, at: Path, depth: nat) returns (r: Copied)
      requires n.Dir? && RealTree(n) && Fits(limits, Counts()) && chunk > 0
      requires forall p :: Below(at, p) ==> At(disk.nodes, p) == None
      modifies this, disk
      decreases n, 1
      ensures r != CallFailed ==>
        (r == Finished <==> Shapely(n, depth) && Fits(limits, old(Counts()).Plus(TotalsOf(n.entries))))
      ensures r == Finished ==>
        Counts() == old(Counts()).Plus(TotalsOf(n.entries)) && ImagedExcept(disk.nodes, old(disk.nodes), at, n, [])
    {
      if depth > MAX_DEPTH { return Refused(Policy); }
      var left := n.entries;
      var seen: nat := 0;
      StartsEmpty(disk.nodes, at, n);
      while left != []
        invariant Progress(n, depth, left, seen) && NamesDistinct(left) && Fits(limits, Counts())
        invariant old(Counts()).Plus(TotalsOf(n.entries)) == Counts().Plus(TotalsOf(left))
        invariant ImagedExcept(disk.nodes, old(disk.nodes), at, n, left)
        decreases |left|
      {
        var i: nat :| i < |left|;
        CountOn(old(Counts()), n, Counts(), left, i, limits);
        r := CopyNext(n, at, depth, left, i, seen, old(disk.nodes));
        if r != Finished {
          if !Welcome(left[i], depth, seen) { Stops(n, depth, left, i, seen); }
          return;
        }
        Advance(n, depth, left, i, seen);
        StillDistinct(left, i);
        left, seen := Without(left, i), seen + 1;
      }
      Complete(n, depth, seen);
      r := Finished;
    }
  }

  lemma OneFileImage(base: Image, q: Path, n: Node)
    requires n.File? && Vacant(base, q)
    ensures Imaged(base[q := FileAt(n)], base, q, n)
  {
    var m := base[q := FileAt(n)];
    forall p ensures At(m, p) == if q <= p then Expected(n, p[|q|..]) else At(base, p) {
      assert q[|q|..] == [];
      if q <= p && p != q { assert At(base, p) == None && p[|q|..] != []; }
    }
  }

  lemma StillVacant(base: Image, q: Path, inode: Inode)
    requires Vacant(base, q)
    ensures forall p :: Below(q, p) ==> At(base[q := inode], p) == None
  {
    forall p | Below(q, p) ensures At(base[q := inode], p) == None {
      assert q <= p && p != q && At(base, p) == None;
    }
  }

  /** A directory created, filled and given its mode is the directory's image. */
  lemma DirectoryImage(base: Image, made: Image, filled: Image, q: Path, n: Node)
    requires n.Dir? && Vacant(base, q) && made == base[q := DirInode(0x1C0)]
    requires ImagedExcept(filled, made, q, n, [])
    ensures q in filled && Imaged(filled[q := WithMode(filled[q], Permissions(n.mode))], base, q, n)
  {
    assert At(filled, q) == SoFar(made, q, n, [], q);
    var m := filled[q := WithMode(filled[q], Permissions(n.mode))];
    forall p ensures At(m, p) == if q <= p then Expected(n, p[|q|..]) else At(base, p) {
      assert At(filled, p) == SoFar(made, q, n, [], p);
      if q <= p && p != q { assert Below(q, p); }
    }
  }

  /** The destination below `at` is the source, path by path, and everything else is `base`. */
  ghost predicate SameTree(m: Image, base: Image, at: Path, source: Node) {
    && (forall p :: p != [] ==> At(m, at + p) == Expected(source, p))
    && (forall p :: !Below(at, p) ==> At(m, p) == At(base, p))
  }

  lemma WholeImage(m: Image, base: Image, at: Path, source: Node)
    requires ImagedExcept(m, base, at, source, [])
    ensures SameTree(m, base, at, source)
  {
    forall p: Path | p != [] ensures At(m, at + p) == Expected(source, p) {
      assert Below(at, at + p) && (at + p)[|at|..] == p;
      assert At(m, at + p) == SoFar(base, at, source, [], at + p);
    }
    forall p | !Below(at, p) ensures At(m, p) == At(base, p) {
      assert At(m, p) == SoFar(base, at, source, [], p);
    }
  }

  /** `copy_tree` on a stable source and an exclusive destination whose root `at` is empty. When it
      returns, the destination below its root is the source in names, bytes and permissions, nothing
      else changed, and the usage is the one `walk_tree` reports; and unless a call fails it returns
      exactly when `walk_tree` accepts the source. */
  method CopyTree(source: Node, disk: Disk, at: Path, limits: Limits, chunk: nat) returns (r: Copied, usage: Usage)
    requires RealTree(source) && chunk > 0
    requires forall p :: Below(at, p) ==> At(disk.nodes, p) == None
    modifies disk
    ensures r != CallFailed ==> (r == Finished <==> Acceptable(source, limits))
    ensures r == Finished ==> usage == TotalsOf(source.entries)
    ensures r == Finished ==> SameTree(disk.nodes, old(disk.nodes), at, source)
  {
    if !source.Dir? { return Refused(Policy), NOTHING; }
    var c := new Copier(disk, limits, chunk);
    r := c.CopyDirectory(source, at, 0);
    usage := c.Counts();
    if r == Finished { WholeImage(disk.nodes, old(disk.nodes), at, source); }
  }
}
