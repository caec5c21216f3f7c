/** The suite's worklist walk over a stable bundle tree. Names and paths are code points; a name on
    disk that is not UTF-8 is listed with surrogates in it. */
module Worklist {
  import opened Seqs
  import opened Paths

  /** What a directory lists: a regular file and its content, a directory, a link or reparse point,
      or any other special file. */
  datatype BundleNode = Regular(content: int) | Folder(entries: seq<BundleEntry>) | Link | Special

  datatype BundleEntry = BundleEntry(name: Text, node: BundleNode)

  datatype Asset = Asset(path: Text, content: int)

  datatype Snapshot = Snapshot(directories: set<Text>, assets: seq<Asset>)

  /** `_join_relative`. */
  function JoinRelative(parent: Text, child: Text): Text {
    if parent == [] then child else parent + [SLASH] + child
  }

  predicate EndsWith(t: Text, suffix: Text) { |suffix| <= |t| && t[|t| - |suffix|..] == suffix }

  const PYCACHE: Text := [0x5F, 0x5F, 0x70, 0x79, 0x63, 0x61, 0x63, 0x68, 0x65, 0x5F, 0x5F]
  const PYC: Text := [0x2E, 0x70, 0x79, 0x63]
  const PYO: Text := [0x2E, 0x70, 0x79, 0x6F]

  /** `_reject_generated_bytecode`. */
  predicate IsBytecode(name: Text) { name == PYCACHE || EndsWith(name, PYC) || EndsWith(name, PYO) }

  /** Exactly the cache directory and the names with a compiled suffix; a plain `.py` is not one. */
  lemma BytecodeNames(name: Text)
    ensures IsBytecode(name) <==>
      name == Ascii("__pycache__") || exists stem: Text :: name == stem + Ascii(".pyc") || name == stem + Ascii(".pyo")
    ensures !IsBytecode(Ascii("a.py"))
  {
    assert Ascii("__pycache__") == PYCACHE && Ascii(".pyc") == PYC && Ascii(".pyo") == PYO;
    if EndsWith(name, PYC) { assert name == name[..|name| - 4] + PYC; }
    if EndsWith(name, PYO) { assert name == name[..|name| - 4] + PYO; }
    forall stem: Text | name == stem + PYC || name == stem + PYO ensures IsBytecode(name) {
      assert name[|name| - 4..] == PYC || name[|name| - 4..] == PYO;
    }
    assert Ascii("a.py")[3] == 0x79 && |Ascii("a.py")| == 4 && Ascii("a.py")[0] == 0x61;
  }

  /** A name the operating system lets a directory list. */
  predicate RealName(name: Text) {
    && name != [] && name != [0x2E] && name != [0x2E, 0x2E] && SLASH !in name
    && forall c :: c in name ==> 0 < c <= 0x10FFFF
  }

  /** A real directory tree: real names, each listed once per directory. */
  predicate RealBundle(n: BundleNode)
    decreases n
  {
    n.Folder? ==> RealEntries(n.entries) && forall i :: 0 <= i < |n.entries| ==> RealBundle(n.entries[i].node)
  }

  predicate RealEntries(es: seq<BundleEntry>) {
    && (forall i :: 0 <= i < |es| ==> RealName(es[i].name))
    && (forall i, j :: 0 <= i < j < |es| ==> es[i].name != es[j].name)
  }

  /** The entry can be sorted by its bytes, is not compiled Python, and, when it is a directory, can
      be opened again by its path, which may hold neither a colon nor a backslash. */
  predicate Tolerated(e: BundleEntry) {
    && (forall c :: c in e.name ==> !IsSurrogate(c))
    && !IsBytecode(e.name)
    && (e.node.Folder? ==> Portable(e.name))
  }

  predicate Portable(name: Text) { 0x3A !in name && 0x5C !in name }

  /** Nothing in the tree is refused: tolerated entries, and neither links nor special files. */
  predicate Clean(n: BundleNode)
    decreases n
  {
    match n
    case Regular(_) => true
    case Folder(es) => forall i :: 0 <= i < |es| ==> Tolerated(es[i]) && Clean(es[i].node)
    case _ => false
  }

  // ----- Meaning: the regular files and the directories of a tree --------------------------------

  function AssetsAt(path: Text, n: BundleNode): set<Asset>
    decreases n, 0
  {
    match n
    case Regular(content) => {Asset(path, content)}
    case Folder(es) => AssetsOf(path, es)
    case _ => {}
  }

  function AssetsOf(path: Text, es: seq<BundleEntry>): set<Asset>
    decreases es, 1
  {
    if es == [] then {} else AssetsAt(JoinRelative(path, es[0].name), es[0].node) + AssetsOf(path, es[1..])
  }

  function FoldersAt(path: Text, n: BundleNode): set<Text>
    decreases n, 0
  {
    if n.Folder? then {path} + FoldersOf(path, n.entries) else {}
  }

  function FoldersOf(path: Text, es: seq<BundleEntry>): set<Text>
    decreases es, 1
  {
    if es == [] then {} else FoldersAt(JoinRelative(path, es[0].name), es[0].node) + FoldersOf(path, es[1..])
  }

  function Weight(n: BundleNode): nat
    decreases n, 0
  {
    if n.Folder? then 1 + WeightOf(n.entries) else 1
  }

  function WeightOf(es: seq<BundleEntry>): nat
    decreases es, 1
  {
    if es == [] then 0 else Weight(es[0].node) + WeightOf(es[1..])
  }

  /** Files, directories and weight do not depend on the order in which entries are taken. */
  lemma {:induction false} Pick(path: Text, es: seq<BundleEntry>, i: nat)
    requires i < |es|
    ensures AssetsOf(path, es) == AssetsAt(JoinRelative(path, es[i].name), es[i].node) + AssetsOf(path, Without(es, i))
    ensures FoldersOf(path, es) == FoldersAt(JoinRelative(path, es[i].name), es[i].node) + FoldersOf(path, Without(es, i))
    ensures WeightOf(es) == Weight(es[i].node) + WeightOf(Without(es, i))
    decreases |es|
  {
    if i == 0 {
      assert Without(es, 0) == es[1..];
    } else {
      Pick(path, es[1..], i - 1);
      WithoutLater(es, i);
    }
  }

  // ----- Paths name their parents ----------------------------------------------------------------

  /** The text before the last slash, or nothing. */
  function Parent(p: Text): (r: Text)
    ensures |r| <= |p|
  {
    if p == [] then [] else if p[|p| - 1] == SLASH then p[..|p| - 1] else Parent(p[..|p| - 1])
  }

  lemma {:induction false} ParentOfName(name: Text)
    requires SLASH !in name
    ensures Parent(name) == []
    decreases |name|
  {
    if name != [] {
      assert name[|name| - 1] in name && forall c :: c in name[..|name| - 1] ==> c in name;
      ParentOfName(name[..|name| - 1]);
    }
  }

  lemma {:induction false} ParentOfJoin(dir: Text, name: Text)
    requires SLASH !in name && name != []
    ensures Parent(JoinRelative(dir, name)) == dir
    ensures |JoinRelative(dir, name)| > |dir|
    decreases |name|
  {
    if dir == [] {
      ParentOfName(name);
    } else {
      var p, front := dir + [SLASH] + name, name[..|name| - 1];
      assert name[|name| - 1] in name && forall c :: c in front ==> c in name;
      assert p[..|p| - 1] == dir + [SLASH] + front;
      if front == [] {
        assert dir + [SLASH] + front == dir + [SLASH];
        assert (dir + [SLASH])[..|dir|] == dir;
      } else {
        ParentOfJoin(dir, front);
      }
    }
  }

  lemma JoinIsInjective(dir: Text, a: Text, b: Text)
    requires JoinRelative(dir, a) == JoinRelative(dir, b)
    ensures a == b
  {
    if dir != [] {
      assert (dir + [SLASH] + a)[|dir| + 1..] == a && (dir + [SLASH] + b)[|dir| + 1..] == b;
    }
  }

  /** A directory can be opened again by its path exactly when its parent can and its own name is
      portable. */
  lemma ValidJoin(dir: Text, name: Text)
    requires ValidRelativePath(dir) && RealName(name) && forall c :: c in name ==> !IsSurrogate(c)
    ensures ValidRelativePath(JoinRelative(dir, name)) <==> Portable(name)
  {
    var p := JoinRelative(dir, name);
    assert p == dir + [SLASH] + name && p[0] == dir[0];
    JoinSplit(dir);
    SplitOne(name);
    JoinConcat(Split(dir), [name]);
    SplitJoin(Split(dir) + [name]);
    assert Split(p) == Split(dir) + [name];
    assert forall c :: c in p <==> c in dir || c == SLASH || c in name;
  }

  /** A directory named `a:b` is refused, a regular file of the same name is not. */
  lemma ColonDirectoryIsRefused()
    ensures var tree := Folder([BundleEntry([0x61, 0x3A, 0x62], Folder([]))]);
      RealBundle(tree) && !Clean(tree)
    ensures Clean(Folder([BundleEntry([0x61, 0x3A, 0x62], Regular(0))]))
  {
    var name: Text := [0x61, 0x3A, 0x62];
    var e := BundleEntry(name, Folder([]));
    assert name[1] == 0x3A && RealBundle(e.node);
    assert [e][0] == e && !Portable(name);
  }

  // ----- Order by path bytes ---------------------------------------------------------------------

  predicate Less(a: Text, b: Text)
    decreases |a|
  {
    b != [] && (a == [] || a[0] < b[0] || (a[0] == b[0] && Less(a[1..], b[1..])))
  }

  lemma {:induction false} LessIsTotal(a: Text, b: Text)
    ensures a == b || Less(a, b) || Less(b, a)
    decreases |a|
  {
    if a != [] && b != [] && a[0] == b[0] {
      LessIsTotal(a[1..], b[1..]);
      assert a == [a[0]] + a[1..] && b == [b[0]] + b[1..];
    }
  }

  lemma {:induction false} LessIsTransitive(a: Text, b: Text, c: Text)
    requires Less(a, b) && Less(b, c)
    ensures Less(a, c)
    decreases |a|
  {
    if a != [] && a[0] == b[0] && b[0] == c[0] { LessIsTransitive(a[1..], b[1..], c[1..]); }
  }

  lemma {:induction false} LessIsStrict(a: Text)
    ensures !Less(a, a)
    decreases |a|
  {
    if a != [] { LessIsStrict(a[1..]); }
  }

  /** A lead byte and `n` continuation bytes of six bits each. */
  function Sextets(lead: int, c: nat, n: nat): (r: Text)
    ensures |r| == n + 1
  {
    if n == 0 then [lead + c] else Sextets(lead, c / 0x40, n - 1) + [0x80 + c % 0x40]
  }

  /** The UTF-8 form of a code point (section 3 of RFC 3629). */
  function Utf8Char(c: int): (r: Text)
    requires 0 <= c <= 0x10FFFF
    ensures r != []
  {
    if c < 0x80 then [c]
    else if c < 0x800 then Sextets(0xC0, c, 1)
    else if c < 0x1_0000 then Sextets(0xE0, c, 2)
    else Sextets(0xF0, c, 3)
  }

  predicate InRange(t: Text) { forall i :: 0 <= i < |t| ==> 0 <= t[i] <= 0x10FFFF }

  function Utf8(t: Text): Text
    requires InRange(t)
  {
    if t == [] then [] else Utf8Char(t[0]) + Utf8(t[1..])
  }

  /** Two texts that agree up to `k` are ordered by what stands there. */
  lemma {:induction false} LessAt(a: Text, b: Text, k: nat)
    requires k < |a| && k < |b| && a[..k] == b[..k] && a[k] < b[k]
    ensures Less(a, b)
    decreases k
  {
    if k > 0 {
      assert a[0] == a[..k][0] && b[0] == b[..k][0];
      assert a[1..][..k - 1] == a[..k][1..] && b[1..][..k - 1] == b[..k][1..];
      LessAt(a[1..], b[1..], k - 1);
    }
  }

  lemma {:induction false} LessPrefix(p: Text, a: Text, b: Text)
    requires Less(a, b)
    ensures Less(p + a, p + b)
    decreases |p|
  {
    if p == [] {
      assert p + a == a && p + b == b;
    } else {
      assert (p + a)[1..] == p[1..] + a && (p + b)[1..] == p[1..] + b;
      LessPrefix(p[1..], a, b);
    }
  }

  lemma {:induction false} SextetsDiffer(lead: int, c: nat, d: nat, n: nat) returns (k: nat)
    requires c < d
    ensures k <= n && Sextets(lead, c, n)[..k] == Sextets(lead, d, n)[..k]
    ensures Sextets(lead, c, n)[k] < Sextets(lead, d, n)[k]
    decreases n
  {
    if n == 0 {
      k := 0;
    } else if c / 0x40 < d / 0x40 {
      k := SextetsDiffer(lead, c / 0x40, d / 0x40, n - 1);
      assert Sextets(lead, c, n)[..n] == Sextets(lead, c / 0x40, n - 1);
      assert Sextets(lead, d, n)[..n] == Sextets(lead, d / 0x40, n - 1);
      assert Sextets(lead, c, n)[..k] == Sextets(lead, c, n)[..n][..k];
      assert Sextets(lead, d, n)[..k] == Sextets(lead, d, n)[..n][..k];
    } else {
      k := n;
    }
  }

  /** Forms of different lengths differ in the lead byte already. */
  lemma LeadBytes(c: int)
    requires 0 <= c <= 0x10FFFF
    ensures var r := Utf8Char(c);
      if c < 0x80 then r == [c]
      else if c < 0x800 then 0xC0 <= r[0] < 0xE0
      else if c < 0x1_0000 then 0xE0 <= r[0] < 0xF0
      else 0xF0 <= r[0]
  {
    var lead := if c < 0x800 then 0xC0 else if c < 0x1_0000 then 0xE0 else 0xF0;
    var n := if c < 0x800 then 1 else if c < 0x1_0000 then 2 else 3;
    assert Sextets(lead, c, n)[0] == Sextets(lead, c / 0x40, n - 1)[0];
    if n >= 2 { assert Sextets(lead, c / 0x40, n - 1)[0] == Sextets(lead, c / 0x40 / 0x40, n - 2)[0]; }
    if n == 3 { assert Sextets(lead, c / 0x40 / 0x40, 1)[0] == Sextets(lead, c / 0x40 / 0x40 / 0x40, 0)[0]; }
  }

  /** The place at which the forms of two code points first differ. */
  lemma CharsDiffer(c: int, d: int) returns (k: nat)
    requires 0 <= c < d <= 0x10FFFF
    ensures k < |Utf8Char(c)| && k < |Utf8Char(d)|
    ensures Utf8Char(c)[..k] == Utf8Char(d)[..k] && Utf8Char(c)[k] < Utf8Char(d)[k]
  {
    LeadBytes(c);
    LeadBytes(d);
    if 0x80 <= c && d < 0x800 { k := SextetsDiffer(0xC0, c, d, 1); }
    else if 0x800 <= c && d < 0x1_0000 { k := SextetsDiffer(0xE0, c, d, 2); }
    else if 0x1_0000 <= c { k := SextetsDiffer(0xF0, c, d, 3); }
    else { k := 0; }
  }

  lemma CharOrder(c: int, d: int, x: Text, y: Text)
    requires 0 <= c < d <= 0x10FFFF
    ensures Less(Utf8Char(c) + x, Utf8Char(d) + y)
  {
    var k := CharsDiffer(c, d);
    var a, b := Utf8Char(c) + x, Utf8Char(d) + y;
    assert a[..k] == Utf8Char(c)[..k] && b[..k] == Utf8Char(d)[..k];
    LessAt(a, b, k);
  }

  lemma {:induction false} BytesFollow(a: Text, b: Text)
    requires InRange(a) && InRange(b) && Less(a, b)
    ensures Less(Utf8(a), Utf8(b))
    decreases |a|
  {
    if a == [] {
      assert Utf8(b) != [];
    } else if a[0] < b[0] {
      CharOrder(a[0], b[0], Utf8(a[1..]), Utf8(b[1..]));
    } else {
      BytesFollow(a[1..], b[1..]);
      LessPrefix(Utf8Char(a[0]), Utf8(a[1..]), Utf8(b[1..]));
    }
  }

  /** Ordering by code points is ordering by UTF-8 bytes. */
  lemma ByteOrder(a: Text, b: Text)
    requires InRange(a) && InRange(b)
    ensures Less(Utf8(a), Utf8(b)) <==> Less(a, b)
  {
    LessIsTotal(a, b);
    LessIsStrict(Utf8(a));
    if Less(a, b) { BytesFollow(a, b); }
    if Less(b, a) {
      BytesFollow(b, a);
      if Less(Utf8(a), Utf8(b)) { LessIsTransitive(Utf8(a), Utf8(b), Utf8(a)); }
    }
  }

  ghost predicate Ascending(s: seq<Asset>) {
    forall i, j :: 0 <= i < j < |s| ==> Less(s[i].path, s[j].path)
  }

  ghost predicate DistinctPaths(s: seq<Asset>) {
    forall i, j :: 0 <= i < j < |s| ==> s[i].path != s[j].path
  }

  /** The place of `a` in an ascending list is found from the end. */
  function Insert(s: seq<Asset>, a: Asset): (r: seq<Asset>)
    ensures |r| == |s| + 1 && forall x :: x in r <==> x in s || x == a
    decreases |s|
  {
    if s == [] || Less(s[|s| - 1].path, a.path) then s + [a]
    else
      assert forall x :: x in s <==> x in s[..|s| - 1] || x == s[|s| - 1];
      Insert(s[..|s| - 1], a) + [s[|s| - 1]]
  }

  lemma {:induction false} InsertKeepsOrder(s: seq<Asset>, a: Asset)
    requires Ascending(s) && forall x :: x in s ==> x.path != a.path
    ensures Ascending(Insert(s, a))
    decreases |s|
  {
    if s != [] {
      var front, last := s[..|s| - 1], s[|s| - 1];
      if Less(last.path, a.path) {
        forall i | 0 <= i < |front| ensures Less(front[i].path, a.path) {
          LessIsTransitive(front[i].path, last.path, a.path);
        }
      } else {
        LessIsTotal(last.path, a.path);
        InsertKeepsOrder(front, a);
        forall x | x in Insert(front, a) ensures Less(x.path, last.path) {
          if x in front { var i :| 0 <= i < |front| && front[i] == x; assert s[i] == x; }
        }
      }
    }
  }

  /** `sorted(assets, key=path bytes)`; see `ByteOrder`. */
  method Sort(list: seq<Asset>) returns (s: seq<Asset>)
    requires DistinctPaths(list)
    ensures Ascending(s) && ToSet(s) == ToSet(list) && |s| == |list|
  {
    s := [];
    for i := 0 to |list|
      invariant Ascending(s) && |s| == i && ToSet(s) == ToSet(list[..i])
    {
      assert forall x :: x in s ==> x in ToSet(s);
      InsertKeepsOrder(s, list[i]);
      assert ToSet(Insert(s, list[i])) == ToSet(s) + {list[i]};
      assert list[..i + 1] == list[..i] + [list[i]];
      assert ToSet(list[..i + 1]) == ToSet(list[..i]) + {list[i]};
      s := Insert(s, list[i]);
    }
    assert list[..|list|] == list;
  }

  /** An ascending list is determined by its elements. */
  lemma {:induction false} AscendingIsUnique(s: seq<Asset>, t: seq<Asset>)
    requires Ascending(s) && Ascending(t) && ToSet(s) == ToSet(t)
    ensures s == t
    decreases |s|
  {
    if s == [] {
      if t != [] { NonEmptyToSet(t); }
    } else {
      assert s[0] in ToSet(s);
      assert t != [];
      FirstsAgree(s, t);
      RestsAgree(s, t);
      AscendingIsUnique(s[1..], t[1..]);
    }
  }

  lemma FirstsAgree(s: seq<Asset>, t: seq<Asset>)
    requires s != [] && t != [] && Ascending(s) && Ascending(t) && ToSet(s) == ToSet(t)
    ensures s[0] == t[0]
  {
    assert s[0] in ToSet(t) && t[0] in ToSet(s);
    var i :| 0 <= i < |t| && t[i] == s[0];
    var j :| 0 <= j < |s| && s[j] == t[0];
    if i > 0 && j > 0 {
      LessIsTransitive(s[0].path, t[0].path, s[0].path);
      LessIsStrict(s[0].path);
    }
  }

  lemma RestsAgree(s: seq<Asset>, t: seq<Asset>)
    requires s != [] && t != [] && Ascending(s) && Ascending(t) && ToSet(s) == ToSet(t) && s[0] == t[0]
    ensures ToSet(s[1..]) == ToSet(t[1..])
  {
    LessIsStrict(s[0].path);
    assert ToSet(s) == {s[0]} + ToSet(s[1..]) && ToSet(t) == {t[0]} + ToSet(t[1..]);
    assert s[0] !in ToSet(s[1..]) && t[0] !in ToSet(t[1..]);
  }

  // ----- The walk --------------------------------------------------------------------------------

  /** A directory waiting to be listed: its path, and the pinned directory itself. */
  datatype Task = Task(path: Text, folder: BundleNode)

  ghost predicate Waiting(pending: seq<Task>) {
    forall i :: 0 <= i < |pending| ==> pending[i].folder.Folder? && RealBundle(pending[i].folder)
  }

  function PendingAssets(pending: seq<Task>): set<Asset> {
    if pending == [] then {}
    else PendingAssets(pending[..|pending| - 1]) + AssetsAt(pending[|pending| - 1].path, pending[|pending| - 1].folder)
  }

  /** The directories still to be found below the waiting ones. */
  function PendingFolders(pending: seq<Task>): set<Text>
    requires Waiting(pending)
  {
    if pending == [] then {}
    else
      var last := pending[|pending| - 1];
      PendingFolders(pending[..|pending| - 1]) + FoldersOf(last.path, last.folder.entries)
  }

  function PendingWeight(pending: seq<Task>): nat {
    if pending == [] then 0 else PendingWeight(pending[..|pending| - 1]) + Weight(pending[|pending| - 1].folder)
  }

  predicate CleanTask(t: Task) { ValidRelativePath(t.path) && Clean(t.folder) }

  predicate PendingClean(pending: seq<Task>) {
    forall i :: 0 <= i < |pending| ==> CleanTask(pending[i])
  }

  /** The walk's variables. `listed` records every directory opened for listing, in order. */
  datatype Walk = Walk(directories: set<Text>, assets: seq<Asset>, pending: seq<Task>, listed: seq<Text>)

  /** One listed entry of the directory at `path`: refused, or remembered. */
  function TakeEntry(w: Walk, path: Text, e: BundleEntry): Option<Walk> {
    if e.node.Link? || IsBytecode(e.name) || exists c :: c in e.name && IsSurrogate(c) then None
    else
      var p := JoinRelative(path, e.name);
      match e.node
      case Folder(_) => Some(w.(directories := w.directories + {p}, pending := w.pending + [Task(p, e.node)]))
      case Regular(content) => Some(w.(assets := w.assets + [Asset(p, content)]))
      case _ => None
  }

  /** Everything found or still to be found, when the directory at `path` has `left` to go. */
  ghost predicate Accounts(root: Task, w: Walk, path: Text, left: seq<BundleEntry>) {
    && Waiting(w.pending)
    && AssetsAt(root.path, root.folder) == ToSet(w.assets) + PendingAssets(w.pending) + AssetsOf(path, left)
    && FoldersAt(root.path, root.folder) == w.directories + PendingFolders(w.pending) + FoldersOf(path, left)
    && (CleanTask(root) <==> PendingClean(w.pending) && CleanEntries(left))
  }

  predicate CleanEntries(es: seq<BundleEntry>) { forall e :: e in es ==> Tolerated(e) && Clean(e.node) }

  ghost predicate RealLeft(left: seq<BundleEntry>) {
    RealEntries(left) && forall i :: 0 <= i < |left| ==> RealBundle(left[i].node)
  }

  /** Each path found so far has a parent that was already opened, so a directory that was not
      opened yet can only yield new paths. */
  ghost predicate Parented(root: Text, w: Walk) {
    && (forall d :: d in w.directories ==> |root| <= |d|)
    && (forall d :: d in w.directories && d != root ==> Parent(d) in w.listed)
    && (forall a :: a in w.assets ==> Parent(a.path) in w.listed)
    && DistinctPaths(w.assets)
  }

  /** The waiting directories are known, each waits once, and none was opened yet. */
  ghost predicate Queued(w: Walk) {
    && Distinct(w.listed)
    && (forall i :: 0 <= i < |w.pending| ==> w.pending[i].path !in w.listed)
    && (forall i, j :: 0 <= i < j < |w.pending| ==> w.pending[i].path != w.pending[j].path)
    && w.directories == ToSet(w.listed) + ToSet(Waits(w.pending))
  }

  function Waits(pending: seq<Task>): (r: seq<Text>)
    ensures |r| == |pending| && forall i :: 0 <= i < |pending| ==> r[i] == pending[i].path
  {
    seq(|pending|, i requires 0 <= i < |pending| => pending[i].path)
  }

  /** None of the entries still to go has been found yet. */
  ghost predicate Unseen(w: Walk, path: Text, left: seq<BundleEntry>) {
    forall e :: e in left ==>
      JoinRelative(path, e.name) !in w.directories && forall a :: a in w.assets ==> a.path != JoinRelative(path, e.name)
  }

  ghost predicate Inv(root: Task, w: Walk, path: Text, left: seq<BundleEntry>) {
    && Accounts(root, w, path, left) && RealLeft(left)
    && Parented(root.path, w) && Queued(w) && Unseen(w, path, left)
    && (left != [] ==> path in w.listed && |root.path| <= |path| && ValidRelativePath(path))
  }

  // ----- One entry -------------------------------------------------------------------------------

  lemma LeftMembers(left: seq<BundleEntry>, i: nat)
    requires i < |left|
    ensures forall x :: x in left <==> x in Without(left, i) || x == left[i]
  {
  }

  lemma TakeFolder(root: Task, w: Walk, path: Text, left: seq<BundleEntry>, i: nat)
    requires Accounts(root, w, path, left) && RealLeft(left) && i < |left| && ValidRelativePath(path)
    requires left[i].node.Folder? && TakeEntry(w, path, left[i]).Some?
    ensures Accounts(root, TakeEntry(w, path, left[i]).value, path, Without(left, i))
  {
    var w', task := TakeEntry(w, path, left[i]).value, Task(JoinRelative(path, left[i].name), left[i].node);
    Pick(path, left, i);
    assert w'.pending[..|w.pending|] == w.pending && w'.pending[|w.pending|] == task;
    TakeFolderClean(w, path, left, i);
  }

  lemma TakeFolderClean(w: Walk, path: Text, left: seq<BundleEntry>, i: nat)
    requires RealLeft(left) && i < |left| && ValidRelativePath(path)
    requires left[i].node.Folder? && TakeEntry(w, path, left[i]).Some?
    ensures PendingClean(w.pending) && CleanEntries(left) <==>
      PendingClean(TakeEntry(w, path, left[i]).value.pending) && CleanEntries(Without(left, i))
  {
    LeftMembers(left, i);
    ValidJoin(path, left[i].name);
    CleanMore(w.pending, Task(JoinRelative(path, left[i].name), left[i].node));
  }

  lemma CleanMore(pending: seq<Task>, task: Task)
    ensures PendingClean(pending + [task]) <==> PendingClean(pending) && CleanTask(task)
  {
    if PendingClean(pending + [task]) {
      forall k | 0 <= k < |pending| ensures CleanTask(pending[k]) { assert (pending + [task])[k] == pending[k]; }
      assert (pending + [task])[|pending|] == task;
    }
  }

  lemma TakeFile(root: Task, w: Walk, path: Text, left: seq<BundleEntry>, i: nat)
    requires Accounts(root, w, path, left) && RealLeft(left) && i < |left|
    requires left[i].node.Regular? && TakeEntry(w, path, left[i]).Some?
    ensures Accounts(root, TakeEntry(w, path, left[i]).value, path, Without(left, i))
  {
    Pick(path, left, i);
    LeftMembers(left, i);
    var w' := TakeEntry(w, path, left[i]).value;
    assert ToSet(w'.assets) == ToSet(w.assets) + AssetsAt(JoinRelative(path, left[i].name), left[i].node);
  }

  lemma TakeKeepsAccounts(root: Task, w: Walk, path: Text, left: seq<BundleEntry>, i: nat)
    requires Accounts(root, w, path, left) && RealLeft(left) && i < |left| && ValidRelativePath(path)
    ensures match TakeEntry(w, path, left[i])
      case None => !CleanTask(root)
      case Some(w') => Accounts(root, w', path, Without(left, i))
  {
    if TakeEntry(w, path, left[i]).Some? {
      if left[i].node.Folder? { TakeFolder(root, w, path, left, i); } else { TakeFile(root, w, path, left, i); }
    } else {
      assert left[i] in left;
    }
  }

  lemma TakeKeepsParents(root: Task, w: Walk, path: Text, left: seq<BundleEntry>, i: nat)
    requires Parented(root.path, w) && Unseen(w, path, left) && RealLeft(left) && i < |left|
    requires path in w.listed && |root.path| <= |path| && TakeEntry(w, path, left[i]).Some?
    ensures Parented(root.path, TakeEntry(w, path, left[i]).value)
  {
    ParentOfJoin(path, left[i].name);
    assert left[i] in left;
  }

  lemma TakeKeepsQueue(w: Walk, path: Text, left: seq<BundleEntry>, i: nat)
    requires Queued(w) && Unseen(w, path, left) && i < |left| && TakeEntry(w, path, left[i]).Some?
    ensures Queued(TakeEntry(w, path, left[i]).value)
  {
    var w' := TakeEntry(w, path, left[i]).value;
    assert left[i] in left;
    if left[i].node.Folder? {
      var p := JoinRelative(path, left[i].name);
      assert Waits(w'.pending) == Waits(w.pending) + [p];
      assert ToSet(Waits(w'.pending)) == ToSet(Waits(w.pending)) + {p};
      forall k | 0 <= k < |w.pending| ensures w.pending[k].path in w.directories {
        assert Waits(w.pending)[k] in ToSet(Waits(w.pending));
      }
      forall d | d in w.listed ensures d in w.directories { }
    }
  }

  lemma OthersDiffer(path: Text, left: seq<BundleEntry>, i: nat, e: BundleEntry)
    requires RealEntries(left) && i < |left| && e in Without(left, i)
    ensures e in left && JoinRelative(path, e.name) != JoinRelative(path, left[i].name)
  {
    var rest := Without(left, i);
    var k :| 0 <= k < |rest| && rest[k] == e;
    assert left[if k < i then k else k + 1] == e;
    if JoinRelative(path, e.name) == JoinRelative(path, left[i].name) { JoinIsInjective(path, e.name, left[i].name); }
  }

  lemma TakeKeepsUnseen(w: Walk, path: Text, left: seq<BundleEntry>, i: nat)
    requires Unseen(w, path, left) && RealEntries(left) && i < |left| && TakeEntry(w, path, left[i]).Some?
    ensures Unseen(TakeEntry(w, path, left[i]).value, path, Without(left, i))
  {
    var rest, after := Without(left, i), TakeEntry(w, path, left[i]).value;
    forall e | e in rest
      ensures JoinRelative(path, e.name) !in after.directories
      ensures forall a :: a in after.assets ==> a.path != JoinRelative(path, e.name)
    {
      OthersDiffer(path, left, i, e);
    }
  }

  lemma TakeKeepsReal(left: seq<BundleEntry>, i: nat)
    requires RealLeft(left) && i < |left|
    ensures RealLeft(Without(left, i))
  {
    var rest := Without(left, i);
    forall k | 0 <= k < |rest| ensures rest[k] == left[if k < i then k else k + 1] { }
  }

  lemma TakeKeepsInv(root: Task, w: Walk, path: Text, left: seq<BundleEntry>, i: nat)
    requires Inv(root, w, path, left) && i < |left| && TakeEntry(w, path, left[i]).Some?
    ensures Inv(root, TakeEntry(w, path, left[i]).value, path, Without(left, i))
  {
    TakeKeepsAccounts(root, w, path, left, i);
    TakeKeepsParents(root, w, path, left, i);
    TakeKeepsQueue(w, path, left, i);
    TakeKeepsUnseen(w, path, left, i);
    TakeKeepsReal(left, i);
  }

  // ----- One directory ---------------------------------------------------------------------------

  /** The last waiting directory is opened for listing. */
  function OpenLast(w: Walk): Walk
    requires w.pending != []
  {
    var n := |w.pending| - 1;
    w.(pending := w.pending[..n], listed := w.listed + [w.pending[n].path])
  }

  lemma OpenKeepsAccounts(root: Task, w: Walk, path: Text)
    requires Accounts(root, w, path, []) && w.pending != []
    ensures var last := w.pending[|w.pending| - 1];
      if ValidRelativePath(last.path) then Accounts(root, OpenLast(w), last.path, last.folder.entries)
      else !CleanTask(root)
  {
    var n := |w.pending| - 1;
    var front, last := w.pending[..n], w.pending[n];
    assert w.pending == front + [last];
    assert CleanEntries(last.folder.entries) <==> Clean(last.folder) by {
      forall i | 0 <= i < |last.folder.entries| ensures last.folder.entries[i] in last.folder.entries { }
    }
  }

  lemma OpenKeepsQueue(w: Walk)
    requires Queued(w) && w.pending != []
    ensures Queued(OpenLast(w)) && w.pending[|w.pending| - 1].path in w.directories
  {
    var n := |w.pending| - 1;
    assert Waits(w.pending) == Waits(w.pending[..n]) + [w.pending[n].path];
    assert ToSet(Waits(w.pending)) == ToSet(Waits(w.pending[..n])) + {w.pending[n].path};
    assert ToSet(w.listed + [w.pending[n].path]) == ToSet(w.listed) + {w.pending[n].path};
  }

  /** Nothing found so far lies directly in a directory that is only now opened. */
  lemma OpenIsUnseen(root: Text, w: Walk, path: Text, left: seq<BundleEntry>)
    requires Parented(root, w) && RealLeft(left) && path !in w.listed && |root| <= |path|
    ensures Unseen(w, path, left)
  {
    forall e | e in left
      ensures JoinRelative(path, e.name) !in w.directories
      ensures forall a :: a in w.assets ==> a.path != JoinRelative(path, e.name)
    {
      ParentOfJoin(path, e.name);
    }
  }

  lemma OpenKeepsInv(root: Task, w: Walk, path: Text)
    requires Inv(root, w, path, []) && w.pending != []
    ensures var last := w.pending[|w.pending| - 1];
      if ValidRelativePath(last.path) then Inv(root, OpenLast(w), last.path, last.folder.entries)
      else !CleanTask(root)
  {
    var last := w.pending[|w.pending| - 1];
    OpenKeepsAccounts(root, w, path);
    OpenKeepsQueue(w);
    assert RealBundle(last.folder);
    OpenIsUnseen(root.path, w, last.path, last.folder.entries);
  }

  function StartWalk(root: Task): Walk { Walk({root.path}, [], [root], []) }

  lemma StartInv(root: Task)
    requires root.folder.Folder? && RealBundle(root.folder)
    ensures Inv(root, StartWalk(root), root.path, [])
  {
    var w := StartWalk(root);
    assert w.pending[..0] == [] && w.pending[0] == root;
    assert Waits(w.pending) == [root.path];
  }

  lemma FinishInv(root: Task, w: Walk, path: Text)
    requires Inv(root, w, path, []) && w.pending == []
    ensures CleanTask(root) && ToSet(w.assets) == AssetsAt(root.path, root.folder)
    ensures w.directories == FoldersAt(root.path, root.folder) == ToSet(w.listed) && Distinct(w.listed)
  {
    assert Waits(w.pending) == [];
  }

  lemma TakeDropsWeight(w: Walk, path: Text, left: seq<BundleEntry>, i: nat)
    requires i < |left| && TakeEntry(w, path, left[i]).Some?
    ensures PendingWeight(TakeEntry(w, path, left[i]).value.pending) + WeightOf(Without(left, i))
         <= PendingWeight(w.pending) + WeightOf(left)
  {
    Pick(path, left, i);
    var w' := TakeEntry(w, path, left[i]).value;
    if left[i].node.Folder? { assert w'.pending[..|w.pending|] == w.pending; }
  }

  /** The entries of one opened directory, in whatever order they are listed. */
  method ListDirectory(ghost root: Task, start: Walk, path: Text, entries: seq<BundleEntry>) returns (r: Option<Walk>)
    requires Inv(root, start, path, entries)
    ensures r.None? ==> !CleanTask(root)
    ensures r.Some? ==> Inv(root, r.value, path, [])
    ensures r.Some? ==> PendingWeight(r.value.pending) <= PendingWeight(start.pending) + WeightOf(entries)
  {
    var w, left := start, entries;
    while left != []
      invariant Inv(root, w, path, left)
      invariant PendingWeight(w.pending) + WeightOf(left) <= PendingWeight(start.pending) + WeightOf(entries)
      decreases |left|
    {
      var i: nat :| i < |left|;
      var taken := TakeEntry(w, path, left[i]);
      if taken.None? {
        TakeKeepsAccounts(root, w, path, left, i);
        return None;
      }
      TakeKeepsInv(root, w, path, left, i);
      TakeDropsWeight(w, path, left, i);
      w, left := taken.value, Without(left, i);
    }
    r := Some(w);
  }

  /** `_walk_regular_files` on a stable tree: it ends, refuses exactly the trees that are not clean and
      the paths that are not valid, opens each directory once for listing, and otherwise returns every
      directory and exactly the regular files, without duplicates and in path-byte order, whatever the
      listing order. */
  method WalkRegularFiles(relative: Text, folder: BundleNode) returns (r: Option<Snapshot>, ghost listed: seq<Text>)
    requires folder.Folder? && RealBundle(folder)
    ensures r.Some? <==> ValidRelativePath(relative) && Clean(folder)
    ensures r.Some? ==> r.value.directories == FoldersAt(relative, folder)
    ensures r.Some? ==> Ascending(r.value.assets) && ToSet(r.value.assets) == AssetsAt(relative, folder)
    ensures r.Some? ==> Distinct(listed) && ToSet(listed) == FoldersAt(relative, folder)
  {
    ghost var root := Task(relative, folder);
    var w := Walk({relative}, [], [Task(relative, folder)], []);
    var path := relative;
    StartInv(root);
    while w.pending != []
      invariant Inv(root, w, path, [])
      decreases PendingWeight(w.pending)
    {
      var last := w.pending[|w.pending| - 1];
      OpenKeepsInv(root, w, path);
      if !ValidRelativePath(last.path) { return None, w.listed; }
      var taken := ListDirectory(root, OpenLast(w), last.path, last.folder.entries);
      if taken.None? { return None, w.listed; }
      w, path := taken.value, last.path;
    }
    FinishInv(root, w, path);
    var assets := Sort(w.assets);
    r, listed := Some(Snapshot(w.directories, assets)), w.listed;
  }

  /** Two walks of one clean tree return the same snapshot, whatever orders they listed in. */
  lemma SnapshotIsUnique(a: Snapshot, b: Snapshot, relative: Text, folder: BundleNode)
    requires Ascending(a.assets) && ToSet(a.assets) == AssetsAt(relative, folder)
    requires Ascending(b.assets) && ToSet(b.assets) == AssetsAt(relative, folder)
    ensures a.assets == b.assets
  {
    AscendingIsUnique(a.assets, b.assets);
  }

  // ----- The assets of one task --------------------------------------------------------------------

  /** `_paths_overlap`: one path is at or below the other, part by part. */
  predicate PathsOverlap(left: Text, right: Text) {
    var ls, rs := Split(left), Split(right);
    var shorter := Min(|ls|, |rs|);
    ls[..shorter] == rs[..shorter]
  }

  lemma OverlapIsContainment(left: Text, right: Text)
    ensures PathsOverlap(left, right) <==> AtOrBelow(left, right) || AtOrBelow(right, left)
  {
    PartsPrefix(left, right);
    PartsPrefix(right, left);
    var ls, rs := Split(left), Split(right);
    if |ls| <= |rs| { assert ls[..|ls|] == ls; } else { assert rs[..|rs|] == rs; }
  }

  lemma BelowJoin(root: Text, path: Text, name: Text)
    requires root != [] && AtOrBelow(root, path)
    ensures AtOrBelow(root, JoinRelative(path, name))
  {
    assert path != [];
    assert path[..|root|] == root;
    var p := JoinRelative(path, name);
    assert p[..|path| + 1] == path + [SLASH];
    if path == root { assert root + [SLASH] <= p; } else { assert (root + [SLASH]) == p[..|root| + 1]; }
  }

  /** Every asset of a walk lies at or below the walked path. */
  lemma {:induction false} AssetsLieBelow(root: Text, path: Text, n: BundleNode, a: Asset)
    requires root != [] && AtOrBelow(root, path) && a in AssetsAt(path, n)
    ensures AtOrBelow(root, a.path)
    decreases n, 0
  {
    if n.Folder? { EntriesLieBelow(root, path, n.entries, a); }
  }

  lemma {:induction false} EntriesLieBelow(root: Text, path: Text, es: seq<BundleEntry>, a: Asset)
    requires root != [] && AtOrBelow(root, path) && a in AssetsOf(path, es)
    ensures AtOrBelow(root, a.path)
    decreases es, 1
  {
    var p := JoinRelative(path, es[0].name);
    if a in AssetsAt(p, es[0].node) {
      BelowJoin(root, path, es[0].name);
      AssetsLieBelow(root, p, es[0].node, a);
    } else {
      EntriesLieBelow(root, path, es[1..], a);
    }
  }

  /** Paths under a common prefix overlap exactly when the relative paths do. */
  lemma OverlapUnderPrefix(prefix: Text, left: Text, right: Text)
    ensures PathsOverlap(JoinRelative(prefix, left), JoinRelative(prefix, right)) <==> PathsOverlap(left, right)
  {
    OverlapIsContainment(left, right);
    OverlapIsContainment(JoinRelative(prefix, left), JoinRelative(prefix, right));
    if prefix != [] {
      ContainmentUnderPrefix(prefix, left, right);
      ContainmentUnderPrefix(prefix, right, left);
    }
  }

  lemma ContainmentUnderPrefix(prefix: Text, left: Text, right: Text)
    requires prefix != []
    ensures AtOrBelow(JoinRelative(prefix, left), JoinRelative(prefix, right)) <==> AtOrBelow(left, right)
  {
    var l, r, n := JoinRelative(prefix, left), JoinRelative(prefix, right), |prefix| + 1;
    assert l[n..] == left && r[n..] == right;
    if l + [SLASH] <= r {
      assert (l + [SLASH])[n..] == left + [SLASH];
      assert r[n..][..|left| + 1] == r[n..n + |left| + 1] == left + [SLASH];
    }
    if left + [SLASH] <= right {
      assert right == left + [SLASH] + right[|left| + 1..];
      assert r == l + [SLASH] + right[|left| + 1..];
    }
  }

  /** Two paths that do not overlap have nothing below both. */
  lemma DisjointSubtrees(left: Text, right: Text, p: Text)
    requires !PathsOverlap(left, right)
    ensures !(AtOrBelow(left, p) && AtOrBelow(right, p))
  {
    OverlapIsContainment(left, right);
    PartsPrefix(left, p);
    PartsPrefix(right, p);
    PartsPrefix(left, right);
    PartsPrefix(right, left);
  }

  lemma AscendingIsDistinct(s: seq<Asset>)
    requires Ascending(s)
    ensures DistinctPaths(s)
  {
    forall i, j | 0 <= i < j < |s| ensures s[i].path != s[j].path { LessIsStrict(s[i].path); }
  }

  /** Every path of the list lies at or below one of the roots. */
  ghost predicate Within(s: seq<Asset>, roots: seq<Text>) { forall a :: a in s ==> UnderOne(roots, a.path) }

  ghost predicate UnderOne(roots: seq<Text>, path: Text) {
    exists k :: 0 <= k < |roots| && AtOrBelow(roots[k], path)
  }

  lemma WalkLiesWithin(s: seq<Asset>, root: Text, tree: BundleNode)
    requires root != [] && ToSet(s) == AssetsAt(root, tree)
    ensures Within(s, [root])
  {
    forall a | a in s ensures UnderOne([root], a.path) {
      assert a in ToSet(s);
      AssetsLieBelow(root, root, tree, a);
      assert AtOrBelow([root][0], a.path);
    }
  }

  /** Lists below roots that do not overlap share no path. */
  lemma JoinDistinct(s: seq<Asset>, t: seq<Asset>, roots: seq<Text>, right: Text)
    requires DistinctPaths(s) && DistinctPaths(t) && Within(s, roots) && Within(t, [right])
    requires forall k :: 0 <= k < |roots| ==> !PathsOverlap(roots[k], right)
    ensures DistinctPaths(s + t) && Within(s + t, roots + [right])
  {
    forall a, b | a in s && b in t ensures a.path != b.path {
      var k :| 0 <= k < |roots| && AtOrBelow(roots[k], a.path);
      DisjointSubtrees(roots[k], right, a.path);
    }
    forall a | a in s + t ensures UnderOne(roots + [right], a.path) {
      if a in s {
        var k :| 0 <= k < |roots| && AtOrBelow(roots[k], a.path);
        assert AtOrBelow((roots + [right])[k], a.path);
      } else {
        assert AtOrBelow((roots + [right])[|roots|], a.path);
      }
    }
  }

  lemma OneFileWithin(a: Asset)
    ensures Within([a], [a.path]) && DistinctPaths([a])
  {
    assert AtOrBelow([a.path][0], a.path);
  }

  /** The four groups of a task's assets, each below its own root, have no path in common. */
  lemma FourGroupsAreDistinct(a: Asset, b: Asset, s: seq<Asset>, t: seq<Asset>, third: Text, fourth: Text)
    requires DistinctPaths(s) && DistinctPaths(t) && Within(s, [third]) && Within(t, [fourth])
    requires !PathsOverlap(a.path, b.path) && !PathsOverlap(a.path, third) && !PathsOverlap(a.path, fourth)
    requires !PathsOverlap(b.path, third) && !PathsOverlap(b.path, fourth) && !PathsOverlap(third, fourth)
    ensures DistinctPaths([a, b] + s + t)
  {
    OneFileWithin(a);
    OneFileWithin(b);
    JoinDistinct([a], [b], [a.path], b.path);
    JoinDistinct([a] + [b], s, [a.path] + [b.path], third);
    JoinDistinct([a] + [b] + s, t, [a.path] + [b.path] + [third], fourth);
    assert [a] + [b] == [a, b];
  }

  /** `_snapshot_task_assets`: when the four asset paths of a manifest are pairwise disjoint, the
      prompt, the reference patch, the seed files and the oracle files are all different assets, so
      the duplicate check on the combined list never fires. */
  lemma CombinedAssetsAreDistinct(
      taskRoot: Text, paths: seq<Text>, prompt: Asset, reference: Asset, seed: seq<Asset>, oracle: seq<Asset>,
      seedTree: BundleNode, oracleTree: BundleNode)
    requires |paths| == 4 && forall i :: 0 <= i < 4 ==> paths[i] != []
    requires forall i, j :: 0 <= i < j < 4 ==> !PathsOverlap(paths[i], paths[j])
    requires prompt.path == JoinRelative(taskRoot, paths[0]) && reference.path == JoinRelative(taskRoot, paths[1])
    requires Ascending(seed) && ToSet(seed) == AssetsAt(JoinRelative(taskRoot, paths[2]), seedTree)
    requires Ascending(oracle) && ToSet(oracle) == AssetsAt(JoinRelative(taskRoot, paths[3]), oracleTree)
    ensures DistinctPaths([prompt, reference] + seed + oracle)
  {
    forall i, j | 0 <= i < j < 4
      ensures !PathsOverlap(JoinRelative(taskRoot, paths[i]), JoinRelative(taskRoot, paths[j]))
    {
      OverlapUnderPrefix(taskRoot, paths[i], paths[j]);
    }
    WalkLiesWithin(seed, JoinRelative(taskRoot, paths[2]), seedTree);
    WalkLiesWithin(oracle, JoinRelative(taskRoot, paths[3]), oracleTree);
    AscendingIsDistinct(seed);
    AscendingIsDistinct(oracle);
    FourGroupsAreDistinct(
      prompt, reference, seed, oracle, JoinRelative(taskRoot, paths[2]), JoinRelative(taskRoot, paths[3]));
  }
}
