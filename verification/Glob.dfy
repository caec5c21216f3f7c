/** The closed glob grammar of allowed changes: the one-row dynamic program against its meaning, and
    the protected-path override. */
module Glob {
  import opened Seqs
  import opened Paths

  const STAR := 0x2A
  const QUESTION := 0x3F
  const DOUBLE_STAR: Text := [STAR, STAR]

  // ----- Meaning: a pattern absorbs an input piece by piece ------------------------------------------

  /** `cuts` splits `xs` into one block per pattern piece, in order and without gaps. */
  ghost predicate Cuts<X>(n: nat, xs: seq<X>, cuts: seq<nat>) {
    && |cuts| == n + 1 && cuts[0] == 0 && cuts[n] == |xs|
    && forall i, j :: 0 <= i <= j <= n ==> cuts[i] <= cuts[j]
  }

  ghost function Block<X>(xs: seq<X>, cuts: seq<nat>, n: nat, i: nat): seq<X>
    requires Cuts(n, xs, cuts) && i < n
  {
    assert cuts[i + 1] <= cuts[n];
    xs[cuts[i]..cuts[i + 1]]
  }

  ghost predicate Absorbed<P, X>(absorbs: (P, seq<X>) -> bool, ps: seq<P>, xs: seq<X>, cuts: seq<nat>) {
    && Cuts(|ps|, xs, cuts)
    && forall i :: 0 <= i < |ps| ==> absorbs(ps[i], Block(xs, cuts, |ps|, i))
  }

  /** Each piece can absorb its own block of some split. */
  ghost predicate Matches<P, X(!new)>(absorbs: (P, seq<X>) -> bool, ps: seq<P>, xs: seq<X>) {
    exists cuts :: Absorbed(absorbs, ps, xs, cuts)
  }

  /** The last piece takes the input from `k` on, and the others match what is before it. */
  ghost predicate EndsAt<P, X(!new)>(absorbs: (P, seq<X>) -> bool, ps: seq<P>, p: P, xs: seq<X>, k: nat) {
    k <= |xs| && absorbs(p, xs[k..]) && Matches(absorbs, ps, xs[..k])
  }

  lemma AbsorbedGrows<P, X(!new)>(
      absorbs: (P, seq<X>) -> bool, ps: seq<P>, p: P, xs: seq<X>, k: nat, cuts: seq<nat>)
    requires k <= |xs| && absorbs(p, xs[k..]) && Absorbed(absorbs, ps, xs[..k], cuts)
    ensures Absorbed(absorbs, ps + [p], xs, cuts + [|xs|])
  {
    var all, more := ps + [p], cuts + [|xs|];
    forall i | 0 <= i < |all| ensures absorbs(all[i], Block(xs, more, |all|, i)) {
      if i < |ps| {
        assert Block(xs, more, |all|, i) == Block(xs[..k], cuts, |ps|, i);
      } else {
        assert Block(xs, more, |all|, i) == xs[k..];
      }
    }
  }

  lemma AbsorbedShrinks<P, X(!new)>(
      absorbs: (P, seq<X>) -> bool, ps: seq<P>, p: P, xs: seq<X>, cuts: seq<nat>)
    requires Absorbed(absorbs, ps + [p], xs, cuts)
    ensures EndsAt(absorbs, ps, p, xs, cuts[|ps|])
  {
    var all, k, less := ps + [p], cuts[|ps|], cuts[..|ps| + 1];
    assert k <= cuts[|all|];
    assert Block(xs, cuts, |all|, |ps|) == xs[k..] && all[|ps|] == p;
    assert Cuts(|ps|, xs[..k], less);
    forall i | 0 <= i < |ps| ensures absorbs(ps[i], Block(xs[..k], less, |ps|, i)) {
      assert Block(xs[..k], less, |ps|, i) == Block(xs, cuts, |all|, i) && all[i] == ps[i];
    }
    assert Absorbed(absorbs, ps, xs[..k], less);
  }

  lemma MatchesLast<P, X(!new)>(absorbs: (P, seq<X>) -> bool, ps: seq<P>, p: P, xs: seq<X>)
    ensures Matches(absorbs, ps + [p], xs) <==> exists k: nat :: EndsAt(absorbs, ps, p, xs, k)
  {
    if Matches(absorbs, ps + [p], xs) {
      var cuts :| Absorbed(absorbs, ps + [p], xs, cuts);
      AbsorbedShrinks(absorbs, ps, p, xs, cuts);
    }
    forall k: nat | EndsAt(absorbs, ps, p, xs, k) ensures Matches(absorbs, ps + [p], xs) {
      var cuts :| Absorbed(absorbs, ps, xs[..k], cuts);
      AbsorbedGrows(absorbs, ps, p, xs, k, cuts);
    }
  }

  lemma MatchesNothing<P, X(!new)>(absorbs: (P, seq<X>) -> bool, xs: seq<X>)
    ensures Matches(absorbs, [], xs) <==> xs == []
  {
    var none: seq<P> := [];
    if xs == [] { assert Absorbed(absorbs, none, xs, [0]); }
  }

  // ----- One segment ---------------------------------------------------------------------------------

  /** `*` absorbs any run without a slash, `?` one character that is not a slash, and every other
      character itself. */
  predicate CharAbsorbs(c: int, run: Text) {
    if c == STAR then SLASH !in run
    else if c == QUESTION then |run| == 1 && run[0] != SLASH
    else run == [c]
  }

  /** What the compiled regular expression accepts as a full match. */
  ghost predicate SegmentMeans(pattern: Text, value: Text) { Matches(CharAbsorbs, pattern, value) }

  /** A matcher for it, reading from the end. */
  predicate SegmentMatches(pattern: Text, value: Text)
    decreases |pattern|, |value|
  {
    if pattern == [] then value == []
    else
      var front, c := pattern[..|pattern| - 1], pattern[|pattern| - 1];
      if c == STAR then
        SegmentMatches(front, value)
        || (value != [] && value[|value| - 1] != SLASH && SegmentMatches(pattern, value[..|value| - 1]))
      else
        value != [] && CharAbsorbs(c, [value[|value| - 1]]) && SegmentMatches(front, value[..|value| - 1])
  }

  lemma StarShorter(front: Text, value: Text, k: nat)
    requires value != [] && k < |value|
    ensures EndsAt(CharAbsorbs, front, STAR, value, k) <==>
      value[|value| - 1] != SLASH && EndsAt(CharAbsorbs, front, STAR, value[..|value| - 1], k)
  {
    var shorter, last := value[..|value| - 1], value[|value| - 1];
    assert value[k..] == shorter[k..] + [last];
    assert shorter[..k] == value[..k];
  }

  /** The regular expression is exactly the meaning of one segment. */
  lemma {:induction false} SegmentMatchesIsMeaning(pattern: Text, value: Text)
    ensures SegmentMatches(pattern, value) <==> SegmentMeans(pattern, value)
    decreases |pattern|, |value|
  {
    if pattern == [] {
      MatchesNothing<int, int>(CharAbsorbs, value);
    } else {
      var front, c := pattern[..|pattern| - 1], pattern[|pattern| - 1];
      assert pattern == front + [c];
      MatchesLast(CharAbsorbs, front, c, value);
      if c == STAR {
        SegmentMatchesIsMeaning(front, value);
        StarIsMeaning(front, value);
        if value != [] { SegmentMatchesIsMeaning(pattern, value[..|value| - 1]); }
      } else if value != [] {
        SegmentMatchesIsMeaning(front, value[..|value| - 1]);
        OneIsMeaning(front, c, value);
      }
    }
  }

  lemma StarIsMeaning(front: Text, value: Text)
    ensures SegmentMeans(front + [STAR], value) <==>
      SegmentMeans(front, value)
      || (value != [] && value[|value| - 1] != SLASH && SegmentMeans(front + [STAR], value[..|value| - 1]))
  {
    MatchesLast(CharAbsorbs, front, STAR, value);
    assert value[..|value|] == value;
    assert EndsAt(CharAbsorbs, front, STAR, value, |value|) <==> SegmentMeans(front, value);
    forall k: nat | EndsAt(CharAbsorbs, front, STAR, value, k) ensures k <= |value| { }
    if value != [] {
      var shorter := value[..|value| - 1];
      MatchesLast(CharAbsorbs, front, STAR, shorter);
      forall k: nat | k < |value|
        ensures EndsAt(CharAbsorbs, front, STAR, value, k) <==>
          value[|value| - 1] != SLASH && EndsAt(CharAbsorbs, front, STAR, shorter, k)
      {
        StarShorter(front, value, k);
      }
    }
  }

  lemma OneIsMeaning(front: Text, c: int, value: Text)
    requires c != STAR && value != []
    ensures SegmentMeans(front + [c], value) <==>
      CharAbsorbs(c, [value[|value| - 1]]) && SegmentMeans(front, value[..|value| - 1])
  {
    MatchesLast(CharAbsorbs, front, c, value);
    var k := |value| - 1;
    forall j: nat | EndsAt(CharAbsorbs, front, c, value, j) ensures j == k {
      var run := value[j..];
      assert CharAbsorbs(c, run) && |run| == |value| - j;
      assert |run| == 1;
    }
    assert value[k..] == [value[k]];
    assert EndsAt(CharAbsorbs, front, c, value, k) <==>
      CharAbsorbs(c, [value[k]]) && SegmentMeans(front, value[..k]);
  }

  /** A question mark is any one character, a star any number of them, never a slash; and any other
      character is itself. */
  lemma OneCharacterPatterns(c: int, value: Text)
    ensures SegmentMatches([0x3F], value) <==> |value| == 1 && value[0] != 0x2F
    ensures SegmentMatches([0x2A], value) <==> 0x2F !in value
    ensures c != 0x2A && c != 0x3F ==> (SegmentMatches([c], value) <==> value == [c])
  {
    var none: Text := [];
    assert [c][..0] == none && [0x3F][..0] == none;
    StarAlone(value);
    if |value| == 1 { assert value == [value[0]]; }
  }

  lemma {:induction false} StarAlone(value: Text)
    ensures SegmentMatches([0x2A], value) <==> 0x2F !in value
    decreases |value|
  {
    var none: Text := [];
    assert [0x2A][..0] == none;
    if value != [] {
      var front, last := value[..|value| - 1], value[|value| - 1];
      StarAlone(front);
      assert value == front + [last];
    }
  }

  /** A pattern without stars and question marks matches itself and nothing else. */
  lemma {:induction false} PlainPatternIsItself(pattern: Text, value: Text)
    requires 0x2A !in pattern && 0x3F !in pattern
    ensures SegmentMatches(pattern, value) <==> value == pattern
    decreases |pattern|
  {
    if pattern != [] {
      var front, c := pattern[..|pattern| - 1], pattern[|pattern| - 1];
      assert pattern == front + [c] && c in pattern;
      assert forall x :: x in front ==> x in pattern;
      if value != [] {
        PlainPatternIsItself(front, value[..|value| - 1]);
        assert value == value[..|value| - 1] + [value[|value| - 1]];
      }
    }
  }

  // ----- Whole paths -----------------------------------------------------------------------------------

  /** `**` absorbs zero or more whole segments; every other piece absorbs exactly one. */
  predicate PieceAbsorbs(piece: Text, run: seq<Text>) {
    piece == DOUBLE_STAR || (|run| == 1 && SegmentMatches(piece, run[0]))
  }

  ghost predicate GlobMeans(pieces: seq<Text>, segments: seq<Text>) { Matches(PieceAbsorbs, pieces, segments) }

  /** Appending `**` to a pattern: it matches what some prefix of the path matches. */
  lemma DoubleStarCell(pieces: seq<Text>, segments: seq<Text>)
    ensures GlobMeans(pieces + [DOUBLE_STAR], segments) <==>
      GlobMeans(pieces, segments)
      || (segments != [] && GlobMeans(pieces + [DOUBLE_STAR], segments[..|segments| - 1]))
  {
    MatchesLast(PieceAbsorbs, pieces, DOUBLE_STAR, segments);
    assert segments[..|segments|] == segments;
    assert EndsAt(PieceAbsorbs, pieces, DOUBLE_STAR, segments, |segments|) <==> GlobMeans(pieces, segments);
    if segments != [] {
      var shorter := segments[..|segments| - 1];
      MatchesLast(PieceAbsorbs, pieces, DOUBLE_STAR, shorter);
      forall k: nat | k < |segments|
        ensures EndsAt(PieceAbsorbs, pieces, DOUBLE_STAR, segments, k) <==>
                EndsAt(PieceAbsorbs, pieces, DOUBLE_STAR, shorter, k)
      {
        assert segments[..k] == shorter[..k];
      }
    }
  }

  lemma PieceCell(pieces: seq<Text>, piece: Text, segments: seq<Text>)
    requires piece != DOUBLE_STAR
    ensures GlobMeans(pieces + [piece], segments) <==>
      segments != [] && SegmentMatches(piece, segments[|segments| - 1])
      && GlobMeans(pieces, segments[..|segments| - 1])
  {
    MatchesLast(PieceAbsorbs, pieces, piece, segments);
    forall j: nat | EndsAt(PieceAbsorbs, pieces, piece, segments, j) ensures j == |segments| - 1 {
      assert |segments[j..]| == |segments| - j;
    }
    if segments != [] {
      var k := |segments| - 1;
      assert segments[k..] == [segments[k]];
      assert EndsAt(PieceAbsorbs, pieces, piece, segments, k) <==>
        SegmentMatches(piece, segments[k]) && GlobMeans(pieces, segments[..k]);
    }
  }

  /** Row `i` of the dynamic program: which prefixes of the path the first `i` pieces match. */
  ghost predicate Row(row: seq<bool>, pieces: seq<Text>, segments: seq<Text>) {
    && |row| == |segments| + 1
    && forall j :: 0 <= j <= |segments| ==> (row[j] <==> GlobMeans(pieces, segments[..j]))
  }

  method FirstRow(segments: seq<Text>) returns (row: array<bool>)
    ensures fresh(row) && Row(row[..], [], segments)
  {
    row := new bool[|segments| + 1](_ => false);
    row[0] := true;
    forall j | 0 <= j <= |segments| ensures row[j] <==> GlobMeans([], segments[..j]) {
      MatchesNothing<Text, Text>(PieceAbsorbs, segments[..j]);
    }
  }

  /** One pattern segment: the next row from the previous one. */
  method NextRow(previous: array<bool>, ghost pieces: seq<Text>, piece: Text, segments: seq<Text>)
    returns (current: array<bool>)
    requires Row(previous[..], pieces, segments)
    ensures fresh(current) && Row(current[..], pieces + [piece], segments)
  {
    current := new bool[|segments| + 1](_ => false);
    if piece == DOUBLE_STAR {
      current[0] := previous[0];
      DoubleStarCell(pieces, segments[..0]);
      for j := 1 to |segments| + 1
        invariant forall k :: 0 <= k < j ==> (current[k] <==> GlobMeans(pieces + [piece], segments[..k]))
      {
        DoubleStarCell(pieces, segments[..j]);
        assert segments[..j][..j - 1] == segments[..j - 1];
        assert previous[..][j] <==> GlobMeans(pieces, segments[..j]);
        current[j] := previous[j] || current[j - 1];
      }
    } else {
      PieceCell(pieces, piece, segments[..0]);
      for j := 1 to |segments| + 1
        invariant forall k :: 0 <= k < j ==> (current[k] <==> GlobMeans(pieces + [piece], segments[..k]))
      {
        PieceCell(pieces, piece, segments[..j]);
        assert segments[..j][..j - 1] == segments[..j - 1];
        assert previous[..][j - 1] <==> GlobMeans(pieces, segments[..j - 1]);
        current[j] := previous[j - 1] && SegmentMatches(piece, segments[j - 1]);
      }
    }
  }

  /** The body of `glob_matches` after both arguments are validated and split. */
  method MatchSegments(pieces: seq<Text>, segments: seq<Text>) returns (matched: bool)
    ensures matched <==> GlobMeans(pieces, segments)
  {
    var row := FirstRow(segments);
    for i := 0 to |pieces|
      invariant Row(row[..], pieces[..i], segments)
    {
      assert pieces[..i + 1] == pieces[..i] + [pieces[i]];
      row := NextRow(row, pieces[..i], pieces[i], segments);
    }
    assert pieces[..|pieces|] == pieces && segments[..|segments|] == segments;
    matched := row[|segments|];
  }

  // ----- The policy --------------------------------------------------------------------------------------

  /** `**` occurs in `segment`. */
  predicate HasDoubleStar(segment: Text) { exists i :: 0 <= i < |segment| - 1 && segment[i] == STAR && segment[i + 1] == STAR }

  /** `validate_allowed_change_glob`: no character class, and `**` only as a whole segment. */
  predicate ValidGlob(pattern: Text) {
    && ValidRelativePath(pattern)
    && forall s :: s in Split(pattern) ==> 0x5B !in s && 0x5D !in s && (HasDoubleStar(s) ==> s == DOUBLE_STAR)
  }

  /** Two stars stand at `i`, alone between slashes or the ends of the pattern. */
  predicate StarsAlone(pattern: Text, i: nat)
    requires i + 1 < |pattern|
  {
    (i == 0 || pattern[i - 1] == 0x2F) && (i + 2 == |pattern| || pattern[i + 2] == 0x2F)
  }

  /** The closed grammar, read off the whole text: no brackets, and two stars in a row only alone. */
  lemma ValidGlobIs(pattern: Text)
    ensures ValidGlob(pattern) <==>
      && ValidRelativePath(pattern) && 0x5B !in pattern && 0x5D !in pattern
      && forall i :: 0 <= i < |pattern| - 1 && pattern[i] == 0x2A && pattern[i + 1] == 0x2A ==> StarsAlone(pattern, i)
  {
    if ValidGlob(pattern) {
      forall i | 0 <= i < |pattern|
        ensures pattern[i] != 0x5B && pattern[i] != 0x5D
        ensures i + 1 < |pattern| && pattern[i] == 0x2A && pattern[i + 1] == 0x2A ==> StarsAlone(pattern, i)
      {
        CharacterIsAllowed(pattern, i);
      }
    } else if ValidRelativePath(pattern) {
      var s :| s in Split(pattern) && !(0x5B !in s && 0x5D !in s && (HasDoubleStar(s) ==> s == DOUBLE_STAR));
      BadSegment(pattern, s);
    }
  }

  lemma CharacterIsAllowed(pattern: Text, i: nat)
    requires ValidGlob(pattern) && i < |pattern|
    ensures pattern[i] != 0x5B && pattern[i] != 0x5D
    ensures i + 1 < |pattern| && pattern[i] == 0x2A && pattern[i + 1] == 0x2A ==> StarsAlone(pattern, i)
  {
    if pattern[i] != SLASH {
      var a, b := SegmentAround(pattern, i);
      PartsAre(pattern, pattern[a..b]);
      assert pattern[a..b][i - a] == pattern[i];
      if i + 1 < |pattern| && pattern[i] == 0x2A && pattern[i + 1] == 0x2A { StarsFill(pattern, i, a, b); }
    }
  }

  lemma StarsFill(pattern: Text, i: nat, a: nat, b: nat)
    requires SegmentAt(pattern, a, b) && a <= i < b && i + 1 < |pattern|
    requires pattern[i] == 0x2A && pattern[i + 1] == 0x2A
    requires HasDoubleStar(pattern[a..b]) ==> pattern[a..b] == DOUBLE_STAR
    ensures StarsAlone(pattern, i)
  {
    var s := pattern[a..b];
    assert i + 1 < b;
    assert s[i - a] == pattern[i] && s[i - a + 1] == pattern[i + 1];
    assert |s| == 2;
  }

  lemma BadSegment(pattern: Text, s: Text)
    requires s in Split(pattern) && !(0x5B !in s && 0x5D !in s && (HasDoubleStar(s) ==> s == DOUBLE_STAR))
    ensures 0x5B in pattern || 0x5D in pattern
      || exists i :: 0 <= i < |pattern| - 1 && pattern[i] == 0x2A && pattern[i + 1] == 0x2A && !StarsAlone(pattern, i)
  {
    PartsAre(pattern, s);
    var a: nat, b: nat :| SegmentAt(pattern, a, b) && pattern[a..b] == s;
    assert forall k :: 0 <= k < |s| ==> s[k] == pattern[a + k] && pattern[a + k] in pattern;
    if HasDoubleStar(s) && s != DOUBLE_STAR {
      var k: nat :| k < |s| - 1 && s[k] == STAR && s[k + 1] == STAR;
      CrowdedStars(pattern, a, b, k);
    }
  }

  lemma CrowdedStars(pattern: Text, a: nat, b: nat, k: nat)
    requires SegmentAt(pattern, a, b) && a + k + 1 < b && pattern[a..b] != DOUBLE_STAR
    requires pattern[a + k] == STAR && pattern[a + k + 1] == STAR
    ensures !StarsAlone(pattern, a + k)
  {
    var s := pattern[a..b];
    assert s[k] == STAR && s[k + 1] == STAR;
    assert |s| == 2 ==> k == 0 && s == DOUBLE_STAR;
  }

  /** `glob_matches`: an invalid argument is an error, otherwise the answer is the meaning. */
  method GlobMatches(pattern: Text, path: Text) returns (r: Option<bool>)
    ensures r.None? <==> !ValidGlob(pattern) || !ValidRelativePath(path)
    ensures r.Some? ==> (r.value <==> GlobMeans(Split(pattern), Split(path)))
  {
    if !ValidGlob(pattern) || !ValidRelativePath(path) { return None; }
    var matched := MatchSegments(Split(pattern), Split(path));
    r := Some(matched);
  }

  const ALWAYS_PROTECTED: seq<Text> :=
    [Ascii(".git"), Ascii(".gitignore"), Ascii(".gitattributes"), Ascii(".gitmodules"), Ascii("tests")]

  /** The part of a task manifest that the policy reads. */
  datatype Task = Task(allowed: seq<Text>, protectedPaths: seq<Text>)

  /** What `AgentTask` checks when it is made. */
  predicate ValidTask(task: Task) {
    && task.allowed != []
    && (forall g :: g in task.allowed ==> ValidGlob(g))
    && (forall p :: p in task.protectedPaths ==> ValidRelativePath(p))
  }

  function Guarded(task: Task): seq<Text> { ALWAYS_PROTECTED + task.protectedPaths }

  ghost predicate Protected(task: Task, path: Text) { exists p :: p in Guarded(task) && AtOrBelow(p, path) }

  ghost predicate Allowed(task: Task, path: Text) {
    !Protected(task, path) && exists g :: g in task.allowed && GlobMeans(Split(g), Split(path))
  }

  /** Comparing leading parts is the same as being at or below the path. */
  method AnyLeads(roots: seq<Text>, path: Text) returns (found: bool)
    ensures found <==> exists p :: p in roots && AtOrBelow(p, path)
  {
    for i := 0 to |roots|
      invariant forall k :: 0 <= k < i ==> !AtOrBelow(roots[k], path)
    {
      PartsPrefix(roots[i], path);
      if Split(roots[i]) <= Split(path) { return true; }
    }
    found := false;
  }

  /** `is_protected_path`. */
  method IsProtectedPath(task: Task, path: Text) returns (r: Option<bool>)
    ensures r.None? <==> !ValidRelativePath(path)
    ensures r.Some? ==> (r.value <==> Protected(task, path))
  {
    if !ValidRelativePath(path) { return None; }
    var leads := AnyLeads(Guarded(task), path);
    r := Some(leads);
  }

  /** `is_change_allowed`: the protected override comes before any glob. */
  method IsChangeAllowed(task: Task, path: Text) returns (r: Option<bool>)
    requires ValidTask(task)
    ensures r.None? <==> !ValidRelativePath(path)
    ensures r.Some? ==> (r.value <==> Allowed(task, path))
  {
    var isProtected := IsProtectedPath(task, path);
    if isProtected.None? { return None; }
    if isProtected.value { return Some(false); }
    for i := 0 to |task.allowed|
      invariant forall k :: 0 <= k < i ==> !GlobMeans(Split(task.allowed[k]), Split(path))
    {
      var matched := GlobMatches(task.allowed[i], path);
      if matched == Some(true) { return Some(true); }
    }
    r := Some(false);
  }

  /** `**` alone matches every path. */
  lemma {:induction false} DoubleStarMatchesAll(segments: seq<Text>)
    ensures GlobMeans([DOUBLE_STAR], segments)
    decreases |segments|
  {
    var none: seq<Text> := [];
    assert none + [DOUBLE_STAR] == [DOUBLE_STAR];
    DoubleStarCell(none, segments);
    if segments == [] {
      MatchesNothing<Text, Text>(PieceAbsorbs, segments);
    } else {
      DoubleStarMatchesAll(segments[..|segments| - 1]);
    }
  }

  /** A task that allows every path still allows exactly those outside the protected ones: nothing
      at or below a protected path is ever allowed, whatever the globs. */
  lemma ProtectionOverridesEveryGlob(task: Task, path: Text)
    ensures Protected(task, path) ==> !Allowed(task, path)
    ensures [0x2A, 0x2A] in task.allowed ==> (Allowed(task, path) <==> !Protected(task, path))
  {
    if DOUBLE_STAR in task.allowed {
      SplitOne(DOUBLE_STAR);
      DoubleStarMatchesAll(Split(path));
    }
  }

  /** Git's own files and the tests are protected in every task. */
  lemma AlwaysProtected(task: Task, path: Text)
    requires AtOrBelow(Ascii(".git"), path) || AtOrBelow(Ascii(".gitignore"), path)
      || AtOrBelow(Ascii(".gitattributes"), path) || AtOrBelow(Ascii(".gitmodules"), path) || AtOrBelow(Ascii("tests"), path)
    ensures Protected(task, path)
  {
    assert forall k :: 0 <= k < |ALWAYS_PROTECTED| ==> Guarded(task)[k] == ALWAYS_PROTECTED[k];
    assert Guarded(task)[0] in Guarded(task) && Guarded(task)[1] in Guarded(task) && Guarded(task)[2] in Guarded(task);
    assert Guarded(task)[3] in Guarded(task) && Guarded(task)[4] in Guarded(task);
  }
}
