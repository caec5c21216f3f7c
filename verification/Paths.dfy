/** Portable relative paths as text: splitting at `/`, joining, and what the suite accepts. */
module Paths {
  import opened Seqs

  type Text = seq<int>

  function Ascii(s: string): Text { seq(|s|, i requires 0 <= i < |s| => s[i] as int) }

  const SLASH := 0x2F

  ghost predicate NoSlash(t: Text) { SLASH !in t }

  /** `value.split("/")`. */
  function Split(t: Text): (parts: seq<Text>)
    ensures |parts| >= 1
    ensures forall i :: 0 <= i < |parts| ==> NoSlash(parts[i])
  {
    if t == [] then [[]]
    else
      var rest := Split(t[1..]);
      if t[0] == SLASH then [[]] + rest else [[t[0]] + rest[0]] + rest[1..]
  }

  /** `"/".join(parts)`. */
  function Join(parts: seq<Text>): Text
    requires parts != []
  {
    if |parts| == 1 then parts[0] else parts[0] + [SLASH] + Join(parts[1..])
  }

  lemma {:induction false} JoinSplit(t: Text)
    ensures Join(Split(t)) == t
    decreases |t|
  {
    if t != [] {
      JoinSplit(t[1..]);
      var rest := Split(t[1..]);
      if t[0] == SLASH {
        assert ([[]] + rest)[1..] == rest;
        assert t == [] + [SLASH] + t[1..];
      } else {
        JoinFirst(t[0], rest);
        assert t == [t[0]] + t[1..];
      }
    }
  }

  lemma JoinFirst(c: int, parts: seq<Text>)
    requires parts != []
    ensures Join([[c] + parts[0]] + parts[1..]) == [c] + Join(parts)
  {
    var more := [[c] + parts[0]] + parts[1..];
    assert more[1..] == parts[1..];
    if |parts| > 1 {
      assert [c] + parts[0] + [SLASH] + Join(parts[1..]) == [c] + (parts[0] + [SLASH] + Join(parts[1..]));
    }
  }

  lemma {:induction false} SplitOne(t: Text)
    requires NoSlash(t)
    ensures Split(t) == [t]
    decreases |t|
  {
    if t != [] {
      assert t[0] in t && forall c :: c in t[1..] ==> c in t;
      SplitOne(t[1..]);
      assert [t[0]] + t[1..] == t;
    }
  }

  lemma {:induction false} SplitAfter(p: Text, rest: Text)
    requires NoSlash(p)
    ensures Split(p + [SLASH] + rest) == [p] + Split(rest)
    decreases |p|
  {
    var t := p + [SLASH] + rest;
    if p == [] {
      assert t[1..] == rest;
    } else {
      assert p[0] in p && forall c :: c in p[1..] ==> c in p;
      assert t[1..] == p[1..] + [SLASH] + rest;
      SplitAfter(p[1..], rest);
      var after := [p[1..]] + Split(rest);
      assert Split(t[1..]) == after && after[1..] == Split(rest);
      assert [t[0]] + after[0] == p;
    }
  }

  /** Parts without a slash survive the round trip, so distinct part lists are distinct paths. */
  lemma {:induction false} SplitJoin(parts: seq<Text>)
    requires parts != [] && forall i :: 0 <= i < |parts| ==> NoSlash(parts[i])
    ensures Split(Join(parts)) == parts
    decreases |parts|
  {
    if |parts| == 1 {
      SplitOne(parts[0]);
    } else {
      SplitAfter(parts[0], Join(parts[1..]));
      SplitJoin(parts[1..]);
    }
  }

  lemma {:induction false} JoinConcat(a: seq<Text>, b: seq<Text>)
    requires a != [] && b != []
    ensures Join(a + b) == Join(a) + [SLASH] + Join(b)
    decreases |a|
  {
    assert (a + b)[1..] == a[1..] + b;
    if |a| > 1 { JoinConcat(a[1..], b); }
  }

  /** `path` is `root` or lies beneath it. */
  predicate AtOrBelow(root: Text, path: Text) {
    path == root || root + [SLASH] <= path
  }

  /** Comparing the leading parts is the same as comparing text at a part boundary. */
  lemma PartsPrefix(root: Text, path: Text)
    ensures Split(root) <= Split(path) <==> AtOrBelow(root, path)
  {
    JoinSplit(root);
    JoinSplit(path);
    if Split(root) <= Split(path) {
      if |Split(root)| == |Split(path)| {
        assert Split(root) == Split(path);
      } else {
        LongerParts(root, path);
      }
    }
    if root + [SLASH] <= path { LongerText(root, path); }
  }

  lemma LongerParts(root: Text, path: Text)
    requires Split(root) < Split(path)
    ensures root + [SLASH] <= path
  {
    var rs, ps := Split(root), Split(path);
    JoinSplit(root);
    JoinSplit(path);
    assert ps == rs + ps[|rs|..];
    JoinConcat(rs, ps[|rs|..]);
  }

  lemma LongerText(root: Text, path: Text)
    requires root + [SLASH] <= path
    ensures Split(root) <= Split(path)
  {
    var rs := Split(root);
    var rest := path[|root| + 1..];
    assert path == root + [SLASH] + rest;
    JoinSplit(root);
    JoinSplit(rest);
    JoinConcat(rs, Split(rest));
    SplitJoin(rs + Split(rest));
  }

  // ----- What the suite accepts as a path -----------------------------------------------------------

  predicate IsSurrogate(c: int) { 0xD800 <= c <= 0xDFFF }

  /** `validate_relative_path`. */
  predicate ValidRelativePath(t: Text) {
    && t != []
    && (forall c :: c in t ==> !IsSurrogate(c))
    && 0 !in t && 0x5C !in t && 0x3A !in t
    && t[0] != SLASH
    && forall p :: p in Split(t) ==> p != [] && p != [0x2E] && p != [0x2E, 0x2E]
  }

  // ----- The same, read off the text ----------------------------------------------------------------

  /** Between slashes or the ends of the text, and without a slash inside. */
  ghost predicate SegmentAt(t: Text, a: nat, b: nat) {
    && a <= b <= |t| && (a == 0 || t[a - 1] == SLASH) && (b == |t| || t[b] == SLASH)
    && forall i :: a <= i < b ==> t[i] != SLASH
  }

  ghost predicate HasSegment(t: Text, from: nat, p: Text) {
    exists a: nat, b: nat :: from <= a && SegmentAt(t, a, b) && t[a..b] == p
  }

  lemma SegmentLater(t: Text, a: nat, b: nat)
    requires t != [] && 0 < a
    ensures SegmentAt(t, a, b) <==> b > 0 && SegmentAt(t[1..], a - 1, b - 1) && (a == 1 ==> t[0] == SLASH)
    ensures a <= b <= |t| ==> t[a..b] == t[1..][a - 1..b - 1]
  {
    var u := t[1..];
    assert forall i :: 0 <= i < |u| ==> u[i] == t[i + 1];
    if a <= b <= |t| {
      assert (forall i :: a <= i < b ==> t[i] != SLASH) <==> (forall i :: a - 1 <= i < b - 1 ==> u[i] != SLASH) by {
        forall i | a <= i < b ensures t[i] == u[i - 1] {}
      }
    }
  }

  lemma LaterSegments(t: Text, p: Text)
    requires t != []
    ensures HasSegment(t, 1, p) <==> HasSegment(t[1..], if t[0] == SLASH then 0 else 1, p)
  {
    var from := if t[0] == SLASH then 0 else 1;
    forall a: nat, b: nat | 1 <= a && SegmentAt(t, a, b) && t[a..b] == p
      ensures HasSegment(t[1..], from, p)
    {
      SegmentLater(t, a, b);
      assert SegmentAt(t[1..], a - 1, b - 1) && t[1..][a - 1..b - 1] == p;
    }
    forall a: nat, b: nat | from <= a && SegmentAt(t[1..], a, b) && t[1..][a..b] == p
      ensures HasSegment(t, 1, p)
    {
      SegmentLater(t, a + 1, b + 1);
      assert SegmentAt(t, a + 1, b + 1) && t[a + 1..b + 1] == p;
    }
  }

  /** The first part is the segment at the start, and the other parts are the later segments. */
  lemma {:induction false} FirstAndLater(t: Text, p: Text)
    ensures SegmentAt(t, 0, |Split(t)[0]|) && t[..|Split(t)[0]|] == Split(t)[0]
    ensures p in Split(t)[1..] <==> HasSegment(t, 1, p)
    decreases |t|
  {
    if t != [] {
      FirstAndLater(t[1..], p);
      LaterSegments(t, p);
      var rest := Split(t[1..]);
      var n := |rest[0]|;
      if t[0] == SLASH {
        assert Split(t)[1..] == rest;
        assert HasSegment(t[1..], 0, p) <==> p == rest[0] || HasSegment(t[1..], 1, p) by { FirstOrLater(t[1..], p); }
        assert p in rest <==> p == rest[0] || p in rest[1..] by { assert rest == [rest[0]] + rest[1..]; }
      } else {
        assert Split(t)[1..] == rest[1..];
        assert forall i :: 0 < i <= n ==> t[i] == t[1..][i - 1];
        assert t[..n + 1] == [t[0]] + t[1..][..n];
        assert n + 1 < |t| ==> t[n + 1] == t[1..][n];
      }
    }
  }

  lemma FirstOrLater(t: Text, p: Text)
    requires SegmentAt(t, 0, |Split(t)[0]|) && t[..|Split(t)[0]|] == Split(t)[0]
    ensures HasSegment(t, 0, p) <==> p == Split(t)[0] || HasSegment(t, 1, p)
  {
    var n := |Split(t)[0]|;
    assert t[0..n] == t[..n];
    assert forall i :: 0 <= i < n ==> t[i] != SLASH;
    assert n == |t| || t[n] == SLASH;
    forall b: nat | SegmentAt(t, 0, b) ensures b == n {
      assert forall i :: 0 <= i < b ==> t[i] != SLASH;
      assert b == |t| || t[b] == SLASH;
    }
  }

  /** The parts of a text are its segments. */
  lemma PartsAre(t: Text, p: Text)
    ensures p in Split(t) <==> exists a: nat, b: nat :: SegmentAt(t, a, b) && t[a..b] == p
  {
    FirstAndLater(t, p);
    FirstOrLater(t, p);
    var parts := Split(t);
    assert parts == [parts[0]] + parts[1..];
    assert HasSegment(t, 0, p) <==> exists a: nat, b: nat :: SegmentAt(t, a, b) && t[a..b] == p;
  }

  /** The segment that a character lies in. */
  lemma SegmentAround(t: Text, i: nat) returns (a: nat, b: nat)
    requires i < |t| && t[i] != SLASH
    ensures SegmentAt(t, a, b) && a <= i < b
  {
    a := i;
    while a > 0 && t[a - 1] != SLASH
      invariant 0 <= a <= i && forall k :: a <= k <= i ==> t[k] != SLASH
    {
      a := a - 1;
    }
    b := i + 1;
    while b < |t| && t[b] != SLASH
      invariant i < b <= |t| && forall k :: a <= k < b ==> t[k] != SLASH
    {
      b := b + 1;
    }
  }

  /** A path is accepted exactly when it has no surrogate, NUL, backslash or colon, and no segment is
      empty, `.` or `..`; so it neither starts nor ends with a slash, nor has two in a row. */
  lemma ValidPathIs(t: Text)
    ensures ValidRelativePath(t) <==>
      && (forall c :: c in t ==> !(0xD800 <= c <= 0xDFFF) && c != 0 && c != 0x5C && c != 0x3A)
      && forall a: nat, b: nat :: SegmentAt(t, a, b) ==> t[a..b] != [] && t[a..b] != [0x2E] && t[a..b] != [0x2E, 0x2E]
  {
    forall a: nat, b: nat | SegmentAt(t, a, b) ensures t[a..b] in Split(t) { PartsAre(t, t[a..b]); }
    forall p | p in Split(t) ensures exists a: nat, b: nat :: SegmentAt(t, a, b) && t[a..b] == p { PartsAre(t, p); }
    if t != [] && t[0] == SLASH { assert SegmentAt(t, 0, 0) && t[0..0] == []; }
    if t == [] { assert SegmentAt(t, 0, 0) && t[0..0] == []; }
  }
}
