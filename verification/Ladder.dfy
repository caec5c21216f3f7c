/** What the recognition ladder means, tier by tier, without the loops that compute it
    (measure_twice/scoring/deterministic.py). */
module Ladder {
  import opened Seqs
  import opened Json
  import opened JsonProofs
  import opened LineStore
  import opened Verdict
  import opened Extraction

  // ----- One object -----------------------------------------------------------------------------------

  /** An object answers `key` from its member at `last`.  Of all names that casefold to `key` this one is
      the last to appear for the first time, which is at `first`, and of its values the last one counts. */
  ghost predicate AnswersAt(lang: Lang, ms: seq<(Text, Json)>, key: Text, first: nat, last: nat) {
    && first <= last < |ms| && ms[first].0 == ms[last].0 && lang.casefold(ms[last].0) == key
    && (forall i :: 0 <= i < first ==> ms[i].0 != ms[first].0)
    && (forall i :: last < i < |ms| ==> ms[i].0 != ms[last].0)
    && (forall i :: first < i < |ms| && lang.casefold(ms[i].0) == key ==> SeenBy(ms, i, first))
  }

  /** The name at `i` is also one of the names up to `first`. */
  ghost predicate SeenBy(ms: seq<(Text, Json)>, i: nat, first: nat)
    requires i < |ms| && first < |ms|
  {
    exists h :: 0 <= h <= first && ms[h].0 == ms[i].0
  }

  lemma {:induction false} LoweredIs(lang: Lang, ms: seq<(Text, Json)>, names: seq<Text>, key: Text, n: Text)
    requires Distinct(names) && n in names && lang.casefold(n) == key
    requires forall m :: m in names && lang.casefold(m) == key ==> Place(names, m) <= Place(names, n)
    ensures Lowered(lang, ms, names, key) == Lookup(ms, n)
    decreases |names|
  {
    var front, last := names[..|names| - 1], names[|names| - 1];
    if n != last {
      assert n in front && last !in front && Place(names, last) == |names| - 1;
      LoweredIs(lang, ms, front, key, n);
    }
  }

  lemma {:induction false} LoweredNone(lang: Lang, ms: seq<(Text, Json)>, names: seq<Text>, key: Text)
    requires forall m :: m in names ==> lang.casefold(m) != key
    ensures Lowered(lang, ms, names, key) == None
    decreases |names|
  {
    if names != [] { LoweredNone(lang, ms, names[..|names| - 1], key); }
  }

  /** The last name to casefold to `key`. */
  lemma {:induction false} LastName(lang: Lang, names: seq<Text>, key: Text) returns (n: Text)
    requires Distinct(names) && exists m :: m in names && lang.casefold(m) == key
    ensures n in names && lang.casefold(n) == key
    ensures forall m :: m in names && lang.casefold(m) == key ==> Place(names, m) <= Place(names, n)
    decreases |names|
  {
    var front, last := names[..|names| - 1], names[|names| - 1];
    if lang.casefold(last) == key {
      n := last;
      assert last !in front;
    } else {
      assert forall m :: m in names && m != last ==> m in front;
      n := LastName(lang, front, key);
    }
  }

  lemma {:induction false} LastPlace(ms: seq<(Text, Json)>, first: nat) returns (last: nat)
    requires first < |ms|
    ensures first <= last < |ms| && ms[last].0 == ms[first].0 && forall i :: last < i < |ms| ==> ms[i].0 != ms[last].0
    decreases |ms|
  {
    if ms[|ms| - 1].0 == ms[first].0 {
      last := |ms| - 1;
    } else {
      last := LastPlace(ms[..|ms| - 1], first);
      assert ms[..|ms| - 1][last] == ms[last];
    }
  }

  lemma PlaceOf(s: seq<Text>, i: nat)
    requires i < |s| && s[i] !in s[..i]
    ensures Place(s, s[i]) == i
  {
    var k := Place(s, s[i]);
    assert forall j :: 0 <= j < i ==> s[..i][j] == s[j];
    assert forall j :: 0 <= j < k ==> s[..k][j] == s[j];
  }

  lemma UnseenBefore(ms: seq<(Text, Json)>, i: nat, first: nat)
    requires i < |ms| && first < |ms| && Keys(ms)[i] !in Keys(ms)[..i]
    ensures SeenBy(ms, i, first) ==> i <= first
  {
    assert forall h :: 0 <= h < i ==> Keys(ms)[..i][h] == ms[h].0;
  }

  lemma AnswerIsLookedUp(lang: Lang, ms: seq<(Text, Json)>, key: Text, first: nat, last: nat)
    requires AnswersAt(lang, ms, key, first, last)
    ensures LoweredGet(lang, ms, key) == Some(ms[last].1)
  {
    var keys, n := Keys(ms), ms[first].0;
    DedupIsDistinct(keys);
    assert keys[first] == n;
    assert n !in keys[..first] by { assert forall i :: 0 <= i < first ==> keys[..first][i] == ms[i].0; }
    PlaceOf(keys, first);
    forall m | m in Dedup(keys) && lang.casefold(m) == key
      ensures Place(Dedup(keys), m) <= Place(Dedup(keys), n)
    {
      DedupKeepsOrder(keys, n, m);
      var i := Place(keys, m);
      UnseenBefore(ms, i, first);
    }
    LoweredIs(lang, ms, Dedup(keys), key, n);
    LookupFinds(ms, last);
  }

  lemma AnswerExists(lang: Lang, ms: seq<(Text, Json)>, key: Text) returns (first: nat, last: nat)
    requires exists i :: 0 <= i < |ms| && lang.casefold(ms[i].0) == key
    ensures AnswersAt(lang, ms, key, first, last)
  {
    var keys := Keys(ms);
    DedupIsDistinct(keys);
    var w :| 0 <= w < |ms| && lang.casefold(ms[w].0) == key;
    assert keys[w] in Dedup(keys);
    var n := LastName(lang, Dedup(keys), key);
    first := Place(keys, n);
    last := LastPlace(ms, first);
    forall i | 0 <= i < first ensures ms[i].0 != n {
      assert keys[..first][i] == ms[i].0;
    }
    forall i | first < i < |ms| && lang.casefold(ms[i].0) == key
      ensures SeenBy(ms, i, first)
    {
      var m := keys[i];
      assert m in Dedup(keys);
      DedupKeepsOrder(keys, n, m);
      assert ms[Place(keys, m)].0 == m;
    }
  }

  /** `lowered.get(key)` answers exactly with such a member, and with nothing when no name casefolds to
      the key. */
  lemma LoweredGetIs(lang: Lang, ms: seq<(Text, Json)>, key: Text, value: Json)
    ensures LoweredGet(lang, ms, key) == Some(value) <==>
      exists first: nat, last: nat :: AnswersAt(lang, ms, key, first, last) && ms[last].1 == value
    ensures LoweredGet(lang, ms, key) == None <==> forall i :: 0 <= i < |ms| ==> lang.casefold(ms[i].0) != key
  {
    if exists i :: 0 <= i < |ms| && lang.casefold(ms[i].0) == key {
      var first, last := AnswerExists(lang, ms, key);
      AnswerIsLookedUp(lang, ms, key, first, last);
    } else {
      LoweredNone(lang, ms, Dedup(Keys(ms)), key);
    }
    forall first: nat, last: nat | AnswersAt(lang, ms, key, first, last)
      ensures LoweredGet(lang, ms, key) == Some(ms[last].1)
    {
      AnswerIsLookedUp(lang, ms, key, first, last);
    }
  }

  // ----- The JSON tier --------------------------------------------------------------------------------

  /** `l` is the only listed label that occurs. */
  ghost predicate OnlyLabel(lang: Lang, text: Text, labels: seq<Text>, l: Text) {
    l in labels && Present(lang, text, l) && forall m :: m in labels && Present(lang, text, m) ==> m == l
  }

  /** The verdict keys, most important first. */
  predicate Ranks(key: Text, k: nat) {
    || (k == 0 && key == Lit("verdict")) || (k == 1 && key == Lit("label"))
    || (k == 2 && key == Lit("answer")) || (k == 3 && key == Lit("classification"))
  }

  /** The object's answer to `key` is a string that carries exactly the label `l`. */
  ghost predicate KeySays(lang: Lang, ms: seq<(Text, Json)>, key: Text, labels: seq<Text>, l: Text) {
    exists first: nat, last: nat :: AnswersAt(lang, ms, key, first, last)
      && ms[last].1.Str? && OnlyLabel(lang, ms[last].1.s, labels, l)
  }

  ghost predicate KeySaysNothing(lang: Lang, ms: seq<(Text, Json)>, key: Text, labels: seq<Text>) {
    forall m :: !KeySays(lang, ms, key, labels, m)
  }

  /** The object says `l`: its `k`th key does, and no more important one says anything. */
  ghost predicate SaysAt(lang: Lang, ms: seq<(Text, Json)>, labels: seq<Text>, l: Text, key: Text, k: nat) {
    && Ranks(key, k) && KeySays(lang, ms, key, labels, l)
    && forall other, j: nat :: j < k && Ranks(other, j) ==> KeySaysNothing(lang, ms, other, labels)
  }

  ghost predicate ObjectSays(lang: Lang, ms: seq<(Text, Json)>, labels: seq<Text>, l: Text) {
    exists key, k: nat :: SaysAt(lang, ms, labels, l, key, k)
  }

  /** What one key resolves to in the code. */
  function KeyResolves(lang: Lang, ms: seq<(Text, Json)>, labels: seq<Text>, key: Text): Option<Text> {
    match LoweredGet(lang, ms, key)
    case Some(Str(value)) => UniqueLabel(lang, value, labels)
    case _ => None
  }

  lemma KeySaysIs(lang: Lang, ms: seq<(Text, Json)>, key: Text, labels: seq<Text>, l: Text)
    ensures KeyResolves(lang, ms, labels, key) == Some(l) <==> KeySays(lang, ms, key, labels, l)
  {
    var value := LoweredGet(lang, ms, key);
    if value.Some? {
      LoweredGetIs(lang, ms, key, value.value);
      if value.value.Str? { UniqueLabelIs(lang, value.value.s, labels, l); }
    }
    forall first: nat, last: nat | AnswersAt(lang, ms, key, first, last)
      ensures value == Some(ms[last].1)
    {
      AnswerIsLookedUp(lang, ms, key, first, last);
    }
  }

  lemma KeySilent(lang: Lang, ms: seq<(Text, Json)>, key: Text, labels: seq<Text>)
    ensures KeyResolves(lang, ms, labels, key) == None <==> KeySaysNothing(lang, ms, key, labels)
  {
    var r := KeyResolves(lang, ms, labels, key);
    if r.Some? { KeySaysIs(lang, ms, key, labels, r.value); }
    forall m ensures KeySays(lang, ms, key, labels, m) ==> r == Some(m) { KeySaysIs(lang, ms, key, labels, m); }
  }

  lemma {:induction false} FirstKeyWins(lang: Lang, ms: seq<(Text, Json)>, labels: seq<Text>, k: nat, n: nat)
    requires k <= n <= |VERDICT_KEYS|
    requires forall j :: k <= j < n ==> KeyResolves(lang, ms, labels, VERDICT_KEYS[j]) == None
    ensures ResolveFrom(lang, ms, labels, k) == ResolveFrom(lang, ms, labels, n)
    ensures n < |VERDICT_KEYS| && KeyResolves(lang, ms, labels, VERDICT_KEYS[n]).Some? ==>
      ResolveFrom(lang, ms, labels, k) == KeyResolves(lang, ms, labels, VERDICT_KEYS[n])
    decreases n - k
  {
    if k < n { FirstKeyWins(lang, ms, labels, k + 1, n); }
  }

  lemma KeyRanks(key: Text, k: nat)
    ensures Ranks(key, k) <==> k < |VERDICT_KEYS| && key == VERDICT_KEYS[k]
  {
  }

  /** The keys before `n` say nothing. */
  ghost predicate SilentUpTo(lang: Lang, ms: seq<(Text, Json)>, labels: seq<Text>, n: nat)
    requires n <= |VERDICT_KEYS|
  {
    forall j :: 0 <= j < n ==> KeyResolves(lang, ms, labels, VERDICT_KEYS[j]) == None
  }

  lemma SilentIs(lang: Lang, ms: seq<(Text, Json)>, labels: seq<Text>, n: nat)
    requires n <= |VERDICT_KEYS|
    ensures SilentUpTo(lang, ms, labels, n) <==>
      forall other, j: nat :: j < n && Ranks(other, j) ==> KeySaysNothing(lang, ms, other, labels)
  {
    forall other, j: nat | j < n && Ranks(other, j)
      ensures KeySaysNothing(lang, ms, other, labels) <==> KeyResolves(lang, ms, labels, VERDICT_KEYS[j]) == None
    {
      KeyRanks(other, j);
      KeySilent(lang, ms, other, labels);
    }
    forall j | 0 <= j < n ensures Ranks(VERDICT_KEYS[j], j) { KeyRanks(VERDICT_KEYS[j], j); }
  }

  lemma SaysAtResolves(lang: Lang, ms: seq<(Text, Json)>, labels: seq<Text>, l: Text, key: Text, k: nat)
    requires SaysAt(lang, ms, labels, l, key, k)
    ensures ResolveFrom(lang, ms, labels, 0) == Some(l)
  {
    KeyRanks(key, k);
    KeySaysIs(lang, ms, key, labels, l);
    SilentIs(lang, ms, labels, k);
    FirstKeyWins(lang, ms, labels, 0, k);
  }

  lemma {:induction false} FirstSpeaker(lang: Lang, ms: seq<(Text, Json)>, labels: seq<Text>, k: nat) returns (n: nat)
    requires k <= |VERDICT_KEYS| && SilentUpTo(lang, ms, labels, k) && ResolveFrom(lang, ms, labels, k).Some?
    ensures n < |VERDICT_KEYS| && SilentUpTo(lang, ms, labels, n)
    ensures KeyResolves(lang, ms, labels, VERDICT_KEYS[n]) == ResolveFrom(lang, ms, labels, k)
    decreases |VERDICT_KEYS| - k
  {
    if KeyResolves(lang, ms, labels, VERDICT_KEYS[k]).Some? {
      n := k;
    } else {
      n := FirstSpeaker(lang, ms, labels, k + 1);
    }
  }

  /** An object resolves to `l` exactly when one of its verdict keys says `l` and no more important key
      says anything. */
  lemma ResolveIs(lang: Lang, ms: seq<(Text, Json)>, labels: seq<Text>, l: Text)
    ensures ResolveFrom(lang, ms, labels, 0) == Some(l) <==> ObjectSays(lang, ms, labels, l)
  {
    if ResolveFrom(lang, ms, labels, 0) == Some(l) {
      var n := FirstSpeaker(lang, ms, labels, 0);
      var key := VERDICT_KEYS[n];
      KeyRanks(key, n);
      KeySaysIs(lang, ms, key, labels, l);
      SilentIs(lang, ms, labels, n);
      assert SaysAt(lang, ms, labels, l, key, n);
    }
    forall key, k: nat | SaysAt(lang, ms, labels, l, key, k)
      ensures ResolveFrom(lang, ms, labels, 0) == Some(l)
    {
      SaysAtResolves(lang, ms, labels, l, key, k);
    }
  }

  /** Some top-level object of the text parses and says `l`. */
  ghost predicate SpanSays(lang: Lang, text: Text, span: Span, labels: seq<Text>, l: Text) {
    && IsSpan(text, span)
    && match lang.tryJson(text[span.lo..span.hi])
       case Some(Obj(ms)) => ObjectSays(lang, ms, labels, l)
       case _ => false
  }

  ghost predicate JsonSays(lang: Lang, text: Text, labels: seq<Text>, l: Text) {
    exists span :: SpanSays(lang, text, span, labels, l)
  }

  lemma SpanSaysIs(lang: Lang, text: Text, span: Span, labels: seq<Text>, l: Text)
    requires IsSpan(text, span)
    ensures ResolveSpan(lang, text, span, labels) == Some(l) <==> SpanSays(lang, text, span, labels, l)
  {
    match lang.tryJson(text[span.lo..span.hi])
    case Some(Obj(ms)) => ResolveIs(lang, ms, labels, l);
    case _ =>
  }

  lemma {:induction false} JsonLabelsAre(lang: Lang, text: Text, spans: seq<Span>, labels: seq<Text>, l: Text)
    requires forall span :: span in spans ==> IsSpan(text, span)
    requires forall i :: 0 <= i < |spans| ==> spans[i].lo <= spans[i].hi <= |text|
    ensures l in JsonLabels(lang, text, spans, labels)
      <==> exists span :: span in spans && SpanSays(lang, text, span, labels, l)
    decreases |spans|
  {
    if spans != [] {
      var front, last := spans[..|spans| - 1], spans[|spans| - 1];
      assert forall span :: span in spans <==> span in front || span == last;
      JsonLabelsAre(lang, text, front, labels, l);
      SpanSaysIs(lang, text, last, labels, l);
    }
  }

  lemma JsonSaysIs(lang: Lang, text: Text, labels: seq<Text>, l: Text)
    ensures SpansFit(text, Spans(text), 0, 0)
    ensures l in JsonLabels(lang, text, Spans(text), labels) <==> JsonSays(lang, text, labels, l)
  {
    SpansOfFit(text);
    SpansAreTopLevelObjects(text);
    JsonLabelsAre(lang, text, Spans(text), labels, l);
  }

  // ----- The labelled lines -----------------------------------------------------------------------------

  /** `line` reads `key: ...` or `key = ...`: the key stands at `a` and its sign at `n`, with nothing but
      white space before and between. */
  ghost predicate LabelledAt(lang: Lang, line: Text, key: Text, a: nat, n: nat) {
    && a + |key| <= n < |line| && SameAt(lang, line, a, key) && (line[n] == 0x3A || line[n] == 0x3D)
    && (forall i :: 0 <= i < a ==> lang.space(line[i]))
    && forall i :: a + |key| <= i < n ==> lang.space(line[i])
  }

  /** `v` is `s` from `b` to `c`, without the white space around it. */
  ghost predicate TrimmedAt(lang: Lang, s: Text, v: Text, b: nat, c: nat) {
    && b <= c <= |s| && v == s[b..c]
    && (forall i :: 0 <= i < b || c <= i < |s| ==> lang.space(s[i]))
    && (v != [] ==> !lang.space(v[0]) && !lang.space(v[|v| - 1]))
  }

  ghost predicate Trimmed(lang: Lang, s: Text, v: Text) { exists b: nat, c: nat :: TrimmedAt(lang, s, v, b, c) }

  ghost predicate LineReadsAt(lang: Lang, line: Text, v: Text, key: Text, k: nat, a: nat, n: nat) {
    Ranks(key, k) && LabelledAt(lang, line, key, a, n) && Trimmed(lang, line[n + 1..], v)
  }

  ghost predicate LineReads(lang: Lang, line: Text, v: Text) {
    exists key, k: nat, a: nat, n: nat :: LineReadsAt(lang, line, v, key, k, a, n)
  }

  /** Neither a sign nor a letter that starts a verdict key is white space, and no letter starts two keys. */
  ghost predicate KeysStand(lang: Lang) {
    && !lang.space(0x3A) && !lang.space(0x3D)
    && (forall c: CodePoint, i: nat {:trigger lang.same(c, Head(i))} :: i < 4 && lang.same(c, Head(i)) ==> !lang.space(c))
    && forall c: CodePoint, i: nat, j: nat {:trigger lang.same(c, Head(i)), lang.same(c, Head(j))} ::
         i < j < 4 ==> !(lang.same(c, Head(i)) && lang.same(c, Head(j)))
  }

  function Head(i: nat): CodePoint { if i == 0 then 0x76 else if i == 1 then 0x6C else if i == 2 then 0x61 else 0x63 }

  lemma {:induction false} TrimLeftAt(lang: Lang, s: Text, a: nat)
    requires a <= |s| && (forall i :: 0 <= i < a ==> lang.space(s[i])) && (a < |s| ==> !lang.space(s[a]))
    ensures TrimLeft(lang, s) == s[a..]
    decreases |s|
  {
    if a > 0 {
      assert s[1..][a - 1..] == s[a..];
      TrimLeftAt(lang, s[1..], a - 1);
    }
  }

  lemma {:induction false} TrimRightAt(lang: Lang, s: Text, c: nat)
    requires c <= |s| && (forall i :: c <= i < |s| ==> lang.space(s[i])) && (c > 0 ==> !lang.space(s[c - 1]))
    ensures TrimRight(lang, s) == s[..c]
    decreases |s|
  {
    if c < |s| {
      assert s[..|s| - 1][..c] == s[..c];
      TrimRightAt(lang, s[..|s| - 1], c);
    } else {
      assert s[..c] == s;
    }
  }

  lemma {:induction false} TrimLeftStops(lang: Lang, s: Text) returns (a: nat)
    ensures a <= |s| && (forall i :: 0 <= i < a ==> lang.space(s[i])) && (a < |s| ==> !lang.space(s[a]))
    ensures TrimLeft(lang, s) == s[a..]
    decreases |s|
  {
    if s != [] && lang.space(s[0]) {
      var m := TrimLeftStops(lang, s[1..]);
      a := m + 1;
      assert forall i :: 0 < i < a ==> s[i] == s[1..][i - 1];
    } else {
      a := 0;
    }
  }

  lemma {:induction false} TrimRightStops(lang: Lang, s: Text) returns (c: nat)
    ensures c <= |s| && (forall i :: c <= i < |s| ==> lang.space(s[i])) && (c > 0 ==> !lang.space(s[c - 1]))
    ensures TrimRight(lang, s) == s[..c]
    decreases |s|
  {
    if s != [] && lang.space(s[|s| - 1]) {
      c := TrimRightStops(lang, s[..|s| - 1]);
      assert s[..|s| - 1][..c] == s[..c];
    } else {
      c := |s|;
    }
  }

  lemma TrimmedIs(lang: Lang, s: Text, v: Text)
    ensures TrimRight(lang, TrimLeft(lang, s)) == v <==> Trimmed(lang, s, v)
  {
    var a := TrimLeftStops(lang, s);
    var c := TrimRightStops(lang, s[a..]);
    var w := TrimRight(lang, TrimLeft(lang, s));
    assert s[a..][..c] == s[a..a + c];
    assert forall i :: a + c <= i < |s| ==> s[i] == s[a..][i - a];
    assert c > 0 ==> w[|w| - 1] == s[a..][c - 1];
    assert TrimmedAt(lang, s, w, a, a + c);
    forall b: nat, d: nat | TrimmedAt(lang, s, v, b, d)
      ensures v == w
    {
      TrimmedOnce(lang, s, v, b, d);
    }
  }

  lemma TrimmedOnce(lang: Lang, s: Text, v: Text, b: nat, c: nat)
    requires TrimmedAt(lang, s, v, b, c)
    ensures TrimRight(lang, TrimLeft(lang, s)) == v
  {
    if v == [] {
      TrimLeftAt(lang, s, |s|);
    } else {
      assert v[0] == s[b] && v[|v| - 1] == s[c - 1];
      TrimLeftAt(lang, s, b);
      assert forall i :: c - b <= i < |s[b..]| ==> s[b..][i] == s[b + i];
      TrimRightAt(lang, s[b..], c - b);
      assert s[b..][..c - b] == s[b..c];
    }
  }

  lemma KeyHead(key: Text, k: nat)
    requires Ranks(key, k)
    ensures k < 4 && key != [] && key[0] == Head(k)
  {
  }

  lemma StartsAlike(lang: Lang, s: Text, key: Text)
    requires s != [] && key != []
    ensures SameAt(lang, s, 0, key) ==> lang.same(s[0], key[0])
  {
    assert SameAt(lang, s, 0, key) ==> lang.same(s[0 + 0], key[0]);
  }

  /** The key at the start of `s` is found, whichever keys are tried before it. */
  lemma {:induction false} AfterKeyAt(lang: Lang, s: Text, key: Text, k: nat, n: nat, j: nat)
    requires KeysStand(lang) && Ranks(key, k) && LabelledAt(lang, s, key, 0, n) && j <= k
    ensures j <= |VERDICT_KEYS| && AfterKey(lang, s, j) == Some(s[n + 1..])
    decreases k - j
  {
    KeyRanks(key, k);
    KeyHead(key, k);
    assert lang.same(s[0], key[0]);
    if j < k {
      var other := VERDICT_KEYS[j];
      KeyRanks(other, j);
      KeyHead(other, j);
      assert !lang.same(s[0], Head(j));
      StartsAlike(lang, s, other);
      AfterKeyAt(lang, s, key, k, n, j + 1);
    } else {
      var rest := s[|key|..];
      assert forall i :: 0 <= i < n - |key| ==> rest[i] == s[|key| + i];
      assert rest[n - |key|] == s[n];
      TrimLeftAt(lang, rest, n - |key|);
      assert rest[n - |key|..] == s[n..] && s[n..][1..] == s[n + 1..];
    }
  }

  lemma {:induction false} AfterKeyFrom(lang: Lang, s: Text, j: nat) returns (k: nat, n: nat)
    requires j <= |VERDICT_KEYS| && AfterKey(lang, s, j).Some?
    ensures k < |VERDICT_KEYS| && LabelledAt(lang, s, VERDICT_KEYS[k], 0, n) && AfterKey(lang, s, j) == Some(s[n + 1..])
    decreases |VERDICT_KEYS| - j
  {
    var key := VERDICT_KEYS[j];
    if SameAt(lang, s, 0, key) && SignedRest(TrimLeft(lang, s[|key|..])) {
      var rest := s[|key|..];
      var a := TrimLeftStops(lang, rest);
      k, n := j, |key| + a;
      assert forall i :: |key| <= i < n ==> s[i] == rest[i - |key|];
      assert rest[a..] == s[n..] && s[n..][1..] == s[n + 1..];
    } else {
      k, n := AfterKeyFrom(lang, s, j + 1);
    }
  }

  predicate SignedRest(rest: Text) { rest != [] && (rest[0] == COLON || rest[0] == 0x3D) }

  lemma SameAtShift(lang: Lang, line: Text, a: nat, key: Text)
    requires a <= |line|
    ensures SameAt(lang, line[a..], 0, key) <==> SameAt(lang, line, a, key)
  {
    if a + |key| <= |line| {
      assert forall i {:trigger key[i]} :: 0 <= i < |key| ==> line[a..][0 + i] == line[a + i];
    }
  }

  lemma LabelledShift(lang: Lang, line: Text, key: Text, a: nat, n: nat)
    requires a <= n && a <= |line| && forall i :: 0 <= i < a ==> lang.space(line[i])
    ensures LabelledAt(lang, line[a..], key, 0, n - a) <==> LabelledAt(lang, line, key, a, n)
    ensures n < |line| ==> line[a..][n - a + 1..] == line[n + 1..]
  {
    var s := line[a..];
    assert forall i :: 0 <= i < |s| ==> s[i] == line[a + i];
    SameAtShift(lang, line, a, key);
    if a + |key| <= n {
      assert (forall i :: |key| <= i < n - a && i < |s| ==> lang.space(s[i]))
        <==> forall i :: a + |key| <= i < n && i < |line| ==> lang.space(line[i]) by {
        forall i | a + |key| <= i < n && i < |line| ensures line[i] == s[i - a] {}
      }
    }
  }

  lemma ReadsOneWay(lang: Lang, line: Text, v: Text, key: Text, k: nat, a: nat, n: nat)
    requires KeysStand(lang) && LineReadsAt(lang, line, v, key, k, a, n)
    ensures LineValue(lang, line) == Some(v)
  {
    KeyHead(key, k);
    assert lang.same(line[a + 0], key[0]);
    TrimLeftAt(lang, line, a);
    LabelledShift(lang, line, key, a, n);
    AfterKeyAt(lang, line[a..], key, k, n - a, 0);
    TrimmedIs(lang, line[n + 1..], v);
  }

  lemma ReadsTheOther(lang: Lang, line: Text, v: Text)
    requires LineValue(lang, line) == Some(v)
    ensures LineReads(lang, line, v)
  {
    var a := TrimLeftStops(lang, line);
    var k, m := AfterKeyFrom(lang, line[a..], 0);
    var key, n := VERDICT_KEYS[k], a + m;
    LabelledShift(lang, line, key, a, n);
    KeyRanks(key, k);
    TrimmedIs(lang, line[n + 1..], v);
    assert LineReadsAt(lang, line, v, key, k, a, n);
  }

  /** The line tier's pattern reads `v` off a line exactly when the line is a verdict key, a colon or an
      equals sign, and `v`, with white space in between and around. */
  lemma LineValueIs(lang: Lang, line: Text, v: Text)
    requires KeysStand(lang)
    ensures LineValue(lang, line) == Some(v) <==> LineReads(lang, line, v)
  {
    if LineValue(lang, line) == Some(v) { ReadsTheOther(lang, line, v); }
    forall key, k: nat, a: nat, n: nat | LineReadsAt(lang, line, v, key, k, a, n)
      ensures LineValue(lang, line) == Some(v)
    {
      ReadsOneWay(lang, line, v, key, k, a, n);
    }
  }

  /** Some line of the text has a value that carries exactly the label `l`. */
  ghost predicate LineSays(lang: Lang, text: Text, labels: seq<Text>, l: Text) {
    exists i :: 0 <= i < |SplitLines(text)| && OneLineSays(lang, SplitLines(text)[i], labels, l)
  }

  ghost predicate OneLineSays(lang: Lang, line: Text, labels: seq<Text>, l: Text) {
    LineValue(lang, line).Some? && OnlyLabel(lang, LineValue(lang, line).value, labels, l)
  }

  lemma {:induction false} LineLabelsAre(lang: Lang, lines: seq<Text>, labels: seq<Text>, l: Text)
    ensures l in LineLabels(lang, lines, labels) <==> exists i :: 0 <= i < |lines| && OneLineSays(lang, lines[i], labels, l)
    decreases |lines|
  {
    if lines != [] {
      var front, n := lines[..|lines| - 1], |lines| - 1;
      var value := LineValue(lang, lines[n]);
      LineLabelsAre(lang, front, labels, l);
      if value.Some? { UniqueLabelIs(lang, value.value, labels, l); }
      assert l in LineLabels(lang, lines, labels) <==>
        l in LineLabels(lang, front, labels) || OneLineSays(lang, lines[n], labels, l);
      SomeLineSays(lang, lines, front, labels, l);
    }
  }

  lemma SomeLineSays(lang: Lang, lines: seq<Text>, front: seq<Text>, labels: seq<Text>, l: Text)
    requires lines != [] && front == lines[..|lines| - 1]
    ensures (exists i :: 0 <= i < |lines| && OneLineSays(lang, lines[i], labels, l)) <==>
      || OneLineSays(lang, lines[|lines| - 1], labels, l)
      || exists i :: 0 <= i < |front| && OneLineSays(lang, front[i], labels, l)
  {
    assert forall i :: 0 <= i < |front| ==> front[i] == lines[i];
  }

  // ----- The ladder ---------------------------------------------------------------------------------------

  ghost predicate AnyJsonSays(lang: Lang, text: Text, labels: seq<Text>) { exists m :: JsonSays(lang, text, labels, m) }

  ghost predicate AnyLineSays(lang: Lang, text: Text, labels: seq<Text>) { exists m :: LineSays(lang, text, labels, m) }

  /** The verdict is `l`: the first tier that says anything says `l` and nothing else; prose is asked
      last, outside every well-formed object. */
  ghost predicate LadderSays(lang: Lang, text: Text, labels: seq<Text>, l: Text) {
    if AnyJsonSays(lang, text, labels) then
      JsonSays(lang, text, labels, l) && forall m :: JsonSays(lang, text, labels, m) ==> m == l
    else if AnyLineSays(lang, text, labels) then
      LineSays(lang, text, labels, l) && forall m :: LineSays(lang, text, labels, m) ==> m == l
    else OnlyLabel(lang, OutsideText(lang, text), labels, l)
  }

  lemma JsonTier(lang: Lang, text: Text, labels: seq<Text>)
    ensures SpansFit(text, Spans(text), 0, 0)
    ensures forall l :: l in JsonLabels(lang, text, Spans(text), labels) <==> JsonSays(lang, text, labels, l)
  {
    SpansOfFit(text);
    forall l ensures l in JsonLabels(lang, text, Spans(text), labels) <==> JsonSays(lang, text, labels, l) {
      JsonSaysIs(lang, text, labels, l);
    }
  }

  lemma LineTier(lang: Lang, text: Text, labels: seq<Text>)
    ensures forall l :: l in LineLabels(lang, SplitLines(text), labels) <==> LineSays(lang, text, labels, l)
  {
    forall l ensures l in LineLabels(lang, SplitLines(text), labels) <==> LineSays(lang, text, labels, l) {
      LineLabelsAre(lang, SplitLines(text), labels, l);
    }
  }

  /** The extracted verdict is `l` exactly when the ladder says so. */
  lemma ExtractIs(lang: Lang, text: Text, labels: seq<Text>, l: Text)
    ensures Extract(lang, text, labels) == Some(l) <==> LadderSays(lang, text, labels, l)
  {
    JsonTier(lang, text, labels);
    LineTier(lang, text, labels);
    CollapseIs(JsonLabels(lang, text, Spans(text), labels));
    CollapseIs(LineLabels(lang, SplitLines(text), labels));
    UniqueLabelIs(lang, OutsideText(lang, text), labels, l);
  }

  // ----- The loops ----------------------------------------------------------------------------------------

  method ResolveObject(lang: Lang, ms: seq<(Text, Json)>, labels: seq<Text>) returns (resolved: Option<Text>)
    ensures resolved == ResolveFrom(lang, ms, labels, 0)
    ensures forall l :: resolved == Some(l) <==> ObjectSays(lang, ms, labels, l)
  {
    forall l ensures ObjectSays(lang, ms, labels, l) <==> ResolveFrom(lang, ms, labels, 0) == Some(l) {
      ResolveIs(lang, ms, labels, l);
    }
    for k := 0 to |VERDICT_KEYS|
      invariant ResolveFrom(lang, ms, labels, 0) == ResolveFrom(lang, ms, labels, k)
    {
      var value := LoweredGet(lang, ms, VERDICT_KEYS[k]);
      if value.Some? && value.value.Str? {
        resolved := UniqueLabel(lang, value.value.s, labels);
        if resolved.Some? {
          return;
        }
      }
    }
    resolved := None;
  }

  /** The JSON tier's loop. */
  method CollectJson(lang: Lang, text: Text, spans: seq<Span>, labels: seq<Text>) returns (found: seq<Text>)
    requires SpansFit(text, spans, 0, 0) && forall span :: span in spans ==> IsSpan(text, span)
    ensures found == JsonLabels(lang, text, spans, labels)
    ensures forall l :: l in found <==> exists span :: span in spans && SpanSays(lang, text, span, labels, l)
  {
    forall l
      ensures l in JsonLabels(lang, text, spans, labels)
        <==> exists span :: span in spans && SpanSays(lang, text, span, labels, l)
    {
      JsonLabelsAre(lang, text, spans, labels, l);
    }
    found := [];
    for i := 0 to |spans|
      invariant found == JsonLabels(lang, text, spans[..i], labels)
    {
      assert spans[..i + 1][..i] == spans[..i];
      var resolved := ReadSpan(lang, text, spans[i], labels);
      if resolved.Some? {
        found := found + [resolved.value];
      }
    }
    assert spans[..|spans|] == spans;
  }

  /** One object of the text. */
  method ReadSpan(lang: Lang, text: Text, span: Span, labels: seq<Text>) returns (resolved: Option<Text>)
    requires span.lo <= span.hi <= |text|
    ensures resolved == ResolveSpan(lang, text, span, labels)
  {
    resolved := None;
    var obj := lang.tryJson(text[span.lo..span.hi]);
    if obj.Some? && obj.value.Obj? {
      resolved := ResolveObject(lang, obj.value.members, labels);
    }
  }

  /** The labelled-line tier's loop. */
  method CollectLines(lang: Lang, lines: seq<Text>, labels: seq<Text>) returns (found: seq<Text>)
    ensures found == LineLabels(lang, lines, labels)
    ensures forall l :: l in found <==> exists i :: 0 <= i < |lines| && OneLineSays(lang, lines[i], labels, l)
  {
    forall l
      ensures l in LineLabels(lang, lines, labels)
        <==> exists i :: 0 <= i < |lines| && OneLineSays(lang, lines[i], labels, l)
    {
      LineLabelsAre(lang, lines, labels, l);
    }
    found := [];
    for i := 0 to |lines|
      invariant found == LineLabels(lang, lines[..i], labels)
    {
      assert lines[..i + 1][..i] == lines[..i];
      var value := LineValue(lang, lines[i]);
      if value.Some? {
        var resolved := UniqueLabel(lang, value.value, labels);
        if resolved.Some? {
          found := found + [resolved.value];
        }
      }
    }
    assert lines[..|lines|] == lines;
  }

  /** `extract_verdict_label`. */
  method ExtractVerdictLabel(lang: Lang, text: Text, labels: seq<Text>) returns (result: Option<Text>)
    ensures result == Extract(lang, text, labels)
    ensures forall l :: result == Some(l) <==> LadderSays(lang, text, labels, l)
  {
    forall l ensures Extract(lang, text, labels) == Some(l) <==> LadderSays(lang, text, labels, l) {
      ExtractIs(lang, text, labels, l);
    }
    if labels == [] {
      return None;
    }
    var spans := JsonObjectSpans(text);
    SpansOfFit(text);
    SpansAreTopLevelObjects(text);
    var jsonLabels := CollectJson(lang, text, spans, labels);
    var tier := Collapse(jsonLabels);
    if tier.Agreed? {
      return Some(tier.value);
    }
    if tier.Conflict? {
      return None;
    }
    var lineLabels := CollectLines(lang, SplitLines(text), labels);
    tier := Collapse(lineLabels);
    if tier.Agreed? {
      return Some(tier.value);
    }
    if tier.Conflict? {
      return None;
    }
    var outside := TextOutsideValidJson(lang, text, spans);
    return UniqueLabel(lang, outside, labels);
  }
}
