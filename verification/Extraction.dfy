/** The recognition ladder: JSON objects, then labelled lines, then prose outside every well-formed
    object; each tier answers only when exactly one label resolves in it
    (measure_twice/scoring/deterministic.py). */
module Extraction {
  import opened Seqs
  import opened Json
  import opened LineStore
  import opened Verdict

  // ----- Text outside well-formed objects ---------------------------------------------------------

  ghost predicate SpansFit(text: Text, spans: seq<Span>, k: nat, prev: nat) {
    && k <= |spans| && prev <= |text|
    && (forall i :: k <= i < |spans| ==> prev <= spans[i].lo < spans[i].hi <= |text|)
    && Ascending(spans)
  }

  predicate Parses(lang: Lang, text: Text, span: Span)
    requires span.lo <= span.hi <= |text|
  {
    lang.tryJson(text[span.lo..span.hi]).Some?
  }

  function OutsideFrom(lang: Lang, text: Text, spans: seq<Span>, k: nat, prev: nat): Text
    requires SpansFit(text, spans, k, prev)
    decreases |spans| - k
  {
    if k == |spans| then text[prev..]
    else if Parses(lang, text, spans[k]) then
      text[prev..spans[k].lo] + [SPACE] + OutsideFrom(lang, text, spans, k + 1, spans[k].hi)
    else OutsideFrom(lang, text, spans, k + 1, prev)
  }

  lemma SpansOfFit(text: Text)
    ensures SpansFit(text, Spans(text), 0, 0)
  {
    SpansAreTopLevelObjects(text);
    var spans := Spans(text);
    forall i | 0 <= i < |spans|
      ensures 0 <= spans[i].lo < spans[i].hi <= |text|
    {
      assert IsSpan(text, spans[i]);
    }
  }

  function OutsideText(lang: Lang, text: Text): Text {
    SpansOfFit(text);
    OutsideFrom(lang, text, Spans(text), 0, 0)
  }

  /** `_text_outside_valid_json`. */
  method TextOutsideValidJson(lang: Lang, text: Text, spans: seq<Span>) returns (outside: Text)
    requires SpansFit(text, spans, 0, 0)
    ensures outside == OutsideFrom(lang, text, spans, 0, 0)
  {
    outside := [];
    var prev: nat := 0;
    for k := 0 to |spans|
      invariant SpansFit(text, spans, k, prev)
      invariant outside + OutsideFrom(lang, text, spans, k, prev) == OutsideFrom(lang, text, spans, 0, 0)
    {
      if Parses(lang, text, spans[k]) {
        ghost var rest := OutsideFrom(lang, text, spans, k + 1, spans[k].hi);
        assert outside + (text[prev..spans[k].lo] + [SPACE] + rest)
            == outside + text[prev..spans[k].lo] + [SPACE] + rest;
        outside := outside + text[prev..spans[k].lo] + [SPACE];
        prev := spans[k].hi;
      }
    }
    outside := outside + text[prev..];
  }

  /** One character of the text after masking: a parseable object leaves one space, where it
      opened; every other character stays. */
  function Masked(lang: Lang, text: Text, spans: seq<Span>, i: nat): Text
    requires i < |text| && InText(text, spans)
  {
    if exists k :: 0 <= k < |spans| && OpensAt(lang, text, spans[k], i) then [SPACE]
    else if exists k :: 0 <= k < |spans| && Covers(lang, text, spans[k], i) then []
    else [text[i]]
  }

  predicate InText(text: Text, spans: seq<Span>) {
    forall k :: 0 <= k < |spans| ==> spans[k].lo <= spans[k].hi <= |text|
  }

  predicate OpensAt(lang: Lang, text: Text, span: Span, i: nat)
    requires span.lo <= span.hi <= |text|
  {
    span.lo == i && Parses(lang, text, span)
  }

  predicate Covers(lang: Lang, text: Text, span: Span, i: nat)
    requires span.lo <= span.hi <= |text|
  {
    span.lo < i < span.hi && Parses(lang, text, span)
  }

  function MaskedFrom(lang: Lang, text: Text, spans: seq<Span>, i: nat, j: nat): Text
    requires i <= j <= |text| && InText(text, spans)
    decreases j - i
  {
    if i == j then [] else Masked(lang, text, spans, i) + MaskedFrom(lang, text, spans, i + 1, j)
  }

  lemma {:induction false} MaskedConcat(lang: Lang, text: Text, spans: seq<Span>, i: nat, m: nat, j: nat)
    requires i <= m <= j <= |text| && InText(text, spans)
    ensures MaskedFrom(lang, text, spans, i, j) == MaskedFrom(lang, text, spans, i, m) + MaskedFrom(lang, text, spans, m, j)
    decreases m - i
  {
    if i < m { MaskedConcat(lang, text, spans, i + 1, m, j); }
  }

  lemma {:induction false} MaskedKept(lang: Lang, text: Text, spans: seq<Span>, i: nat, j: nat)
    requires i <= j <= |text| && InText(text, spans)
    requires forall k :: 0 <= k < |spans| ==> spans[k].lo < spans[k].hi
    requires forall k :: 0 <= k < |spans| && Parses(lang, text, spans[k]) ==> spans[k].hi <= i || j <= spans[k].lo
    ensures MaskedFrom(lang, text, spans, i, j) == text[i..j]
    decreases j - i
  {
    if i < j {
      assert forall k :: 0 <= k < |spans| ==> !OpensAt(lang, text, spans[k], i) && !Covers(lang, text, spans[k], i);
      MaskedKept(lang, text, spans, i + 1, j);
      assert [text[i]] + text[i + 1..j] == text[i..j];
    }
  }

  lemma {:induction false} MaskedDropped(lang: Lang, text: Text, spans: seq<Span>, n: nat, i: nat)
    requires SpansFit(text, spans, 0, 0) && n < |spans| && Parses(lang, text, spans[n])
    requires spans[n].lo < i <= spans[n].hi
    ensures MaskedFrom(lang, text, spans, i, spans[n].hi) == []
    decreases spans[n].hi - i
  {
    if i < spans[n].hi {
      forall k | 0 <= k < |spans|
        ensures spans[k].lo != i
      {
        assert k < n ==> spans[k].hi <= spans[n].lo;
        assert n < k ==> spans[n].hi <= spans[k].lo;
      }
      assert Covers(lang, text, spans[n], i);
      MaskedDropped(lang, text, spans, n, i + 1);
    }
  }

  /** Cutting at spans is masking character by character. */
  lemma {:induction false} OutsideIsMasked(lang: Lang, text: Text, spans: seq<Span>, k: nat, prev: nat)
    requires SpansFit(text, spans, 0, 0) && SpansFit(text, spans, k, prev)
    requires forall i :: 0 <= i < k && Parses(lang, text, spans[i]) ==> spans[i].hi <= prev
    ensures OutsideFrom(lang, text, spans, k, prev) == MaskedFrom(lang, text, spans, prev, |text|)
    decreases |spans| - k
  {
    if k == |spans| {
      MaskedKept(lang, text, spans, prev, |text|);
    } else if Parses(lang, text, spans[k]) {
      OutsideIsMasked(lang, text, spans, k + 1, spans[k].hi);
      MaskedSpan(lang, text, spans, k, prev);
    } else {
      OutsideIsMasked(lang, text, spans, k + 1, prev);
    }
  }

  /** Masking up to the end of one parseable object. */
  lemma MaskedSpan(lang: Lang, text: Text, spans: seq<Span>, k: nat, prev: nat)
    requires SpansFit(text, spans, 0, 0) && k < |spans| && Parses(lang, text, spans[k]) && prev <= spans[k].lo
    requires forall i :: 0 <= i < k && Parses(lang, text, spans[i]) ==> spans[i].hi <= prev
    ensures MaskedFrom(lang, text, spans, prev, |text|)
         == text[prev..spans[k].lo] + [SPACE] + MaskedFrom(lang, text, spans, spans[k].hi, |text|)
  {
    var lo, hi := spans[k].lo, spans[k].hi;
    MaskedConcat(lang, text, spans, prev, lo, |text|);
    forall i | 0 <= i < |spans| && Parses(lang, text, spans[i])
      ensures spans[i].hi <= prev || lo <= spans[i].lo
    {
      assert i > k ==> spans[k].hi <= spans[i].lo;
    }
    MaskedKept(lang, text, spans, prev, lo);
    MaskedObject(lang, text, spans, k);
    MaskedConcat(lang, text, spans, lo, hi, |text|);
    ConcatThree(text[prev..lo], [SPACE], MaskedFrom(lang, text, spans, hi, |text|));
  }

  lemma MaskedObject(lang: Lang, text: Text, spans: seq<Span>, k: nat)
    requires SpansFit(text, spans, 0, 0) && k < |spans| && Parses(lang, text, spans[k])
    ensures MaskedFrom(lang, text, spans, spans[k].lo, spans[k].hi) == [SPACE]
  {
    assert OpensAt(lang, text, spans[k], spans[k].lo);
    MaskedDropped(lang, text, spans, k, spans[k].lo + 1);
  }

  // ----- Tier 1: JSON objects -----------------------------------------------------------------------

  const VERDICT_KEYS: seq<Text> := [Lit("verdict"), Lit("label"), Lit("answer"), Lit("classification")]

  function Keys(ms: seq<(Text, Json)>): seq<Text> {
    seq(|ms|, i requires 0 <= i < |ms| => ms[i].0)
  }

  /** `{k.casefold(): v for k, v in obj.items()}.get(key)`: among the object's distinct keys, in the
      order they first appear, the last one that casefolds to `key`. */
  function Lowered(lang: Lang, ms: seq<(Text, Json)>, names: seq<Text>, key: Text): Option<Json>
    decreases |names|
  {
    if names == [] then None
    else if lang.casefold(names[|names| - 1]) == key then Lookup(ms, names[|names| - 1])
    else Lowered(lang, ms, names[..|names| - 1], key)
  }

  function LoweredGet(lang: Lang, ms: seq<(Text, Json)>, key: Text): Option<Json> {
    Lowered(lang, ms, Dedup(Keys(ms)), key)
  }

  /** The label of one object: its first verdict key, in priority order, that carries one label. */
  function ResolveFrom(lang: Lang, ms: seq<(Text, Json)>, labels: seq<Text>, k: nat): Option<Text>
    requires k <= |VERDICT_KEYS|
    decreases |VERDICT_KEYS| - k
  {
    if k == |VERDICT_KEYS| then None
    else
      match LoweredGet(lang, ms, VERDICT_KEYS[k])
      case Some(Str(value)) =>
        var resolved := UniqueLabel(lang, value, labels);
        if resolved.Some? then resolved else ResolveFrom(lang, ms, labels, k + 1)
      case _ => ResolveFrom(lang, ms, labels, k + 1)
  }

  function ResolveSpan(lang: Lang, text: Text, span: Span, labels: seq<Text>): Option<Text>
    requires span.lo <= span.hi <= |text|
  {
    match lang.tryJson(text[span.lo..span.hi])
    case Some(Obj(ms)) => ResolveFrom(lang, ms, labels, 0)
    case _ => None
  }

  function JsonLabels(lang: Lang, text: Text, spans: seq<Span>, labels: seq<Text>): seq<Text>
    requires forall i :: 0 <= i < |spans| ==> spans[i].lo <= spans[i].hi <= |text|
  {
    if spans == [] then []
    else
      var resolved := ResolveSpan(lang, text, spans[|spans| - 1], labels);
      JsonLabels(lang, text, spans[..|spans| - 1], labels) + if resolved.Some? then [resolved.value] else []
  }

  // ----- Tier 2: labelled lines ---------------------------------------------------------------------

  function TrimLeft(lang: Lang, s: Text): Text {
    if s != [] && lang.space(s[0]) then TrimLeft(lang, s[1..]) else s
  }

  function TrimRight(lang: Lang, s: Text): Text {
    if s != [] && lang.space(s[|s| - 1]) then TrimRight(lang, s[..|s| - 1]) else s
  }

  function AfterKey(lang: Lang, s: Text, k: nat): Option<Text>
    requires k <= |VERDICT_KEYS|
    decreases |VERDICT_KEYS| - k
  {
    if k == |VERDICT_KEYS| then None
    else
      var key := VERDICT_KEYS[k];
      if SameAt(lang, s, 0, key) then
        var rest := TrimLeft(lang, s[|key|..]);
        if rest != [] && (rest[0] == COLON || rest[0] == 0x3D) then Some(rest[1..]) else AfterKey(lang, s, k + 1)
      else AfterKey(lang, s, k + 1)
  }

  /** The value of a `verdict: value` line, white space around it removed. */
  function LineValue(lang: Lang, line: Text): Option<Text> {
    match AfterKey(lang, TrimLeft(lang, line), 0)
    case Some(rest) => Some(TrimRight(lang, TrimLeft(lang, rest)))
    case None => None
  }

  function LineLabels(lang: Lang, lines: seq<Text>, labels: seq<Text>): seq<Text> {
    if lines == [] then []
    else
      var value := LineValue(lang, lines[|lines| - 1]);
      var resolved := if value.Some? then UniqueLabel(lang, value.value, labels) else None;
      LineLabels(lang, lines[..|lines| - 1], labels) + if resolved.Some? then [resolved.value] else []
  }

  // ----- The ladder -----------------------------------------------------------------------------------

  datatype Tier = Agreed(value: Text) | Conflict | Silent

  /** `_single_or_conflict`. */
  function Collapse(found: seq<Text>): Tier {
    var distinct := Dedup(found);
    if |distinct| == 1 then Agreed(distinct[0]) else if |distinct| >= 2 then Conflict else Silent
  }

  function Extract(lang: Lang, text: Text, labels: seq<Text>): Option<Text> {
    if labels == [] then None
    else
      SpansOfFit(text);
      match Collapse(JsonLabels(lang, text, Spans(text), labels))
      case Agreed(l) => Some(l)
      case Conflict => None
      case Silent =>
        match Collapse(LineLabels(lang, SplitLines(text), labels))
        case Agreed(l) => Some(l)
        case Conflict => None
        case Silent => UniqueLabel(lang, OutsideText(lang, text), labels)
  }

  // ----- Never guess ----------------------------------------------------------------------------------

  /** A tier agrees on `l` exactly when something resolved and everything that resolved is `l`. */
  lemma CollapseIs(found: seq<Text>)
    ensures Collapse(found).Silent? <==> found == []
    ensures forall l :: Collapse(found) == Agreed(l) <==> l in found && forall m :: m in found ==> m == l
    ensures Collapse(found).Conflict? <==> exists l, m :: l in found && m in found && l != m
  {
    var distinct := Dedup(found);
    DedupIsDistinct(found);
    DistinctCardinality(distinct);
    if found != [] { assert found[0] in distinct; }
    if |distinct| == 1 {
      assert forall m :: m in distinct <==> m == distinct[0];
    } else if |distinct| >= 2 {
      assert distinct[0] in found && distinct[1] in found && distinct[0] != distinct[1];
    }
  }

  lemma UniqueDependsOnSet(lang: Lang, text: Text, labels: seq<Text>, labels': seq<Text>)
    requires ToSet(labels) == ToSet(labels')
    ensures UniqueLabel(lang, text, labels) == UniqueLabel(lang, text, labels')
  {
    SameMembers(labels, labels');
    var r, r' := UniqueLabel(lang, text, labels), UniqueLabel(lang, text, labels');
    if r.Some? {
      UniqueLabelIs(lang, text, labels, r.value);
      UniqueLabelIs(lang, text, labels', r.value);
    }
    if r'.Some? {
      UniqueLabelIs(lang, text, labels, r'.value);
      UniqueLabelIs(lang, text, labels', r'.value);
    }
  }

  lemma SameMembers(a: seq<Text>, b: seq<Text>)
    requires ToSet(a) == ToSet(b)
    ensures forall l :: l in a <==> l in b
  {
    assert forall l :: l in a <==> l in ToSet(a);
    assert forall l :: l in b <==> l in ToSet(b);
  }

  lemma {:induction false} ResolveDependsOnSet(lang: Lang, ms: seq<(Text, Json)>, labels: seq<Text>, labels': seq<Text>, k: nat)
    requires k <= |VERDICT_KEYS| && ToSet(labels) == ToSet(labels')
    ensures ResolveFrom(lang, ms, labels, k) == ResolveFrom(lang, ms, labels', k)
    decreases |VERDICT_KEYS| - k
  {
    if k < |VERDICT_KEYS| {
      var value := LoweredGet(lang, ms, VERDICT_KEYS[k]);
      if value.Some? && value.value.Str? { UniqueDependsOnSet(lang, value.value.s, labels, labels'); }
      ResolveDependsOnSet(lang, ms, labels, labels', k + 1);
    }
  }

  lemma {:induction false} JsonDependsOnSet(lang: Lang, text: Text, spans: seq<Span>, labels: seq<Text>, labels': seq<Text>)
    requires forall i :: 0 <= i < |spans| ==> spans[i].lo <= spans[i].hi <= |text|
    requires ToSet(labels) == ToSet(labels')
    ensures JsonLabels(lang, text, spans, labels) == JsonLabels(lang, text, spans, labels')
    decreases |spans|
  {
    if spans != [] {
      var span := spans[|spans| - 1];
      var obj := lang.tryJson(text[span.lo..span.hi]);
      if obj.Some? && obj.value.Obj? { ResolveDependsOnSet(lang, obj.value.members, labels, labels', 0); }
      JsonDependsOnSet(lang, text, spans[..|spans| - 1], labels, labels');
    }
  }

  lemma {:induction false} LinesDependOnSet(lang: Lang, lines: seq<Text>, labels: seq<Text>, labels': seq<Text>)
    requires ToSet(labels) == ToSet(labels')
    ensures LineLabels(lang, lines, labels) == LineLabels(lang, lines, labels')
    decreases |lines|
  {
    if lines != [] {
      var value := LineValue(lang, lines[|lines| - 1]);
      if value.Some? { UniqueDependsOnSet(lang, value.value, labels, labels'); }
      LinesDependOnSet(lang, lines[..|lines| - 1], labels, labels');
    }
  }

  /** The verdict depends on the set of labels only: not on their order, not on repeats. */
  lemma ExtractDependsOnSet(lang: Lang, text: Text, labels: seq<Text>, labels': seq<Text>)
    requires ToSet(labels) == ToSet(labels')
    ensures Extract(lang, text, labels) == Extract(lang, text, labels')
  {
    SameMembers(labels, labels');
    if labels != [] { NonEmptyToSet(labels); }
    if labels' != [] { NonEmptyToSet(labels'); }
    if labels != [] {
      SpansOfFit(text);
      JsonDependsOnSet(lang, text, Spans(text), labels, labels');
      LinesDependOnSet(lang, SplitLines(text), labels, labels');
      UniqueDependsOnSet(lang, OutsideText(lang, text), labels, labels');
    }
  }

  // ----- Probing one label --------------------------------------------------------------------------

  lemma UniqueSurvivesProbe(lang: Lang, text: Text, labels: seq<Text>, l: Text)
    requires UniqueLabel(lang, text, labels) == Some(l)
    ensures l in labels && UniqueLabel(lang, text, [l]) == Some(l)
  {
    UniqueLabelIs(lang, text, labels, l);
    UniqueLabelIs(lang, text, [l], l);
  }

  lemma ProbeAnswersItself(lang: Lang, text: Text, l: Text)
    ensures UniqueLabel(lang, text, [l]) == if Present(lang, text, l) then Some(l) else None
  {
    UniqueLabelIs(lang, text, [l], l);
    var r := UniqueLabel(lang, text, [l]);
    if r.Some? { UniqueLabelIs(lang, text, [l], r.value); }
  }

  lemma {:induction false} ResolveSurvivesProbe(lang: Lang, ms: seq<(Text, Json)>, labels: seq<Text>, l: Text, k: nat)
    requires k <= |VERDICT_KEYS|
    ensures ResolveFrom(lang, ms, labels, k) == Some(l) ==> l in labels && ResolveFrom(lang, ms, [l], k) == Some(l)
    ensures ResolveFrom(lang, ms, [l], k).Some? ==> ResolveFrom(lang, ms, [l], k) == Some(l)
    decreases |VERDICT_KEYS| - k
  {
    if k < |VERDICT_KEYS| {
      ResolveSurvivesProbe(lang, ms, labels, l, k + 1);
      var value := LoweredGet(lang, ms, VERDICT_KEYS[k]);
      if value.Some? && value.value.Str? {
        ProbeAnswersItself(lang, value.value.s, l);
        if UniqueLabel(lang, value.value.s, labels) == Some(l) {
          UniqueSurvivesProbe(lang, value.value.s, labels, l);
        }
      }
    }
  }

  lemma {:induction false} JsonSurvivesProbe(lang: Lang, text: Text, spans: seq<Span>, labels: seq<Text>, l: Text)
    requires forall i :: 0 <= i < |spans| ==> spans[i].lo <= spans[i].hi <= |text|
    ensures l in JsonLabels(lang, text, spans, labels) ==> l in labels && l in JsonLabels(lang, text, spans, [l])
    ensures forall m :: m in JsonLabels(lang, text, spans, [l]) ==> m == l
    decreases |spans|
  {
    if spans != [] {
      var span := spans[|spans| - 1];
      var obj := lang.tryJson(text[span.lo..span.hi]);
      if obj.Some? && obj.value.Obj? { ResolveSurvivesProbe(lang, obj.value.members, labels, l, 0); }
      JsonSurvivesProbe(lang, text, spans[..|spans| - 1], labels, l);
    }
  }

  lemma {:induction false} LinesSurviveProbe(lang: Lang, lines: seq<Text>, labels: seq<Text>, l: Text)
    ensures l in LineLabels(lang, lines, labels) ==> l in labels && l in LineLabels(lang, lines, [l])
    ensures forall m :: m in LineLabels(lang, lines, [l]) ==> m == l
    decreases |lines|
  {
    if lines != [] {
      var value := LineValue(lang, lines[|lines| - 1]);
      if value.Some? {
        ProbeAnswersItself(lang, value.value, l);
        if UniqueLabel(lang, value.value, labels) == Some(l) { UniqueSurvivesProbe(lang, value.value, labels, l); }
      }
      LinesSurviveProbe(lang, lines[..|lines| - 1], labels, l);
    }
  }

  /** Probing with one label answers that label or nothing, and it answers exactly when some tier
      carries the label. */
  lemma ProbeIs(lang: Lang, text: Text, l: Text)
    ensures SpansFit(text, Spans(text), 0, 0)
    ensures Extract(lang, text, [l]) ==
      if l in JsonLabels(lang, text, Spans(text), [l]) || l in LineLabels(lang, SplitLines(text), [l])
         || Present(lang, OutsideText(lang, text), l)
      then Some(l) else None
  {
    SpansOfFit(text);
    JsonSurvivesProbe(lang, text, Spans(text), [l], l);
    LinesSurviveProbe(lang, SplitLines(text), [l], l);
    var js, ls := JsonLabels(lang, text, Spans(text), [l]), LineLabels(lang, SplitLines(text), [l]);
    CollapseIs(js);
    CollapseIs(ls);
    ProbeAnswersItself(lang, OutsideText(lang, text), l);
    if js != [] { assert js[0] in js; }
    if ls != [] { assert ls[0] in ls; }
  }

  /** A verdict is one of the labels, and probing with that label alone gives it again. */
  lemma VerdictSurvivesProbe(lang: Lang, text: Text, labels: seq<Text>, l: Text)
    requires Extract(lang, text, labels) == Some(l)
    ensures l in labels && Extract(lang, text, [l]) == Some(l)
  {
    ProbeIs(lang, text, l);
    JsonSurvivesProbe(lang, text, Spans(text), labels, l);
    LinesSurviveProbe(lang, SplitLines(text), labels, l);
    CollapseIs(JsonLabels(lang, text, Spans(text), labels));
    CollapseIs(LineLabels(lang, SplitLines(text), labels));
    if Collapse(JsonLabels(lang, text, Spans(text), labels)).Silent?
       && Collapse(LineLabels(lang, SplitLines(text), labels)).Silent? {
      UniqueSurvivesProbe(lang, OutsideText(lang, text), labels, l);
      UniqueLabelIs(lang, OutsideText(lang, text), [l], l);
    }
  }

  predicate BothOutside(lang: Lang, text: Text, labels: seq<Text>, l: Text, m: Text) {
    var outside := OutsideText(lang, text);
    l in labels && m in labels && Present(lang, outside, l) && Present(lang, outside, m)
  }

  /** When a tier resolves two different labels and no tier above it resolves one, there is no
      verdict. */
  lemma NeverGuesses(lang: Lang, text: Text, labels: seq<Text>, l: Text, m: Text)
    requires l != m
    ensures SpansFit(text, Spans(text), 0, 0)
    ensures var js, ls := JsonLabels(lang, text, Spans(text), labels), LineLabels(lang, SplitLines(text), labels);
      && (l in js && m in js ==> Extract(lang, text, labels) == None)
      && (js == [] && l in ls && m in ls ==> Extract(lang, text, labels) == None)
      && (js == [] && ls == [] && BothOutside(lang, text, labels, l, m) ==> Extract(lang, text, labels) == None)
  {
    SpansOfFit(text);
    CollapseIs(JsonLabels(lang, text, Spans(text), labels));
    CollapseIs(LineLabels(lang, SplitLines(text), labels));
    var r := UniqueLabel(lang, OutsideText(lang, text), labels);
    if r.Some? { UniqueLabelIs(lang, OutsideText(lang, text), labels, r.value); }
  }

  // ----- Scoring --------------------------------------------------------------------------------------

  const PARSE_FAIL: Text := Lit("parse_fail")

  datatype Scored = Scored(parsed: Text, correct: bool)

  /** `score_verdict`: score 1 or 0, and the label or the recorded parse failure. */
  function ScoreVerdict(lang: Lang, expected: Text, text: Text, labels: seq<Text>): Scored {
    match Extract(lang, text, labels)
    case None => Scored(PARSE_FAIL, false)
    case Some(l) => Scored(l, lang.casefold(lang.strip(l)) == lang.casefold(lang.strip(expected)))
  }
}
