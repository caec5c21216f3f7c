/** Verdict extraction: a brace scanner, three recognition tiers, and a refusal to choose between
    conflicting labels (measure_twice/scoring/deterministic.py). */
module Verdict {
  import opened Seqs
  import opened Json
  import opened LineStore

  /** What the scorer takes from Python: `re.IGNORECASE`, the class `[A-Za-z0-9]` under it (which then
      also holds U+0130, U+0131, U+017F and U+212A), white space, `str.casefold`, `str.strip` and
      `json.loads`.  Every result below holds for any of these. */
  datatype Lang = Lang(
    same: (CodePoint, CodePoint) -> bool,
    word: CodePoint -> bool,
    space: CodePoint -> bool,
    casefold: Text -> Text,
    strip: Text -> Text,
    tryJson: Text -> Option<Json>)

  // ----- Whole-word search --------------------------------------------------------------------------

  /** `word` stands at `i`, letters compared under `same`. */
  predicate SameAt(lang: Lang, text: Text, i: nat, word: Text) {
    i + |word| <= |text| && forall k :: 0 <= k < |word| ==> lang.same(text[i + k], word[k])
  }

  /** It is bounded by the ends of the text or by characters that are not in a word. */
  predicate WholeAt(lang: Lang, text: Text, i: nat, j: nat)
    requires i <= j <= |text|
  {
    (i == 0 || !lang.word(text[i - 1])) && (j == |text| || !lang.word(text[j]))
  }

  predicate OccursAt(lang: Lang, text: Text, i: nat, word: Text) {
    SameAt(lang, text, i, word) && WholeAt(lang, text, i, i + |word|)
  }

  predicate Present(lang: Lang, text: Text, word: Text) {
    exists i :: 0 <= i <= |text| && OccursAt(lang, text, i, word)
  }

  function LabelsPresent(lang: Lang, text: Text, labels: seq<Text>): seq<Text> {
    if labels == [] then []
    else
      var front, last := LabelsPresent(lang, text, labels[..|labels| - 1]), labels[|labels| - 1];
      if Present(lang, text, last) && last !in front then front + [last] else front
  }

  /** `_labels_present`: the distinct labels that occur, in suite order. */
  method FindLabels(lang: Lang, text: Text, labels: seq<Text>) returns (found: seq<Text>)
    ensures found == LabelsPresent(lang, text, labels)
  {
    found := [];
    for i := 0 to |labels|
      invariant found == LabelsPresent(lang, text, labels[..i])
    {
      assert labels[..i + 1][..i] == labels[..i];
      if Present(lang, text, labels[i]) && labels[i] !in found {
        found := found + [labels[i]];
      }
    }
    assert labels[..|labels|] == labels;
  }

  function UniqueLabel(lang: Lang, text: Text, labels: seq<Text>): Option<Text> {
    var present := LabelsPresent(lang, text, labels);
    if |present| == 1 then Some(present[0]) else None
  }

  lemma {:induction false} LabelsPresentAre(lang: Lang, text: Text, labels: seq<Text>)
    ensures forall l :: l in LabelsPresent(lang, text, labels) <==> l in labels && Present(lang, text, l)
    ensures Distinct(LabelsPresent(lang, text, labels))
    decreases |labels|
  {
    if labels != [] {
      var front, last := labels[..|labels| - 1], labels[|labels| - 1];
      LabelsPresentAre(lang, text, front);
      assert forall l :: l in labels <==> l in front || l == last;
    }
  }

  /** The unique label is the only label of the list that occurs. */
  lemma UniqueLabelIs(lang: Lang, text: Text, labels: seq<Text>, l: Text)
    ensures UniqueLabel(lang, text, labels) == Some(l) <==>
      l in labels && Present(lang, text, l) && forall m :: m in labels && Present(lang, text, m) ==> m == l
  {
    var present := LabelsPresent(lang, text, labels);
    LabelsPresentAre(lang, text, labels);
    if l in labels && Present(lang, text, l) && (forall m :: m in labels && Present(lang, text, m) ==> m == l) {
      assert ToSet(present) == {l};
      DistinctCardinality(present);
      assert present[0] in present;
    } else if |present| == 1 {
      assert forall m :: m in present <==> m == present[0];
    }
  }

  // ----- The brace scanner --------------------------------------------------------------------------

  /** Open braces, inside a string literal, after a backslash. */
  datatype Scan = Scan(depth: nat, inStr: bool, escape: bool)

  const FRESH: Scan := Scan(0, false, false)

  function ScanChar(s: Scan, c: CodePoint): Scan {
    if s.inStr then
      if s.escape then s.(escape := false)
      else if c == BACKSLASH then s.(escape := true)
      else if c == QUOTE then s.(inStr := false)
      else s
    else if c == QUOTE then s.(inStr := true)
    else if c == LBRACE then s.(depth := s.depth + 1)
    else if c == RBRACE && s.depth > 0 then s.(depth := s.depth - 1)
    else s
  }

  /** The state before `text[i]`, having started in `from`. */
  function ScanTo(from: Scan, text: Text, i: nat): Scan
    requires i <= |text|
  {
    if i == 0 then from else ScanChar(ScanTo(from, text, i - 1), text[i - 1])
  }

  /** How many objects are open before `text[i]`. */
  function DepthAt(text: Text, i: nat): nat
    requires i <= |text|
  {
    ScanTo(FRESH, text, i).depth
  }

  datatype Span = Span(lo: nat, hi: nat)

  /** A top-level object: a brace outside every string and object, up to the first one that closes it. */
  ghost predicate IsSpan(text: Text, span: Span) {
    var s, e := span.lo, span.hi;
    && s + 1 < e <= |text|
    && DepthAt(text, s) == 0
    && DepthAt(text, e) == 0
    && forall k :: s < k < e ==> DepthAt(text, k) > 0
  }

  ghost predicate Ascending(spans: seq<Span>) {
    forall i, j :: 0 <= i < j < |spans| ==> spans[i].hi <= spans[j].lo
  }

  /** The scanner after `i` characters: its state, the open object's start, the spans so far. */
  datatype Walk = Walk(scan: Scan, start: int, spans: seq<Span>)

  function WalkTo(text: Text, i: nat): (w: Walk)
    requires i <= |text|
    ensures w.scan == ScanTo(FRESH, text, i)
  {
    if i == 0 then Walk(FRESH, -1, [])
    else WalkStep(WalkTo(text, i - 1), i - 1, text[i - 1])
  }

  function WalkStep(w: Walk, i: nat, c: CodePoint): Walk {
    var scan := ScanChar(w.scan, c);
    if w.scan.depth == 0 && scan.depth == 1 then Walk(scan, i, w.spans)
    else if w.scan.depth == 1 && scan.depth == 0 && w.start >= 0 then Walk(scan, -1, w.spans + [Span(w.start, i + 1)])
    else Walk(scan, w.start, w.spans)
  }

  function Spans(text: Text): seq<Span> { WalkTo(text, |text|).spans }

  /** `_json_object_spans`. */
  method JsonObjectSpans(text: Text) returns (spans: seq<Span>)
    ensures spans == Spans(text)
  {
    spans := [];
    var depth, start, inStr, escape := 0, -1, false, false;
    for i := 0 to |text|
      invariant depth >= 0 && WalkTo(text, i) == Walk(Scan(depth, inStr, escape), start, spans)
    {
      var ch := text[i];
      assert WalkTo(text, i + 1) == WalkStep(WalkTo(text, i), i, ch);
      if inStr {
        if escape {
          escape := false;
        } else if ch == BACKSLASH {
          escape := true;
        } else if ch == QUOTE {
          inStr := false;
        }
      } else if ch == QUOTE {
        inStr := true;
      } else if ch == LBRACE {
        if depth == 0 {
          start := i;
        }
        depth := depth + 1;
      } else if ch == RBRACE && depth > 0 {
        depth := depth - 1;
        if depth == 0 && start >= 0 {
          spans := spans + [Span(start, i + 1)];
          start := -1;
        }
      }
    }
  }

  /** The open object, if there is one, starts where the depth last was zero. */
  ghost predicate OpenOk(text: Text, i: nat, w: Walk)
    requires i <= |text|
  {
    && (w.scan.depth == 0 ==> w.start == -1)
    && (w.scan.depth > 0 ==> 0 <= w.start < i && DepthAt(text, w.start) == 0)
    && (w.scan.depth > 0 ==> (forall k :: w.start < k <= i ==> DepthAt(text, k) > 0))
  }

  /** The objects closed so far. */
  ghost predicate ClosedOk(text: Text, i: nat, w: Walk)
    requires i <= |text|
  {
    && (forall span :: span in w.spans ==> span.hi <= if w.scan.depth > 0 then w.start else i)
    && Ascending(w.spans)
    && (forall span :: span in w.spans <==> IsSpan(text, span) && span.hi <= i)
  }

  ghost predicate WalkOk(text: Text, i: nat, w: Walk)
    requires i <= |text|
  {
    OpenOk(text, i, w) && ClosedOk(text, i, w)
  }

  lemma {:induction false} WalkIsOk(text: Text, i: nat)
    requires i <= |text|
    ensures WalkOk(text, i, WalkTo(text, i))
    decreases i
  {
    if i > 0 {
      WalkIsOk(text, i - 1);
      OpenStep(text, i);
      ClosedStep(text, i);
    }
  }

  lemma OpenStep(text: Text, i: nat)
    requires 0 < i <= |text| && OpenOk(text, i - 1, WalkTo(text, i - 1))
    ensures OpenOk(text, i, WalkTo(text, i))
  {
    var w, w' := WalkTo(text, i - 1), WalkTo(text, i);
    assert DepthAt(text, i - 1) == w.scan.depth && DepthAt(text, i) == w'.scan.depth;
  }

  /** Only the open object can close, and it closes when the depth falls from one to zero. */
  lemma NewSpan(text: Text, i: nat, span: Span)
    requires 0 < i <= |text| && OpenOk(text, i - 1, WalkTo(text, i - 1)) && span.hi == i
    ensures var w, w' := WalkTo(text, i - 1), WalkTo(text, i);
      IsSpan(text, span) <==> w.scan.depth == 1 && w'.scan.depth == 0 && span == Span(w.start, i)
  {
    var w, w' := WalkTo(text, i - 1), WalkTo(text, i);
    assert DepthAt(text, i - 1) == w.scan.depth && DepthAt(text, i) == w'.scan.depth;
    if IsSpan(text, span) {
      assert DepthAt(text, i - 1) > 0;
      assert !(span.lo < w.start < i) && !(w.start < span.lo <= i - 1);
    }
  }

  lemma AscendingGrows(spans: seq<Span>, span: Span)
    requires Ascending(spans) && forall other :: other in spans ==> other.hi <= span.lo
    ensures Ascending(spans + [span])
  {
  }

  lemma ClosedStep(text: Text, i: nat)
    requires 0 < i <= |text| && OpenOk(text, i - 1, WalkTo(text, i - 1)) && ClosedOk(text, i - 1, WalkTo(text, i - 1))
    ensures ClosedOk(text, i, WalkTo(text, i))
  {
    var w, w' := WalkTo(text, i - 1), WalkTo(text, i);
    SpansStep(text, i);
    if w.scan.depth == 1 && w'.scan.depth == 0 { AscendingGrows(w.spans, Span(w.start, i)); }
  }

  lemma SpansStep(text: Text, i: nat)
    requires 0 < i <= |text| && OpenOk(text, i - 1, WalkTo(text, i - 1))
    requires forall span :: span in WalkTo(text, i - 1).spans <==> IsSpan(text, span) && span.hi <= i - 1
    ensures forall span :: span in WalkTo(text, i).spans <==> IsSpan(text, span) && span.hi <= i
  {
    var w, w' := WalkTo(text, i - 1), WalkTo(text, i);
    var closes := w.scan.depth == 1 && w'.scan.depth == 0;
    assert w'.spans == if closes then w.spans + [Span(w.start, i)] else w.spans;
    forall span ensures span in w'.spans <==> IsSpan(text, span) && span.hi <= i {
      assert span in w'.spans <==> span in w.spans || (closes && span == Span(w.start, i));
      if span.hi == i { NewSpan(text, i, span); }
    }
  }

  /** The spans are exactly the top-level objects, from left to right, without overlap, each from an
      opening to a closing brace. */
  lemma SpansAreTopLevelObjects(text: Text)
    ensures forall span :: span in Spans(text) <==> IsSpan(text, span)
    ensures Ascending(Spans(text))
    ensures forall span :: IsSpan(text, span) ==> text[span.lo] == LBRACE && text[span.hi - 1] == RBRACE
  {
    WalkIsOk(text, |text|);
    forall span | IsSpan(text, span)
      ensures text[span.lo] == LBRACE && text[span.hi - 1] == RBRACE
    {
      assert DepthAt(text, span.lo + 1) > 0 && DepthAt(text, span.hi - 1) > 0;
    }
  }
}
