/** The report re-derives every verdict: it probes the extractor one label at a time and looks for
    the earliest recognized label (measure_twice/report_html.py). */
module Report {
  import opened Seqs
  import opened Json
  import opened LineStore
  import opened Verdict
  import opened Extraction
  import opened Order
  import opened PrefixSearch
  import JsonScan

  predicate Recognized(lang: Lang, text: Text, l: Text) { Extract(lang, text, [l]).Some? }

  /** The production extractor, probed with one label. */
  function Probe(lang: Lang): Recognizer { (text: Text, l: Text) => Recognized(lang, text, l) }

  /** `_labels_recognized`. */
  function LabelsRecognized(lang: Lang, text: Text, labels: seq<Text>): (r: seq<Text>)
    ensures forall l :: l in r <==> l in labels && Recognized(lang, text, l)
  {
    if labels == [] then []
    else
      var front, last := labels[..|labels| - 1], labels[|labels| - 1];
      assert forall l :: l in labels <==> l in front || l == last;
      LabelsRecognized(lang, text, front) + if Recognized(lang, text, last) then [last] else []
  }

  /** The verdict, when there is one, is among the recognized labels; so an empty probe set means
      there was no verdict. */
  lemma VerdictIsRecognized(lang: Lang, text: Text, labels: seq<Text>, l: Text)
    requires Extract(lang, text, labels) == Some(l)
    ensures l in LabelsRecognized(lang, text, labels)
  {
    VerdictSurvivesProbe(lang, text, labels, l);
  }

  // ----- Text without a parseable object ----------------------------------------------------------

  /** No top-level object of the text parses: in particular when it has no opening brace. */
  ghost predicate NoObject(lang: Lang, text: Text) {
    forall span :: IsSpan(text, span) ==> !Parses(lang, text, span)
  }

  /** White space, line breaks and the signs after a verdict key are not in a word. */
  ghost predicate Bounded(lang: Lang) {
    && (forall c: CodePoint {:trigger lang.space(c)} :: lang.space(c) ==> !lang.word(c))
    && !lang.word(NEWLINE) && !lang.word(COLON) && !lang.word(0x3D)
  }

  /** What holds of Python's regular expressions, `isalnum` and `json.loads`. */
  ghost predicate Sane(lang: Lang, alnum: CodePoint -> bool) {
    && Bounded(lang)
    && (forall c: CodePoint {:trigger lang.word(c)} :: lang.word(c) ==> alnum(c))
    && !alnum(LBRACE) && !alnum(RBRACE)
    && (forall c: CodePoint {:trigger lang.same(c, c)} :: lang.same(c, c))
    && (forall c: CodePoint {:trigger lang.same(c, LBRACE)} :: lang.same(c, LBRACE) ==> c == LBRACE)
    && (forall t: Text {:trigger lang.tryJson(t)} :: lang.tryJson(t).Some? && lang.tryJson(t).value.Obj? ==>
          ShortStrings(lang.tryJson(t).value.members, |t|))
  }

  /** A string inside an object is shorter than the object's text. */
  predicate ShortStrings(ms: seq<(Text, Json)>, n: nat) {
    forall m :: m in ms && m.1.Str? ==> |m.1.s| + 1 < n
  }

  lemma BraceFreeHasNoObject(lang: Lang, text: Text)
    requires forall i :: 0 <= i < |text| ==> text[i] != LBRACE
    ensures NoObject(lang, text)
  {
    SpansAreTopLevelObjects(text);
  }

  lemma PrefixSpans(text: Text, c: nat, span: Span)
    requires c <= |text|
    ensures IsSpan(text[..c], span) <==> IsSpan(text, span) && span.hi <= c
  {
    assert text == text[..c] + text[c..];
    forall i | 0 <= i <= c
      ensures DepthAt(text[..c], i) == DepthAt(text, i)
    {
      JsonScan.ScanPrefix(FRESH, text[..c], text[c..], i);
    }
  }

  lemma PrefixHasNoObject(lang: Lang, text: Text, c: nat)
    requires NoObject(lang, text) && c <= |text|
    ensures NoObject(lang, text[..c])
  {
    forall span | IsSpan(text[..c], span)
      ensures !Parses(lang, text[..c], span)
    {
      PrefixSpans(text, c, span);
      assert text[..c][span.lo..span.hi] == text[span.lo..span.hi];
    }
  }

  lemma {:induction false} TrimLeftIs(lang: Lang, s: Text) returns (n: nat)
    ensures n <= |s| && TrimLeft(lang, s) == s[n..] && forall i :: 0 <= i < n ==> lang.space(s[i])
    decreases |s|
  {
    if s != [] && lang.space(s[0]) {
      var m := TrimLeftIs(lang, s[1..]);
      n := m + 1;
      forall i | 0 <= i < n
        ensures lang.space(s[i])
      {
        if i > 0 { assert s[i] == s[1..][i - 1]; }
      }
    } else {
      n := 0;
    }
  }

  lemma {:induction false} TrimRightIs(lang: Lang, s: Text) returns (n: nat)
    ensures n <= |s| && TrimRight(lang, s) == s[..n] && (n < |s| ==> lang.space(s[n]))
    decreases |s|
  {
    if s != [] && lang.space(s[|s| - 1]) {
      n := TrimRightIs(lang, s[..|s| - 1]);
      assert s[..|s| - 1][..n] == s[..n];
    } else {
      n := |s|;
    }
  }

  lemma {:induction false} AfterKeyIs(lang: Lang, s: Text, k: nat) returns (n: nat)
    requires Bounded(lang) && k <= |VERDICT_KEYS| && AfterKey(lang, s, k).Some?
    ensures 0 < n <= |s| && AfterKey(lang, s, k).value == s[n..] && !lang.word(s[n - 1])
    decreases |VERDICT_KEYS| - k
  {
    var key := VERDICT_KEYS[k];
    if SameAt(lang, s, 0, key) && Signed(TrimLeft(lang, s[|key|..])) {
      n := AfterSign(lang, s, |key|);
    } else {
      n := AfterKeyIs(lang, s, k + 1);
    }
  }

  predicate Signed(rest: Text) { rest != [] && (rest[0] == COLON || rest[0] == 0x3D) }

  /** The place behind the sign that follows the first `m` characters. */
  lemma AfterSign(lang: Lang, s: Text, m: nat) returns (n: nat)
    requires Bounded(lang) && m <= |s| && Signed(TrimLeft(lang, s[m..]))
    ensures 0 < n <= |s| && TrimLeft(lang, s[m..])[1..] == s[n..] && !lang.word(s[n - 1])
  {
    var p := TrimLeftIs(lang, s[m..]);
    DropDrop(s, m, p);
    n := m + p + 1;
  }

  /** A label in a bounded part of a text is a label of the text. */
  lemma PresentInPart(lang: Lang, text: Text, a: nat, b: nat, l: Text)
    requires a <= b <= |text| && WholeAt(lang, text, a, b) && Present(lang, text[a..b], l)
    ensures Present(lang, text, l)
  {
    var part := text[a..b];
    var i :| 0 <= i <= |part| && OccursAt(lang, part, i, l);
    var j := i + |l|;
    assert i > 0 ==> part[i - 1] == text[a + i - 1];
    assert j < |part| ==> part[j] == text[a + j];
    forall k | 0 <= k < |l|
      ensures lang.same(text[a + i + k], l[k])
    {
      assert part[i + k] == text[a + i + k];
    }
    assert OccursAt(lang, text, a + i, l);
  }

  lemma DropDrop(s: Text, i: nat, j: nat)
    requires i + j <= |s|
    ensures s[i..][j..] == s[i + j..]
    ensures j > 0 ==> s[i..][j - 1] == s[i + j - 1]
  {
  }

  /** Where the value of a labelled line starts, before trailing white space is removed. */
  lemma ValueStart(lang: Lang, line: Text) returns (a: nat)
    requires Bounded(lang)
    requires LineValue(lang, line).Some?
    ensures 0 < a <= |line| && LineValue(lang, line).value == TrimRight(lang, line[a..]) && !lang.word(line[a - 1])
  {
    var t := TrimLeftIs(lang, line);
    var n := AfterKeyIs(lang, line[t..], 0);
    DropDrop(line, t, n);
    var rest := line[t + n..];
    assert AfterKey(lang, TrimLeft(lang, line), 0) == Some(rest);
    var p := TrimLeftIs(lang, rest);
    DropDrop(line, t + n, p);
    a := t + n + p;
    assert TrimLeft(lang, rest) == line[a..];
  }

  lemma ValuePart(lang: Lang, line: Text) returns (a: nat, b: nat)
    requires Bounded(lang)
    requires LineValue(lang, line).Some?
    ensures 0 < a <= b <= |line| && LineValue(lang, line).value == line[a..b] && WholeAt(lang, line, a, b)
  {
    a := ValueStart(lang, line);
    var q := TrimRightIs(lang, line[a..]);
    b := a + q;
    assert line[a..][..q] == line[a..b];
  }

  /** `line` stands at `a`, between line breaks or the ends of the text. */
  ghost predicate LineAt(text: Text, a: nat, line: Text) {
    && a + |line| <= |text| && text[a..a + |line|] == line
    && (a > 0 ==> text[a - 1] == NEWLINE)
    && (a + |line| < |text| ==> text[a + |line|] == NEWLINE)
  }

  lemma LineAtShift(text: Text, b: nat, line: Text)
    requires text != [] && LineAt(text[1..], b, line) && (b == 0 ==> text[0] == NEWLINE)
    ensures LineAt(text, b + 1, line)
  {
    assert text[b + 1..b + 1 + |line|] == text[1..][b..b + |line|];
  }

  lemma LineAtGrow(text: Text, line: Text)
    requires text != [] && LineAt(text[1..], 0, line)
    ensures LineAt(text, 0, [text[0]] + line)
  {
    assert text[..1 + |line|] == [text[0]] + text[1..][..|line|];
  }

  lemma {:induction false} LineIsPart(text: Text, k: nat) returns (a: nat)
    requires k < |SplitLines(text)|
    ensures LineAt(text, a, SplitLines(text)[k])
    ensures k == 0 <==> a == 0
    decreases |text|
  {
    if text == [] || (k == 0 && text[0] == NEWLINE) {
      a := 0;
    } else if text[0] == NEWLINE {
      var b := LineIsPart(text[1..], k - 1);
      LineAtShift(text, b, SplitLines(text)[k]);
      a := b + 1;
    } else {
      var b := LineIsPart(text[1..], k);
      if k == 0 {
        a := 0;
        LineAtGrow(text, SplitLines(text[1..])[0]);
      } else {
        LineAtShift(text, b, SplitLines(text)[k]);
        a := b + 1;
      }
    }
  }

  lemma {:induction false} LineLabelsSource(lang: Lang, lines: seq<Text>, labels: seq<Text>, l: Text) returns (k: nat)
    requires l in LineLabels(lang, lines, labels)
    ensures k < |lines| && LineValue(lang, lines[k]).Some?
    ensures UniqueLabel(lang, LineValue(lang, lines[k]).value, labels) == Some(l)
    decreases |lines|
  {
    var last := |lines| - 1;
    var value := LineValue(lang, lines[last]);
    if value.Some? && UniqueLabel(lang, value.value, labels) == Some(l) {
      k := last;
    } else {
      k := LineLabelsSource(lang, lines[..last], labels, l);
    }
  }

  lemma ValueLabelOccurs(lang: Lang, line: Text, l: Text)
    requires Bounded(lang)
    requires LineValue(lang, line).Some? && Present(lang, LineValue(lang, line).value, l)
    ensures Present(lang, line, l)
  {
    var a, b := ValuePart(lang, line);
    PresentInPart(lang, line, a, b, l);
  }

  lemma LineLabelOccurs(lang: Lang, text: Text, l: Text)
    requires Bounded(lang) && l in LineLabels(lang, SplitLines(text), [l])
    ensures Present(lang, text, l)
  {
    var k := LineLabelsSource(lang, SplitLines(text), [l], l);
    var line := SplitLines(text)[k];
    UniqueLabelIs(lang, LineValue(lang, line).value, [l], l);
    ValueLabelOccurs(lang, line, l);
    LineOccurs(lang, text, l, k);
  }

  /** What occurs in a line occurs in the text. */
  lemma LineOccurs(lang: Lang, text: Text, l: Text, k: nat)
    requires Bounded(lang) && k < |SplitLines(text)| && Present(lang, SplitLines(text)[k], l)
    ensures Present(lang, text, l)
  {
    var at := LineIsPart(text, k);
    PresentInPart(lang, text, at, at + |SplitLines(text)[k]|, l);
  }

  lemma {:induction false} NothingParsesNoJson(lang: Lang, text: Text, spans: seq<Span>, labels: seq<Text>)
    requires forall i :: 0 <= i < |spans| ==> spans[i].lo <= spans[i].hi <= |text| && !Parses(lang, text, spans[i])
    ensures JsonLabels(lang, text, spans, labels) == []
    decreases |spans|
  {
    if spans != [] { NothingParsesNoJson(lang, text, spans[..|spans| - 1], labels); }
  }

  lemma {:induction false} NothingParsesKeepsText(lang: Lang, text: Text, spans: seq<Span>, k: nat, prev: nat)
    requires SpansFit(text, spans, k, prev)
    requires forall i :: k <= i < |spans| ==> !Parses(lang, text, spans[i])
    ensures OutsideFrom(lang, text, spans, k, prev) == text[prev..]
    decreases |spans| - k
  {
    if k < |spans| { NothingParsesKeepsText(lang, text, spans, k + 1, prev); }
  }

  lemma NoObjectTiers(lang: Lang, text: Text, labels: seq<Text>)
    requires NoObject(lang, text)
    ensures SpansFit(text, Spans(text), 0, 0)
    ensures JsonLabels(lang, text, Spans(text), labels) == []
    ensures OutsideText(lang, text) == text
  {
    SpansOfFit(text);
    SpansAreTopLevelObjects(text);
    var spans := Spans(text);
    forall i | 0 <= i < |spans|
      ensures !Parses(lang, text, spans[i])
    {
      assert spans[i] in spans;
    }
    NothingParsesNoJson(lang, text, spans, labels);
    NothingParsesKeepsText(lang, text, spans, 0, 0);
    assert text[0..] == text;
  }

  /** Without a parseable object, a label is recognized exactly when it occurs. */
  lemma NoObjectRecognition(lang: Lang, alnum: CodePoint -> bool, text: Text, l: Text)
    requires Sane(lang, alnum) && NoObject(lang, text)
    ensures Recognized(lang, text, l) <==> Present(lang, text, l)
  {
    NoObjectTiers(lang, text, [l]);
    ProbeIs(lang, text, l);
    if l in LineLabels(lang, SplitLines(text), [l]) { LineLabelOccurs(lang, text, l); }
  }

  /** Without a parseable object, recognition only grows from cut to cut. */
  lemma RecognitionGrows(lang: Lang, alnum: CodePoint -> bool, text: Text, l: Text, c: nat, d: nat)
    requires Sane(lang, alnum) && NoObject(lang, text) && c <= d <= |text|
    requires c < |text| ==> !alnum(text[c])
    requires Recognized(lang, text[..c], l)
    ensures Recognized(lang, text[..d], l)
  {
    PrefixHasNoObject(lang, text, c);
    PrefixHasNoObject(lang, text, d);
    NoObjectRecognition(lang, alnum, text[..c], l);
    NoObjectRecognition(lang, alnum, text[..d], l);
    assert text[..d][0..c] == text[..c];
    PresentInPart(lang, text[..d], 0, c, l);
  }

  lemma ProbeIsMonotone(lang: Lang, alnum: CodePoint -> bool, text: Text, l: Text)
    requires Sane(lang, alnum) && NoObject(lang, text)
    ensures Monotone(Probe(lang), alnum, text, l)
  {
    var cuts := Cuts(alnum, text);
    CutsAre(alnum, text, 0);
    forall j, k | 0 <= j <= k < |cuts| && Recognized(lang, text[..cuts[j]], l)
      ensures Recognized(lang, text[..cuts[k]], l)
    {
      assert cuts[j] in cuts;
      RecognitionGrows(lang, alnum, text, l, cuts[j], cuts[k]);
    }
  }

  /** A monotone recognizer: no label is recognized before the cut found, nor at it when it comes
      earlier in the list. */
  lemma NotBeforeItsCut(rec: Recognizer, alnum: CodePoint -> bool, text: Text, labels: seq<Text>, first: First, at: nat,
                        j: nat, c: nat)
    requires Earliest(rec, CutFinder(rec, alnum, text), text, labels, |labels|, first, at)
    requires j < |labels| && Monotone(rec, alnum, text, labels[j])
    requires c in Cuts(alnum, text) && (c < first.cut || (c == first.cut && j < at))
    ensures c <= |text| && !rec(text[..c], labels[j])
  {
    var cuts, l := Cuts(alnum, text), labels[j];
    var k :| 0 <= k < |cuts| && cuts[k] == c;
    CutsAre(alnum, text, 0);
    assert text[..cuts[|cuts| - 1]] == text;
    if rec(text, l) {
      assert c < CutFinder(rec, alnum, text)(l);
      CutIsLeast(rec, alnum, text, l, c);
    } else {
      MonotoneAt(rec, alnum, text, l, k, |cuts| - 1);
    }
  }

  /** `_first_recognized_label` over the production extractor: the cut found always recognizes the
      label; without a parseable object it is the smallest cut that recognizes any label of the list,
      ties going to the earlier label. */
  method FirstRecognized(lang: Lang, alnum: CodePoint -> bool, text: Text, labels: seq<Text>)
    returns (best: Option<First>)
    requires Sane(lang, alnum)
    ensures best.None? <==> LabelsRecognized(lang, text, labels) == []
    ensures best.Some? ==>
      && best.value.cut <= |text| && best.value.cut in Cuts(alnum, text)
      && Recognized(lang, text[..best.value.cut], best.value.found)
      && best.value.found in LabelsRecognized(lang, text, labels)
    ensures best.Some? ==> IsFirst(lang, alnum, text, labels, best.value)
    ensures best.Some? && NoObject(lang, text) ==>
      exists at :: 0 <= at < |labels| && labels[at] == best.value.found
                   && NothingEarlier(lang, alnum, text, labels, best.value.cut, at)
  {
    ghost var at: nat;
    best, at := FirstRecognizedLabel(Probe(lang), alnum, text, labels);
    NothingRecognized(lang, text, labels);
    if best.Some? {
      CutIsRecognized(Probe(lang), alnum, text, best.value.found);
      if NoObject(lang, text) { FirstIsEarliest(lang, alnum, text, labels, best.value, at); }
    }
  }

  /** Of the recognized labels, the one whose search settles on the smallest cut, ties going to the
      earlier label of the list. */
  ghost predicate IsFirst(lang: Lang, alnum: CodePoint -> bool, text: Text, labels: seq<Text>, first: First) {
    exists at: nat :: Earliest(Probe(lang), CutFinder(Probe(lang), alnum, text), text, labels, |labels|, first, at)
  }

  /** There is one such label at most. */
  lemma FirstIsUnique(lang: Lang, alnum: CodePoint -> bool, text: Text, labels: seq<Text>, a: First, b: First)
    requires IsFirst(lang, alnum, text, labels, a) && IsFirst(lang, alnum, text, labels, b)
    ensures a == b
  {
    var rec, cutOf := Probe(lang), CutFinder(Probe(lang), alnum, text);
    var i: nat :| Earliest(rec, cutOf, text, labels, |labels|, a, i);
    var j: nat :| Earliest(rec, cutOf, text, labels, |labels|, b, j);
    EarliestIsUnique(rec, cutOf, text, labels, a, i, b, j);
  }

  lemma EarliestIsUnique(rec: Recognizer, cutOf: Text -> nat, text: Text, labels: seq<Text>, a: First, i: nat, b: First,
                         j: nat)
    requires Earliest(rec, cutOf, text, labels, |labels|, a, i) && Earliest(rec, cutOf, text, labels, |labels|, b, j)
    ensures a == b
  {
  }

  ghost predicate NothingEarlier(lang: Lang, alnum: CodePoint -> bool, text: Text, labels: seq<Text>, cut: nat, at: nat) {
    forall c, j :: c in Cuts(alnum, text) && 0 <= j < |labels| && (c < cut || (c == cut && j < at)) ==>
      c <= |text| && !Recognized(lang, text[..c], labels[j])
  }

  lemma FirstIsEarliest(lang: Lang, alnum: CodePoint -> bool, text: Text, labels: seq<Text>, first: First, at: nat)
    requires Sane(lang, alnum) && NoObject(lang, text)
    requires Earliest(Probe(lang), CutFinder(Probe(lang), alnum, text), text, labels, |labels|, first, at)
    ensures NothingEarlier(lang, alnum, text, labels, first.cut, at)
  {
    forall c, j | c in Cuts(alnum, text) && 0 <= j < |labels| && (c < first.cut || (c == first.cut && j < at))
      ensures c <= |text| && !Recognized(lang, text[..c], labels[j])
    {
      ProbeIsMonotone(lang, alnum, text, labels[j]);
      NotBeforeItsCut(Probe(lang), alnum, text, labels, first, at, j, c);
    }
  }

  lemma NothingRecognized(lang: Lang, text: Text, labels: seq<Text>)
    ensures LabelsRecognized(lang, text, labels) == [] <==>
      forall j :: 0 <= j < |labels| ==> !Probe(lang)(text, labels[j])
  {
    var r := LabelsRecognized(lang, text, labels);
    if r != [] {
      assert r[0] in r;
      var j :| 0 <= j < |labels| && labels[j] == r[0];
      assert Probe(lang)(text, labels[j]);
    } else {
      assert forall j :: 0 <= j < |labels| ==> labels[j] !in r;
    }
  }

  // ----- One recognized label -------------------------------------------------------------------------

  lemma UniqueReduces(lang: Lang, text: Text, labels: seq<Text>, l: Text)
    requires l in labels && forall m :: m in labels && m != l ==> !Present(lang, text, m)
    ensures UniqueLabel(lang, text, labels) == UniqueLabel(lang, text, [l])
  {
    ProbeAnswersItself(lang, text, l);
    UniqueLabelIs(lang, text, labels, l);
    var r := UniqueLabel(lang, text, labels);
    if r.Some? { UniqueLabelIs(lang, text, labels, r.value); }
  }

  lemma {:induction false} ResolveReduces(lang: Lang, ms: seq<(Text, Json)>, labels: seq<Text>, l: Text, k: nat)
    requires k <= |VERDICT_KEYS| && l in labels
    requires forall m :: m in labels && m != l ==> ResolveFrom(lang, ms, [m], k) == None
    ensures ResolveFrom(lang, ms, labels, k) == ResolveFrom(lang, ms, [l], k)
    decreases |VERDICT_KEYS| - k
  {
    if k < |VERDICT_KEYS| {
      var value := LoweredGet(lang, ms, VERDICT_KEYS[k]);
      forall m | m in labels && m != l
        ensures ResolveFrom(lang, ms, [m], k + 1) == None
        ensures value.Some? && value.value.Str? ==> !Present(lang, value.value.s, m)
      {
        assert ResolveFrom(lang, ms, [m], k) == None;
        if value.Some? && value.value.Str? { ProbeAnswersItself(lang, value.value.s, m); }
      }
      if value.Some? && value.value.Str? { UniqueReduces(lang, value.value.s, labels, l); }
      ResolveReduces(lang, ms, labels, l, k + 1);
    }
  }

  lemma {:induction false} JsonReduces(lang: Lang, text: Text, spans: seq<Span>, labels: seq<Text>, l: Text)
    requires forall i :: 0 <= i < |spans| ==> spans[i].lo <= spans[i].hi <= |text|
    requires l in labels && forall m :: m in labels && m != l ==> JsonLabels(lang, text, spans, [m]) == []
    ensures JsonLabels(lang, text, spans, labels) == JsonLabels(lang, text, spans, [l])
    decreases |spans|
  {
    if spans != [] {
      var span := spans[|spans| - 1];
      var obj := lang.tryJson(text[span.lo..span.hi]);
      forall m | m in labels && m != l
        ensures JsonLabels(lang, text, spans[..|spans| - 1], [m]) == [] && ResolveSpan(lang, text, span, [m]) == None
      {
        assert JsonLabels(lang, text, spans, [m]) == [];
      }
      if obj.Some? && obj.value.Obj? {
        forall m | m in labels && m != l
          ensures ResolveFrom(lang, obj.value.members, [m], 0) == None
        {
          assert ResolveSpan(lang, text, span, [m]) == None;
        }
        ResolveReduces(lang, obj.value.members, labels, l, 0);
      }
      JsonReduces(lang, text, spans[..|spans| - 1], labels, l);
    }
  }

  lemma {:induction false} LinesReduce(lang: Lang, lines: seq<Text>, labels: seq<Text>, l: Text)
    requires l in labels && forall m :: m in labels && m != l ==> LineLabels(lang, lines, [m]) == []
    ensures LineLabels(lang, lines, labels) == LineLabels(lang, lines, [l])
    decreases |lines|
  {
    if lines != [] {
      var value := LineValue(lang, lines[|lines| - 1]);
      forall m | m in labels && m != l
        ensures LineLabels(lang, lines[..|lines| - 1], [m]) == []
        ensures value.Some? ==> !Present(lang, value.value, m)
      {
        assert LineLabels(lang, lines, [m]) == [];
        if value.Some? { ProbeAnswersItself(lang, value.value, m); }
      }
      if value.Some? { UniqueReduces(lang, value.value, labels, l); }
      LinesReduce(lang, lines[..|lines| - 1], labels, l);
    }
  }

  lemma NotRecognizedAnywhere(lang: Lang, text: Text, m: Text)
    requires !Recognized(lang, text, m)
    ensures SpansFit(text, Spans(text), 0, 0)
    ensures JsonLabels(lang, text, Spans(text), [m]) == [] && LineLabels(lang, SplitLines(text), [m]) == []
    ensures !Present(lang, OutsideText(lang, text), m)
  {
    ProbeIs(lang, text, m);
    JsonSurvivesProbe(lang, text, Spans(text), [m], m);
    LinesSurviveProbe(lang, SplitLines(text), [m], m);
    var js, ls := JsonLabels(lang, text, Spans(text), [m]), LineLabels(lang, SplitLines(text), [m]);
    NoMembers(js);
    NoMembers(ls);
  }

  /** When exactly one label of the list is recognized, it is the verdict: no structured tier can hide
      it.  So a parse failure with one recognized label never happens. */
  lemma OneRecognizedLabelIsTheVerdict(lang: Lang, text: Text, labels: seq<Text>, l: Text)
    requires l in labels && Recognized(lang, text, l)
    requires forall m :: m in labels && m != l ==> !Recognized(lang, text, m)
    ensures Extract(lang, text, labels) == Some(l)
  {
    SpansOfFit(text);
    forall m | m in labels && m != l
      ensures JsonLabels(lang, text, Spans(text), [m]) == [] && LineLabels(lang, SplitLines(text), [m]) == []
      ensures !Present(lang, OutsideText(lang, text), m)
    {
      NotRecognizedAnywhere(lang, text, m);
    }
    JsonReduces(lang, text, Spans(text), labels, l);
    LinesReduce(lang, SplitLines(text), labels, l);
    UniqueReduces(lang, OutsideText(lang, text), labels, l);
    assert Extract(lang, text, labels) == Extract(lang, text, [l]);
    ProbeIs(lang, text, l);
  }

  // ----- Classifying a stored row ---------------------------------------------------------------------

  datatype StoredRow = StoredRow(raw: Text, parsed: Option<Text>, score: Option<real>, failed: bool, noResponse: bool)

  datatype Outcome = ErrorCell | NoResponse | Refused | NoVerdict | Ambiguous | Correct | Wrong

  datatype CellReport = CellReport(outcome: Outcome, present: seq<Text>, recoverable: bool)

  function Rescore(lang: Lang, row: StoredRow, expected: Text, labels: seq<Text>): (Option<Text>, Option<real>) {
    var s := ScoreVerdict(lang, expected, row.raw, labels);
    (Some(s.parsed), Some(if s.correct then 1.0 else 0.0))
  }

  /** Labels are compared without case and without the white space around them. */
  predicate SameLabel(lang: Lang, a: Text, b: Text) { lang.casefold(lang.strip(a)) == lang.casefold(lang.strip(b)) }

  /** What the stored verdict and score must be: the extracted label with 1 or 0, or the recorded
      parse failure with 0. */
  ghost predicate Reproduces(lang: Lang, row: StoredRow, expected: Text, labels: seq<Text>) {
    match Extract(lang, row.raw, labels)
    case None => row.parsed == Some(Lit("parse_fail")) && row.score == Some(0.0)
    case Some(l) => row.parsed == Some(l) && row.score == Some(if SameLabel(lang, l, expected) then 1.0 else 0.0)
  }

  /** The cell of a row that was scored. */
  ghost predicate Explains(lang: Lang, alnum: CodePoint -> bool, raw: Text, expected: Text, labels: seq<Text>,
                           cell: CellReport)
  {
    && InOrder(labels, cell.present)
    && (forall l :: l in cell.present <==> l in labels && Extract(lang, raw, [l]).Some?)
    && match Extract(lang, raw, labels)
       case Some(l) =>
         && cell.outcome == (if SameLabel(lang, l, expected) then Correct else Wrong)
         && l in cell.present && !cell.recoverable
       case None =>
         && cell.outcome == (if cell.present == [] then NoVerdict else Refused)
         && |cell.present| != 1
         && (cell.recoverable <==>
               exists first :: IsFirst(lang, alnum, raw, labels, first)
                               && lang.casefold(first.found) == lang.casefold(expected))
  }

  lemma RescoreIs(lang: Lang, row: StoredRow, expected: Text, labels: seq<Text>)
    ensures (row.parsed, row.score) == Rescore(lang, row, expected, labels) <==> Reproduces(lang, row, expected, labels)
  {
  }

  /** `_classify`; None stands for its ReportError.  A suite that uses the parse-failure marker as a
      label is rejected before any scoring. */
  method Classify(lang: Lang, alnum: CodePoint -> bool, row: StoredRow, expected: Text, labels: seq<Text>)
    returns (cell: Option<CellReport>)
    requires Sane(lang, alnum) && PARSE_FAIL !in labels
    ensures cell.None? <==> !row.failed && !row.noResponse && !Reproduces(lang, row, expected, labels)
    ensures row.failed ==> cell == Some(CellReport(ErrorCell, [], false))
    ensures !row.failed && row.noResponse ==> cell == Some(CellReport(NoResponse, [], false))
    ensures cell.Some? && !row.failed && !row.noResponse ==> Explains(lang, alnum, row.raw, expected, labels, cell.value)
  {
    if row.failed {
      return Some(CellReport(ErrorCell, [], false));
    }
    if row.noResponse {
      return Some(CellReport(NoResponse, [], false));
    }
    RescoreIs(lang, row, expected, labels);
    if (row.parsed, row.score) != Rescore(lang, row, expected, labels) {
      return None;
    }
    ParsedTellsVerdict(lang, row, expected, labels);
    var present := LabelsRecognized(lang, row.raw, labels);
    RecognizedInOrder(lang, row.raw, labels);
    var first := FirstRecognized(lang, alnum, row.raw, labels);
    if row.parsed == Some(PARSE_FAIL) {
      var recoverable := first.Some? && lang.casefold(first.value.found) == lang.casefold(expected);
      RecoverableIs(lang, alnum, row.raw, labels, first, expected);
      NotExactlyOne(lang, row.raw, labels);
      if |present| >= 2 {
        return Some(CellReport(Refused, present, recoverable));
      }
      if present == [] {
        return Some(CellReport(NoVerdict, present, recoverable));
      }
      return Some(CellReport(Ambiguous, present, recoverable));
    }
    VerdictIsRecognized(lang, row.raw, labels, row.parsed.value);
    if row.score == Some(1.0) {
      return Some(CellReport(Correct, present, false));
    }
    return Some(CellReport(Wrong, present, false));
  }

  /** The stored verdict is the marker exactly when there was none. */
  lemma ParsedTellsVerdict(lang: Lang, row: StoredRow, expected: Text, labels: seq<Text>)
    requires PARSE_FAIL !in labels && Reproduces(lang, row, expected, labels)
    ensures row.parsed == Some(PARSE_FAIL) <==> Extract(lang, row.raw, labels) == None
    ensures row.parsed != Some(PARSE_FAIL) ==> row.parsed == Extract(lang, row.raw, labels)
  {
    var r := Extract(lang, row.raw, labels);
    if r.Some? { VerdictSurvivesProbe(lang, row.raw, labels, r.value); }
  }

  /** The recognized labels keep the order of the list. */
  lemma {:induction false} RecognizedInOrder(lang: Lang, text: Text, labels: seq<Text>)
    ensures InOrder(labels, LabelsRecognized(lang, text, labels))
    decreases |labels|
  {
    if labels != [] {
      var front, last := labels[..|labels| - 1], labels[|labels| - 1];
      var r := LabelsRecognized(lang, text, front);
      RecognizedInOrder(lang, text, front);
      assert labels == front + [last] && r + [] == r;
      if Recognized(lang, text, last) { InOrderTake(front, r, last); } else { InOrderSkip(front, r, last); }
    }
  }

  lemma RecoverableIs(lang: Lang, alnum: CodePoint -> bool, text: Text, labels: seq<Text>, best: Option<First>,
                      expected: Text)
    requires best.None? ==> LabelsRecognized(lang, text, labels) == []
    requires best.Some? ==> IsFirst(lang, alnum, text, labels, best.value)
    ensures (exists first :: IsFirst(lang, alnum, text, labels, first) && lang.casefold(first.found) == lang.casefold(expected))
      <==> best.Some? && lang.casefold(best.value.found) == lang.casefold(expected)
  {
    NothingRecognized(lang, text, labels);
    forall first | IsFirst(lang, alnum, text, labels, first)
      ensures best == Some(first)
    {
      if best.Some? { FirstIsUnique(lang, alnum, text, labels, first, best.value); }
    }
  }

  lemma NotExactlyOne(lang: Lang, text: Text, labels: seq<Text>)
    requires Extract(lang, text, labels) == None
    ensures |LabelsRecognized(lang, text, labels)| != 1
  {
    var r := LabelsRecognized(lang, text, labels);
    if |r| == 1 { SinglePresent(lang, text, labels, r[0]); }
  }

  lemma SinglePresent(lang: Lang, text: Text, labels: seq<Text>, l: Text)
    requires LabelsRecognized(lang, text, labels) == [l]
    ensures Extract(lang, text, labels).Some?
  {
    var r := LabelsRecognized(lang, text, labels);
    assert l in r;
    forall m | m in labels && m != l
      ensures !Recognized(lang, text, m)
    {
      assert m !in r;
    }
    OneRecognizedLabelIsTheVerdict(lang, text, labels, l);
  }
}
