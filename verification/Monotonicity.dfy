/** The report's search relies on a label, once recognized in a prefix, staying recognized in every
    longer one.  Completing a JSON object can take a recognition back: this holds for every label
    exactly when no top-level object of the text parses (measure_twice/report_html.py). */
module Monotonicity {
  import opened Seqs
  import opened Json
  import opened LineStore
  import opened Verdict
  import opened Extraction
  import opened PrefixSearch
  import opened Report

  /** The first top-level object that parses. */
  ghost predicate FirstObject(lang: Lang, text: Text, span: Span) {
    && IsSpan(text, span) && Parses(lang, text, span)
    && forall other :: IsSpan(text, other) && other.hi < span.hi ==> !Parses(lang, text, other)
  }

  lemma {:induction false} FindFirstObject(lang: Lang, text: Text, span: Span) returns (first: Span)
    requires IsSpan(text, span) && Parses(lang, text, span)
    ensures FirstObject(lang, text, first)
    decreases span.hi
  {
    if other :| IsSpan(text, other) && other.hi < span.hi && Parses(lang, text, other) {
      first := FindFirstObject(lang, text, other);
    } else {
      first := span;
    }
  }

  lemma {:induction false} NextCut(alnum: CodePoint -> bool, text: Text, i: nat) returns (c: nat)
    requires i <= |text|
    ensures i <= c <= |text| && (c < |text| ==> !alnum(text[c])) && forall k :: i <= k < c ==> alnum(text[k])
    decreases |text| - i
  {
    if i < |text| && alnum(text[i]) { c := NextCut(alnum, text, i + 1); } else { c := i; }
  }

  lemma {:induction false} LastBrace(text: Text, lo: nat, n: nat) returns (p: nat)
    requires lo < n <= |text| && text[lo] == LBRACE
    ensures lo <= p < n && text[p] == LBRACE && forall q :: p < q < n ==> text[q] != LBRACE
    decreases n
  {
    if text[n - 1] == LBRACE { p := n - 1; } else { p := LastBrace(text, lo, n - 1); }
  }

  /** A word with a brace at `p` does not stand where the text has no brace from there on. */
  lemma NoBraceNoWord(lang: Lang, alnum: CodePoint -> bool, text: Text, i: nat, word: Text, p: nat)
    requires Sane(lang, alnum) && p < |word| && word[p] == LBRACE
    requires forall q :: i + p <= q < |text| ==> text[q] != LBRACE
    ensures !SameAt(lang, text, i, word)
  {
    if i + |word| <= |text| {
      assert text[i + p] != LBRACE;
      assert !lang.same(text[i + p], word[p]);
    }
  }

  lemma SameInPart(lang: Lang, text: Text, a: nat, b: nat, i: nat, word: Text)
    requires a <= b <= |text| && SameAt(lang, text[a..b], i, word)
    ensures SameAt(lang, text, a + i, word)
  {
    forall k | 0 <= k < |word|
      ensures lang.same(text[a + i + k], word[k])
    {
      assert text[a..b][i + k] == text[a + i + k];
    }
  }

  // ----- The object's text up to its closing brace ------------------------------------------------

  lemma CutIn(alnum: CodePoint -> bool, text: Text, c: nat) returns (k: nat)
    requires c <= |text| && (c < |text| ==> !alnum(text[c]))
    ensures k < |Cuts(alnum, text)| && Cuts(alnum, text)[k] == c
  {
    CutsAre(alnum, text, 0);
    assert c in Cuts(alnum, text);
    k :| 0 <= k < |Cuts(alnum, text)| && Cuts(alnum, text)[k] == c;
  }

  lemma CutPair(alnum: CodePoint -> bool, text: Text, c: nat, d: nat) returns (j: nat, k: nat)
    requires c <= d <= |text| && (c < |text| ==> !alnum(text[c])) && (d < |text| ==> !alnum(text[d]))
    ensures j <= k < |Cuts(alnum, text)| && Cuts(alnum, text)[j] == c && Cuts(alnum, text)[k] == d
  {
    j := CutIn(alnum, text, c);
    k := j;
    if c < d { k := CutIn(alnum, text, d); }
    CutsAscend(alnum, text, k, j);
  }

  /** Before its closing brace the object is prose, and the whole prefix occurs in itself. */
  lemma RecognizedBeforeTheBrace(lang: Lang, alnum: CodePoint -> bool, text: Text, span: Span)
    requires Sane(lang, alnum) && FirstObject(lang, text, span)
    ensures Recognized(lang, text[..span.hi - 1], text[..span.hi - 1])
  {
    var word := text[..span.hi - 1];
    forall other | IsSpan(word, other)
      ensures !Parses(lang, word, other)
    {
      PrefixSpans(text, span.hi - 1, other);
      assert word[other.lo..other.hi] == text[other.lo..other.hi];
    }
    assert OccursAt(lang, word, 0, word);
    NoObjectRecognition(lang, alnum, word, word);
  }

  /** The prefix that ends at the next cut after the object. */
  ghost predicate Closed(lang: Lang, alnum: CodePoint -> bool, text: Text, span: Span, b: nat) {
    && FirstObject(lang, text, span) && span.hi <= b <= |text|
    && forall k :: span.hi <= k < b ==> alnum(text[k])
  }

  lemma AscendingAt(spans: seq<Span>)
    requires Ascending(spans)
    ensures forall i, j :: 0 <= i < j < |spans| ==> spans[i].hi <= spans[j].lo
  {
  }

  /** In that prefix no span reaches past the object. */
  lemma ClosedSpans(lang: Lang, alnum: CodePoint -> bool, text: Text, span: Span, b: nat, other: Span)
    requires Sane(lang, alnum) && Closed(lang, alnum, text, span, b) && IsSpan(text[..b], other)
    ensures IsSpan(text, other) && other.hi <= span.hi
    ensures other.hi < span.hi ==> !Parses(lang, text[..b], other)
    ensures other.hi == span.hi ==> other == span
  {
    PrefixSpans(text, b, other);
    assert text[..b][other.lo..other.hi] == text[other.lo..other.hi];
    TwoSpans(text, span, other);
    SpansAreTopLevelObjects(text);
    assert text[other.hi - 1] == RBRACE && !alnum(text[other.hi - 1]);
  }

  /** Two top-level objects are the same or apart. */
  lemma TwoSpans(text: Text, a: Span, b: Span)
    requires IsSpan(text, a) && IsSpan(text, b)
    ensures a == b || a.hi <= b.lo || b.hi <= a.lo
  {
    SpansAreTopLevelObjects(text);
    var spans := Spans(text);
    var i :| 0 <= i < |spans| && spans[i] == a;
    var j :| 0 <= j < |spans| && spans[j] == b;
    AscendingAt(spans);
  }

  lemma {:induction false} ShortNeverResolves(lang: Lang, ms: seq<(Text, Json)>, word: Text, n: nat, k: nat)
    requires ShortStrings(ms, n) && n <= |word| + 1 && k <= |VERDICT_KEYS|
    ensures ResolveFrom(lang, ms, [word], k) == None
    decreases |VERDICT_KEYS| - k
  {
    if k < |VERDICT_KEYS| {
      var value := LoweredGet(lang, ms, VERDICT_KEYS[k]);
      if value.Some? && value.value.Str? {
        LoweredIsMember(lang, ms, Dedup(Keys(ms)), VERDICT_KEYS[k]);
        ProbeAnswersItself(lang, value.value.s, word);
        assert !Present(lang, value.value.s, word);
      }
      ShortNeverResolves(lang, ms, word, n, k + 1);
    }
  }

  lemma {:induction false} LoweredIsMember(lang: Lang, ms: seq<(Text, Json)>, names: seq<Text>, key: Text)
    requires Lowered(lang, ms, names, key).Some?
    ensures exists m :: m in ms && m.1 == Lowered(lang, ms, names, key).value
    decreases |names|
  {
    if lang.casefold(names[|names| - 1]) == key {
      LookupIsMember(ms, names[|names| - 1]);
    } else {
      LoweredIsMember(lang, ms, names[..|names| - 1], key);
    }
  }

  lemma {:induction false} LookupIsMember(ms: seq<(Text, Json)>, key: Text)
    requires Lookup(ms, key).Some?
    ensures exists m :: m in ms && m.1 == Lookup(ms, key).value
    decreases |ms|
  {
    if ms[|ms| - 1].0 == key {
      assert ms[|ms| - 1] in ms;
    } else {
      LookupIsMember(ms[..|ms| - 1], key);
      var m :| m in ms[..|ms| - 1] && m.1 == Lookup(ms, key).value;
      assert m in ms;
    }
  }

  lemma {:induction false} NoJsonLabel(lang: Lang, alnum: CodePoint -> bool, text: Text, spans: seq<Span>, word: Text)
    requires Sane(lang, alnum)
    requires forall i :: 0 <= i < |spans| ==> spans[i].lo <= spans[i].hi <= |text| && spans[i].hi - spans[i].lo <= |word| + 1
    ensures JsonLabels(lang, text, spans, [word]) == []
    decreases |spans|
  {
    if spans != [] {
      var span := spans[|spans| - 1];
      var inner := text[span.lo..span.hi];
      var obj := lang.tryJson(inner);
      if obj.Some? && obj.value.Obj? {
        assert ShortStrings(obj.value.members, |inner|);
        ShortNeverResolves(lang, obj.value.members, word, |inner|, 0);
      }
      NoJsonLabel(lang, alnum, text, spans[..|spans| - 1], word);
    }
  }

  /** A label of a labelled line stands after the start of the text. */
  lemma LineLabelStands(lang: Lang, alnum: CodePoint -> bool, text: Text, word: Text) returns (i: nat)
    requires Sane(lang, alnum) && word in LineLabels(lang, SplitLines(text), [word])
    ensures i > 0 && SameAt(lang, text, i, word)
  {
    var k := LineLabelsSource(lang, SplitLines(text), [word], word);
    var line := SplitLines(text)[k];
    var value := LineValue(lang, line).value;
    UniqueLabelIs(lang, value, [word], word);
    var at :| 0 <= at <= |value| && OccursAt(lang, value, at, word);
    var a, b := ValuePart(lang, line);
    SameInPart(lang, line, a, b, at, word);
    var start := LineIsPart(text, k);
    SameInPart(lang, text, start, start + |line|, a + at, word);
    i := start + (a + at);
  }

  lemma NoLineLabel(lang: Lang, alnum: CodePoint -> bool, text: Text, word: Text, p: nat)
    requires Sane(lang, alnum) && p < |word| && word[p] == LBRACE
    requires forall q :: p < q < |text| ==> text[q] != LBRACE
    ensures word !in LineLabels(lang, SplitLines(text), [word])
  {
    if word in LineLabels(lang, SplitLines(text), [word]) {
      var i := LineLabelStands(lang, alnum, text, word);
      NoBraceNoWord(lang, alnum, text, i, word, p);
      assert false;
    }
  }

  lemma {:induction false} OutsideOfFirst(lang: Lang, text: Text, spans: seq<Span>, k: nat, prev: nat)
    requires SpansFit(text, spans, k, prev) && k < |spans|
    requires forall i :: k <= i < |spans| - 1 ==> !Parses(lang, text, spans[i])
    requires Parses(lang, text, spans[|spans| - 1])
    ensures OutsideFrom(lang, text, spans, k, prev)
         == text[prev..spans[|spans| - 1].lo] + [SPACE] + text[spans[|spans| - 1].hi..]
    decreases |spans| - k
  {
    if k == |spans| - 1 {
      assert OutsideFrom(lang, text, spans, k + 1, spans[k].hi) == text[spans[k].hi..];
    } else {
      OutsideOfFirst(lang, text, spans, k + 1, prev);
    }
  }

  /** The spans of the closed prefix end with the object, the only one that parses. */
  lemma ClosedPrefixSpans(lang: Lang, alnum: CodePoint -> bool, text: Text, span: Span, b: nat)
    requires Sane(lang, alnum) && Closed(lang, alnum, text, span, b)
    ensures var spans := Spans(text[..b]);
      && SpansFit(text[..b], spans, 0, 0)
      && spans != [] && spans[|spans| - 1] == span && Parses(lang, text[..b], span)
      && forall i :: 0 <= i < |spans| ==> spans[i].hi <= span.hi && (i < |spans| - 1 ==> !Parses(lang, text[..b], spans[i]))
  {
    var q := text[..b];
    var spans := Spans(q);
    SpansOfFit(q);
    var j := ObjectIsSpan(lang, alnum, text, span, b);
    forall i | 0 <= i < |spans|
      ensures spans[i].hi <= span.hi && (spans[i].hi < span.hi ==> !Parses(lang, q, spans[i]))
    {
      SpansAreTopLevelObjects(q);
      assert spans[i] in spans;
      ClosedSpans(lang, alnum, text, span, b, spans[i]);
    }
    LastOfAscending(spans, j);
  }

  lemma ObjectIsSpan(lang: Lang, alnum: CodePoint -> bool, text: Text, span: Span, b: nat) returns (j: nat)
    requires Closed(lang, alnum, text, span, b)
    ensures j < |Spans(text[..b])| && Spans(text[..b])[j] == span && Parses(lang, text[..b], span)
  {
    SpansAreTopLevelObjects(text[..b]);
    PrefixSpans(text, b, span);
    assert text[..b][span.lo..span.hi] == text[span.lo..span.hi];
    j :| 0 <= j < |Spans(text[..b])| && Spans(text[..b])[j] == span;
  }

  /** What ends last is last. */
  lemma LastOfAscending(spans: seq<Span>, j: nat)
    requires Ascending(spans) && j < |spans| && (forall i :: 0 <= i < |spans| ==> spans[i].lo < spans[i].hi <= spans[j].hi)
    ensures j == |spans| - 1 && forall i :: 0 <= i < j ==> spans[i].hi < spans[j].hi
  {
    LaterEndsLater(spans, j, |spans| - 1);
    forall i | 0 <= i < j ensures spans[i].hi < spans[j].hi { LaterEndsLater(spans, i, j); }
  }

  lemma LaterEndsLater(spans: seq<Span>, i: nat, j: nat)
    requires Ascending(spans) && i < |spans| && j < |spans| && spans[j].lo < spans[j].hi
    ensures i < j ==> spans[i].hi < spans[j].hi
  {
  }

  lemma NoProseLabel(lang: Lang, alnum: CodePoint -> bool, outside: Text, word: Text, p: nat, lo: nat)
    requires Sane(lang, alnum) && lo <= p < |word| && word[p] == LBRACE
    requires forall q :: lo <= q < |outside| ==> outside[q] != LBRACE
    ensures !Present(lang, outside, word)
  {
    forall i: nat | i <= |outside|
      ensures !OccursAt(lang, outside, i, word)
    {
      NoBraceNoWord(lang, alnum, outside, i, word, p);
    }
  }

  /** The last brace of the object, and no brace after it in the closed prefix. */
  lemma BraceOfClosed(lang: Lang, alnum: CodePoint -> bool, text: Text, span: Span, b: nat) returns (p: nat)
    requires Sane(lang, alnum) && Closed(lang, alnum, text, span, b)
    ensures span.lo <= p < span.hi - 1 && text[p] == LBRACE
    ensures forall i :: p < i < b ==> text[i] != LBRACE
  {
    SpansAreTopLevelObjects(text);
    p := LastBrace(text, span.lo, span.hi - 1);
  }

  lemma OutsideOfClosed(lang: Lang, alnum: CodePoint -> bool, text: Text, span: Span, b: nat)
    requires Sane(lang, alnum) && Closed(lang, alnum, text, span, b)
    ensures OutsideText(lang, text[..b]) == text[..span.lo] + [SPACE] + text[span.hi..b]
  {
    var q := text[..b];
    ClosedPrefixSpans(lang, alnum, text, span, b);
    OutsideOfFirst(lang, q, Spans(q), 0, 0);
    assert q[0..span.lo] == text[..span.lo] && q[span.hi..] == text[span.hi..b];
  }

  /** After its closing brace the object is masked and the recognition is gone. */
  lemma NotRecognizedAfterTheBrace(lang: Lang, alnum: CodePoint -> bool, text: Text, span: Span, b: nat)
    requires Sane(lang, alnum) && Closed(lang, alnum, text, span, b)
    ensures !Recognized(lang, text[..b], text[..span.hi - 1])
  {
    var q, word := text[..b], text[..span.hi - 1];
    var p := BraceOfClosed(lang, alnum, text, span, b);
    ClosedPrefixSpans(lang, alnum, text, span, b);
    NoJsonLabel(lang, alnum, q, Spans(q), word);
    NoLineLabel(lang, alnum, q, word, p);
    OutsideOfClosed(lang, alnum, text, span, b);
    NoProseLabel(lang, alnum, OutsideText(lang, q), word, p, span.lo);
    ProbeIs(lang, q, word);
  }

  /** The docstring's claim, exactly: recognition of every label is monotone over the cuts if and only
      if no top-level object of the text parses. */
  lemma MonotoneExactlyWithoutObject(lang: Lang, alnum: CodePoint -> bool, text: Text)
    requires Sane(lang, alnum)
    ensures (forall l :: Monotone(Probe(lang), alnum, text, l)) <==> NoObject(lang, text)
  {
    if NoObject(lang, text) {
      forall l
        ensures Monotone(Probe(lang), alnum, text, l)
      {
        ProbeIsMonotone(lang, alnum, text, l);
      }
    } else {
      var some :| IsSpan(text, some) && Parses(lang, text, some);
      ObjectBreaksMonotonicity(lang, alnum, text, some);
    }
  }

  lemma LosesBetween(rec: Recognizer, alnum: CodePoint -> bool, text: Text, l: Text, j: nat, k: nat)
    requires j <= k < |Cuts(alnum, text)|
    requires rec(text[..Cuts(alnum, text)[j]], l) && !rec(text[..Cuts(alnum, text)[k]], l)
    ensures !Monotone(rec, alnum, text, l)
  {
  }

  lemma ObjectBreaksMonotonicity(lang: Lang, alnum: CodePoint -> bool, text: Text, some: Span)
    requires Sane(lang, alnum) && IsSpan(text, some) && Parses(lang, text, some)
    ensures exists l :: !Monotone(Probe(lang), alnum, text, l)
  {
    var span := FindFirstObject(lang, text, some);
    FirstObjectBreaks(lang, alnum, text, span);
  }

  lemma FirstObjectBreaks(lang: Lang, alnum: CodePoint -> bool, text: Text, span: Span)
    requires Sane(lang, alnum) && FirstObject(lang, text, span)
    ensures !Monotone(Probe(lang), alnum, text, text[..span.hi - 1])
  {
    EndsWithBrace(text, span);
    var b := NextCut(alnum, text, span.hi);
    BraceLoses(lang, alnum, text, span, b);
    LosesAcross(Probe(lang), alnum, text, text[..span.hi - 1], span.hi - 1, b);
  }

  /** A recognizer that loses a label from one cut to a later one is not monotone. */
  lemma LosesAcross(rec: Recognizer, alnum: CodePoint -> bool, text: Text, l: Text, c: nat, d: nat)
    requires c <= d <= |text| && (c < |text| ==> !alnum(text[c])) && (d < |text| ==> !alnum(text[d]))
    requires rec(text[..c], l) && !rec(text[..d], l)
    ensures !Monotone(rec, alnum, text, l)
  {
    var j, k := CutPair(alnum, text, c, d);
    LosesBetween(rec, alnum, text, l, j, k);
  }

  lemma EndsWithBrace(text: Text, span: Span)
    requires IsSpan(text, span)
    ensures text[span.hi - 1] == RBRACE
  {
    SpansAreTopLevelObjects(text);
  }

  lemma BraceLoses(lang: Lang, alnum: CodePoint -> bool, text: Text, span: Span, b: nat)
    requires Sane(lang, alnum) && Closed(lang, alnum, text, span, b)
    ensures var word := text[..span.hi - 1]; Probe(lang)(word, word) && !Probe(lang)(text[..b], word)
  {
    RecognizedBeforeTheBrace(lang, alnum, text, span);
    NotRecognizedAfterTheBrace(lang, alnum, text, span, b);
  }
}
