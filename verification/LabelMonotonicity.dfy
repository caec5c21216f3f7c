/** For one label: recognition in a prefix stays in every longer one exactly when it outlives every
    JSON object that is completed on the way (measure_twice/report_html.py). */
module LabelMonotonicity {
  import opened Seqs
  import opened Json
  import opened LineStore
  import opened Verdict
  import opened Extraction
  import opened PrefixSearch
  import opened Report
  import opened Monotonicity
  import JsonScan

  /** The first letters of the verdict keys: `v`, `l`, `a`, `c`. */
  function KeyHead(k: nat): CodePoint {
    if k == 0 then 0x76 else if k == 1 then 0x6C else if k == 2 then 0x61 else 0x63
  }

  lemma KeyHeads(k: nat)
    requires k < |VERDICT_KEYS|
    ensures VERDICT_KEYS[k] != [] && VERDICT_KEYS[k][0] == KeyHead(k)
  {
    assert Lit("verdict")[0] == 0x76 && Lit("label")[0] == 0x6C && Lit("answer")[0] == 0x61;
    assert Lit("classification")[0] == 0x63;
  }

  /** No letter is the same as the first letters of two verdict keys. */
  ghost predicate KeysApart(lang: Lang) {
    forall c: CodePoint, i: nat, j: nat {:trigger lang.same(c, KeyHead(i)), lang.same(c, KeyHead(j))} ::
      i < j < |VERDICT_KEYS| ==> !(lang.same(c, KeyHead(i)) && lang.same(c, KeyHead(j)))
  }

  // ----- The labelled lines of a longer text --------------------------------------------------------

  lemma AfterKeyHead(lang: Lang, s: Text, k: nat) returns (j: nat)
    requires k <= |VERDICT_KEYS| && AfterKey(lang, s, k).Some?
    ensures s != [] && k <= j < |VERDICT_KEYS| && lang.same(s[0], KeyHead(j))
    decreases |VERDICT_KEYS| - k
  {
    KeyHeads(k);
    if SameAt(lang, s, 0, VERDICT_KEYS[k]) {
      assert lang.same(s[0 + 0], VERDICT_KEYS[k][0]);
      j := k;
    } else {
      j := AfterKeyHead(lang, s, k + 1);
    }
  }

  lemma KeyStartsAlike(lang: Lang, s: Text, k: nat)
    requires k < |VERDICT_KEYS|
    ensures SameAt(lang, s, 0, VERDICT_KEYS[k]) ==> s != [] && lang.same(s[0], KeyHead(k))
  {
    KeyHeads(k);
    if SameAt(lang, s, 0, VERDICT_KEYS[k]) { assert lang.same(s[0 + 0], VERDICT_KEYS[k][0]); }
  }

  lemma OnlyOneKey(lang: Lang, s: Text, k: nat, j: nat)
    requires KeysApart(lang) && k < j < |VERDICT_KEYS| && s != [] && lang.same(s[0], KeyHead(j))
    ensures !SameAt(lang, s, 0, VERDICT_KEYS[k])
  {
    KeyStartsAlike(lang, s, k);
  }

  lemma {:induction false} TrimLeftGrows(lang: Lang, s: Text, tail: Text)
    requires TrimLeft(lang, s) != []
    ensures TrimLeft(lang, s + tail) == TrimLeft(lang, s) + tail
    decreases |s|
  {
    if lang.space(s[0]) {
      assert (s + tail)[1..] == s[1..] + tail;
      TrimLeftGrows(lang, s[1..], tail);
    }
  }

  lemma SameAtGrows(lang: Lang, s: Text, tail: Text, key: Text)
    requires SameAt(lang, s, 0, key)
    ensures SameAt(lang, s + tail, 0, key)
  {
  }

  lemma {:induction false} AfterKeyGrows(lang: Lang, s: Text, tail: Text, k: nat)
    requires KeysApart(lang) && k <= |VERDICT_KEYS| && AfterKey(lang, s, k).Some?
    ensures AfterKey(lang, s + tail, k) == Some(AfterKey(lang, s, k).value + tail)
    decreases |VERDICT_KEYS| - k
  {
    var key := VERDICT_KEYS[k];
    KeyHeads(k);
    if SameAt(lang, s, 0, key) {
      KeyIsTaken(lang, s, k);
      SameAtGrows(lang, s, tail, key);
      var rest := TrimLeft(lang, s[|key|..]);
      assert (s + tail)[|key|..] == s[|key|..] + tail;
      TrimLeftGrows(lang, s[|key|..], tail);
      assert (rest + tail)[1..] == rest[1..] + tail;
    } else {
      var j := AfterKeyHead(lang, s, k + 1);
      OnlyOneKey(lang, s + tail, k, j);
      AfterKeyGrows(lang, s, tail, k + 1);
    }
  }

  /** A key that stands at the start is the one whose value is taken, if any is. */
  lemma KeyIsTaken(lang: Lang, s: Text, k: nat)
    requires KeysApart(lang) && k < |VERDICT_KEYS| && AfterKey(lang, s, k).Some? && SameAt(lang, s, 0, VERDICT_KEYS[k])
    ensures var rest := TrimLeft(lang, s[|VERDICT_KEYS[k]|..]);
      rest != [] && (rest[0] == COLON || rest[0] == 0x3D) && AfterKey(lang, s, k) == Some(rest[1..])
  {
    KeyStartsAlike(lang, s, k);
    if AfterKey(lang, s, k + 1).Some? {
      var j := AfterKeyHead(lang, s, k + 1);
      OnlyOneKey(lang, s, k, j);
      assert false;
    }
  }

  lemma {:induction false} TrimRightExactly(lang: Lang, s: Text) returns (n: nat)
    ensures n <= |s| && TrimRight(lang, s) == s[..n] && (n > 0 ==> !lang.space(s[n - 1]))
    ensures forall i :: n <= i < |s| ==> lang.space(s[i])
    decreases |s|
  {
    if s != [] && lang.space(s[|s| - 1]) {
      n := TrimRightExactly(lang, s[..|s| - 1]);
      assert s[..|s| - 1][..n] == s[..n];
      forall i | n <= i < |s| ensures lang.space(s[i]) {
        if i < |s| - 1 { assert s[i] == s[..|s| - 1][i]; }
      }
    } else {
      n := |s|;
    }
  }

  lemma EmptyHoldsNothing(lang: Lang, l: Text)
    requires l != []
    ensures !Present(lang, [], l)
  {
  }

  /** Trailing white space that was removed may be followed by more; what was there stays. */
  lemma TrimmedGrows(lang: Lang, b: Text, tail: Text, l: Text)
    requires Bounded(lang) && l != [] && (tail != [] ==> !lang.word(tail[0]))
    requires Present(lang, TrimRight(lang, b), l)
    ensures Present(lang, TrimRight(lang, b + tail), l)
  {
    var x := b + tail;
    var n := TrimRightExactly(lang, b);
    var m := TrimRightExactly(lang, x);
    if n == 0 { EmptyHoldsNothing(lang, l); }
    assert n > 0 ==> x[n - 1] == b[n - 1] && !lang.space(x[n - 1]);
    assert n <= m;
    var value := x[..m];
    assert value[0..n] == b[..n];
    assert n < m ==> value[n] == if n < |b| then b[n] else tail[0];
    PresentInPart(lang, value, 0, n, l);
  }

  lemma ValueGrows(lang: Lang, line: Text, tail: Text, l: Text)
    requires Bounded(lang) && KeysApart(lang) && l != [] && (tail != [] ==> !lang.word(tail[0]))
    requires LineValue(lang, line).Some? && Present(lang, LineValue(lang, line).value, l)
    ensures LineValue(lang, line + tail).Some? && Present(lang, LineValue(lang, line + tail).value, l)
  {
    var a := TrimLeft(lang, line);
    var rest := AfterKey(lang, a, 0).value;
    var j := AfterKeyHead(lang, a, 0);
    TrimLeftGrows(lang, line, tail);
    AfterKeyGrows(lang, a, tail, 0);
    var b := TrimLeft(lang, rest);
    if b == [] { EmptyHoldsNothing(lang, l); }
    TrimLeftGrows(lang, rest, tail);
    TrimmedGrows(lang, b, tail, l);
  }

  /** The lines of a longer text: the same ones, the last possibly longer. */
  ghost predicate GrownLines(a: seq<Text>, b: seq<Text>, more: Text) {
    && 0 < |a| <= |b| && (forall k :: 0 <= k < |a| - 1 ==> b[k] == a[k])
    && a[|a| - 1] <= b[|a| - 1]
    && (a[|a| - 1] < b[|a| - 1] ==> more != [] && b[|a| - 1][|a[|a| - 1]|] == more[0])
  }

  lemma {:induction false} LinesGrow(t: Text, more: Text)
    ensures GrownLines(SplitLines(t), SplitLines(t + more), more)
    decreases |t|
  {
    if t == [] {
      assert t + more == more;
    } else {
      LinesGrow(t[1..], more);
      LinesPrepend(t, more);
    }
  }

  lemma LinesPrepend(t: Text, more: Text)
    requires t != [] && GrownLines(SplitLines(t[1..]), SplitLines(t[1..] + more), more)
    ensures GrownLines(SplitLines(t), SplitLines(t + more), more)
  {
    var a, b := SplitLines(t[1..]), SplitLines(t[1..] + more);
    assert (t + more)[1..] == t[1..] + more && (t + more)[0] == t[0];
    if t[0] == NEWLINE { EmptyLineAhead(a, b, more); } else { LetterAhead(a, b, more, t[0]); }
  }

  lemma EmptyLineAhead(a: seq<Text>, b: seq<Text>, more: Text)
    requires GrownLines(a, b, more)
    ensures GrownLines([[]] + a, [[]] + b, more)
  {
  }

  lemma LetterAhead(a: seq<Text>, b: seq<Text>, more: Text, c: CodePoint)
    requires GrownLines(a, b, more)
    ensures GrownLines([[c] + a[0]] + a[1..], [[c] + b[0]] + b[1..], more)
  {
    if |a| == 1 { assert [c] + b[0] == ([c] + a[0]) + b[0][|a[0]|..]; }
  }

  lemma {:induction false} LineLabelsTarget(lang: Lang, lines: seq<Text>, l: Text, k: nat)
    requires k < |lines| && LineValue(lang, lines[k]).Some? && Present(lang, LineValue(lang, lines[k]).value, l)
    ensures l in LineLabels(lang, lines, [l])
    decreases |lines|
  {
    if k == |lines| - 1 {
      ProbeAnswersItself(lang, LineValue(lang, lines[k]).value, l);
    } else {
      LineLabelsTarget(lang, lines[..|lines| - 1], l, k);
    }
  }

  lemma LineRecognitionGrows(lang: Lang, t: Text, more: Text, l: Text)
    requires Bounded(lang) && KeysApart(lang) && l != [] && (more != [] ==> !lang.word(more[0]))
    requires l in LineLabels(lang, SplitLines(t), [l])
    ensures l in LineLabels(lang, SplitLines(t + more), [l])
  {
    var k := LineLabelsSource(lang, SplitLines(t), [l], l);
    UniqueLabelIs(lang, LineValue(lang, SplitLines(t)[k]).value, [l], l);
    OneLineGrows(lang, t, more, l, k);
    LineLabelsTarget(lang, SplitLines(t + more), l, k);
  }

  lemma OneLineGrows(lang: Lang, t: Text, more: Text, l: Text, k: nat)
    requires Bounded(lang) && KeysApart(lang) && l != [] && (more != [] ==> !lang.word(more[0]))
    requires k < |SplitLines(t)| && LineValue(lang, SplitLines(t)[k]).Some?
    requires Present(lang, LineValue(lang, SplitLines(t)[k]).value, l)
    ensures k < |SplitLines(t + more)| && LineValue(lang, SplitLines(t + more)[k]).Some?
    ensures Present(lang, LineValue(lang, SplitLines(t + more)[k]).value, l)
  {
    LinesGrow(t, more);
    var tail := GrownAt(SplitLines(t), SplitLines(t + more), more, k);
    ValueGrows(lang, SplitLines(t)[k], tail, l);
  }

  lemma GrownAt(a: seq<Text>, b: seq<Text>, more: Text, k: nat) returns (tail: Text)
    requires GrownLines(a, b, more) && k < |a|
    ensures k < |b| && b[k] == a[k] + tail && (tail != [] ==> more != [] && tail[0] == more[0])
  {
    tail := b[k][|a[k]|..];
  }

  // ----- The objects of a longer text ---------------------------------------------------------------

  lemma {:induction false} JsonLabelsSource(lang: Lang, text: Text, spans: seq<Span>, l: Text) returns (i: nat)
    requires InText(text, spans) && l in JsonLabels(lang, text, spans, [l])
    ensures i < |spans| && ResolveSpan(lang, text, spans[i], [l]) == Some(l)
    decreases |spans|
  {
    if ResolveSpan(lang, text, spans[|spans| - 1], [l]) == Some(l) {
      i := |spans| - 1;
    } else {
      i := JsonLabelsSource(lang, text, spans[..|spans| - 1], l);
    }
  }

  lemma {:induction false} JsonLabelsTarget(lang: Lang, text: Text, spans: seq<Span>, l: Text, i: nat)
    requires InText(text, spans) && i < |spans| && ResolveSpan(lang, text, spans[i], [l]) == Some(l)
    ensures l in JsonLabels(lang, text, spans, [l])
    decreases |spans|
  {
    if i < |spans| - 1 { JsonLabelsTarget(lang, text, spans[..|spans| - 1], l, i); }
  }

  lemma JsonRecognitionGrows(lang: Lang, text: Text, c: nat, d: nat, l: Text)
    requires c <= d <= |text|
    requires InText(text[..c], Spans(text[..c])) && l in JsonLabels(lang, text[..c], Spans(text[..c]), [l])
    ensures InText(text[..d], Spans(text[..d])) && l in JsonLabels(lang, text[..d], Spans(text[..d]), [l])
  {
    var p, q := text[..c], text[..d];
    SpansOfFit(q);
    var i := JsonLabelsSource(lang, p, Spans(p), l);
    var k := SpanStays(text, c, d, i);
    assert ResolveSpan(lang, q, Spans(q)[k], [l]) == ResolveSpan(lang, p, Spans(p)[i], [l]);
    JsonLabelsTarget(lang, q, Spans(q), l, k);
  }

  /** A top-level object of a prefix is one of every longer prefix. */
  lemma SpanStays(text: Text, c: nat, d: nat, i: nat) returns (k: nat)
    requires c <= d <= |text| && i < |Spans(text[..c])|
    ensures k < |Spans(text[..d])| && Spans(text[..d])[k] == Spans(text[..c])[i]
    ensures var span := Spans(text[..c])[i];
      span.lo <= span.hi <= c && text[..c][span.lo..span.hi] == text[..d][span.lo..span.hi]
  {
    var span := Spans(text[..c])[i];
    assert span in Spans(text[..c]);
    SpanOfPrefix(text, c, span);
    SpanOfPrefix(text, d, span);
    k :| 0 <= k < |Spans(text[..d])| && Spans(text[..d])[k] == span;
    SliceOfPrefix(text, c, span.lo, span.hi);
    SliceOfPrefix(text, d, span.lo, span.hi);
  }

  lemma SpanOfPrefix(text: Text, c: nat, span: Span)
    requires c <= |text|
    ensures span in Spans(text[..c]) <==> IsSpan(text, span) && span.hi <= c
  {
    SpansAreTopLevelObjects(text[..c]);
    PrefixSpans(text, c, span);
  }

  lemma SliceOfPrefix(text: Text, c: nat, lo: nat, hi: nat)
    requires lo <= hi <= c <= |text|
    ensures text[..c][lo..hi] == text[lo..hi]
  {
  }

  // ----- The prose of a longer text -----------------------------------------------------------------

  /** No top-level object that parses ends after `c` and at or before `d`. */
  ghost predicate NoneCompletes(lang: Lang, text: Text, c: nat, d: nat) {
    forall span :: IsSpan(text, span) && c < span.hi <= d ==> !Parses(lang, text, span)
  }

  lemma {:induction false} WalksAgree(text: Text, c: nat, i: nat)
    requires i <= c <= |text|
    ensures WalkTo(text[..c], i) == WalkTo(text, i)
    decreases i
  {
    if i > 0 { WalksAgree(text, c, i - 1); }
  }

  lemma {:induction false} WalkOnlyAdds(text: Text, i: nat, j: nat)
    requires i <= j <= |text|
    ensures WalkTo(text, i).spans <= WalkTo(text, j).spans
    decreases j - i
  {
    if i < j { WalkOnlyAdds(text, i, j - 1); }
  }

  lemma SpansOnlyGrow(text: Text, c: nat, d: nat)
    requires c <= d <= |text|
    ensures Spans(text[..c]) <= Spans(text[..d])
  {
    WalksAgree(text, c, c);
    WalksAgree(text, d, d);
    WalkOnlyAdds(text, c, d);
  }

  /** Spans that do not parse add only their own text. */
  lemma {:induction false} OutsideFromGrows(lang: Lang, p: Text, q: Text, small: seq<Span>, big: seq<Span>, k: nat,
                                            prev: nat)
    requires p <= q && small <= big && SpansFit(p, small, k, prev) && SpansFit(q, big, k, prev)
    requires forall i :: |small| <= i < |big| ==> !Parses(lang, q, big[i])
    ensures OutsideFrom(lang, q, big, k, prev) == OutsideFrom(lang, p, small, k, prev) + q[|p|..]
    decreases |small| - k
  {
    if k == |small| {
      NothingParsesKeepsText(lang, q, big, k, prev);
      assert q[prev..] == p[prev..] + q[|p|..];
    } else {
      var span := small[k];
      assert big[k] == span && p == q[..|p|];
      SliceOfPrefix(q, |p|, span.lo, span.hi);
      SliceOfPrefix(q, |p|, prev, span.lo);
      var next := if Parses(lang, p, span) then span.hi else prev;
      OutsideFromGrows(lang, p, q, small, big, k + 1, next);
      if Parses(lang, p, span) {
        ConcatThree(p[prev..span.lo] + [SPACE], OutsideFrom(lang, p, small, k + 1, next), q[|p|..]);
      }
    }
  }

  lemma OutsideGrows(lang: Lang, text: Text, c: nat, d: nat)
    requires c <= d <= |text| && NoneCompletes(lang, text, c, d)
    ensures OutsideText(lang, text[..d]) == OutsideText(lang, text[..c]) + text[c..d]
  {
    var p, q := text[..c], text[..d];
    var small, big := Spans(p), Spans(q);
    SpansOfFit(p);
    SpansOfFit(q);
    SpansOnlyGrow(text, c, d);
    forall i | |small| <= i < |big| ensures !Parses(lang, q, big[i]) {
      NewSpanEndsLater(text, c, d, i);
      SliceOfPrefix(text, d, big[i].lo, big[i].hi);
    }
    OutsideFromGrows(lang, p, q, small, big, 0, 0);
    assert q[|p|..] == text[c..d];
  }

  /** A span of the longer text only is not one of the shorter: it ends after it. */
  lemma NewSpanEndsLater(text: Text, c: nat, d: nat, i: nat)
    requires c <= d <= |text| && |Spans(text[..c])| <= i < |Spans(text[..d])|
    ensures IsSpan(text, Spans(text[..d])[i]) && c < Spans(text[..d])[i].hi <= d
  {
    var small, big := Spans(text[..c]), Spans(text[..d]);
    var span := big[i];
    assert span in big;
    SpanOfPrefix(text, d, span);
    SpanOfPrefix(text, c, span);
    SpansOnlyGrow(text, c, d);
    SpansOfFit(text[..d]);
    forall k | 0 <= k < |small| ensures small[k] != span {
      assert small[k] == big[k] && big[k].hi <= span.lo;
    }
  }

  lemma ProseRecognitionGrows(lang: Lang, text: Text, c: nat, d: nat, l: Text)
    requires c <= d <= |text| && NoneCompletes(lang, text, c, d) && (c < d ==> !lang.word(text[c]))
    requires Present(lang, OutsideText(lang, text[..c]), l)
    ensures Present(lang, OutsideText(lang, text[..d]), l)
  {
    OutsideGrows(lang, text, c, d);
    var before, after := OutsideText(lang, text[..c]), OutsideText(lang, text[..d]);
    assert after[0..|before|] == before;
    assert c < d ==> after[|before|] == text[c];
    PresentInPart(lang, after, 0, |before|, l);
  }

  /** Between two cuts, as long as no object is completed, a recognition is not lost. */
  lemma RecognitionGrowsBetween(lang: Lang, alnum: CodePoint -> bool, text: Text, l: Text, c: nat, d: nat)
    requires Sane(lang, alnum) && KeysApart(lang) && l != [] && c <= d <= |text| && (c < |text| ==> !alnum(text[c]))
    requires NoneCompletes(lang, text, c, d) && Recognized(lang, text[..c], l)
    ensures Recognized(lang, text[..d], l)
  {
    var p, q := text[..c], text[..d];
    ProbeIs(lang, p, l);
    if l in JsonLabels(lang, p, Spans(p), [l]) {
      JsonRecognitionGrows(lang, text, c, d, l);
    } else if l in LineLabels(lang, SplitLines(p), [l]) {
      assert q == p + text[c..d];
      LineRecognitionGrows(lang, p, text[c..d], l);
    } else {
      ProseRecognitionGrows(lang, text, c, d, l);
    }
    ProbeIs(lang, q, l);
  }

  // ----- The exact condition ------------------------------------------------------------------------

  /** The recognition loses nothing between two cuts without an object that is completed. */
  ghost predicate GrowsBetween(rec: Recognizer, lang: Lang, alnum: CodePoint -> bool, text: Text, l: Text) {
    forall c, d :: c in Cuts(alnum, text) && c <= d <= |text| && NoneCompletes(lang, text, c, d)
      ==> GrowsTo(rec, text, l, c, d)
  }

  predicate GrowsTo(rec: Recognizer, text: Text, l: Text, c: nat, d: nat)
    requires c <= |text| && d <= |text|
  {
    rec(text[..c], l) ==> rec(text[..d], l)
  }

  lemma ProbeGrowsBetween(lang: Lang, alnum: CodePoint -> bool, text: Text, l: Text)
    requires Sane(lang, alnum) && KeysApart(lang) && l != []
    ensures GrowsBetween(Probe(lang), lang, alnum, text, l)
  {
    forall c, d | c in Cuts(alnum, text) && c <= d <= |text| && NoneCompletes(lang, text, c, d)
      ensures GrowsTo(Probe(lang), text, l, c, d)
    {
      IsCut(alnum, text, c);
      if Recognized(lang, text[..c], l) { RecognitionGrowsBetween(lang, alnum, text, l, c, d); }
    }
  }

  predicate Outlives(rec: Recognizer, lang: Lang, text: Text, l: Text, span: Span, c: nat)
    requires span.lo < span.hi <= |text| && c <= |text|
  {
    Parses(lang, text, span) && span.hi <= c && rec(text[..span.hi - 1], l) ==> rec(text[..c], l)
  }

  /** Whenever the label is recognized just before the closing brace of an object that parses, it is
      recognized at every cut after it. */
  ghost predicate OutlivesObjects(rec: Recognizer, lang: Lang, alnum: CodePoint -> bool, text: Text, l: Text) {
    forall span, c :: IsSpan(text, span) && c in Cuts(alnum, text) ==> Outlives(rec, lang, text, l, span, c)
  }

  lemma {:induction false} FirstCompleted(lang: Lang, text: Text, c: nat, span: Span) returns (first: Span)
    requires IsSpan(text, span) && Parses(lang, text, span) && c < span.hi
    ensures IsSpan(text, first) && Parses(lang, text, first) && c < first.hi <= span.hi
    ensures NoneCompletes(lang, text, c, first.hi - 1)
    decreases span.hi
  {
    if other :| IsSpan(text, other) && c < other.hi < span.hi && Parses(lang, text, other) {
      first := FirstCompleted(lang, text, c, other);
    } else {
      first := span;
    }
  }

  lemma IsCut(alnum: CodePoint -> bool, text: Text, c: nat)
    requires c in Cuts(alnum, text)
    ensures c <= |text| && (c < |text| ==> !alnum(text[c]))
  {
    CutsAre(alnum, text, 0);
  }

  lemma OutlivingIsEnough(rec: Recognizer, lang: Lang, alnum: CodePoint -> bool, text: Text, l: Text, c: nat, d: nat)
    requires GrowsBetween(rec, lang, alnum, text, l) && OutlivesObjects(rec, lang, alnum, text, l)
    requires c in Cuts(alnum, text) && d in Cuts(alnum, text) && c <= d && rec(text[..c], l)
    ensures rec(text[..d], l)
  {
    if NoneCompletes(lang, text, c, d) {
      UseGrows(rec, lang, alnum, text, l, c, d);
    } else {
      var some :| IsSpan(text, some) && c < some.hi <= d && Parses(lang, text, some);
      var first := FirstCompleted(lang, text, c, some);
      UseGrows(rec, lang, alnum, text, l, c, first.hi - 1);
      UseOutlives(rec, lang, alnum, text, l, first, d);
    }
  }

  lemma UseGrows(rec: Recognizer, lang: Lang, alnum: CodePoint -> bool, text: Text, l: Text, c: nat, d: nat)
    requires GrowsBetween(rec, lang, alnum, text, l) && NoneCompletes(lang, text, c, d)
    requires c in Cuts(alnum, text) && c <= d <= |text| && rec(text[..c], l)
    ensures rec(text[..d], l)
  {
    assert GrowsTo(rec, text, l, c, d);
  }

  lemma UseOutlives(rec: Recognizer, lang: Lang, alnum: CodePoint -> bool, text: Text, l: Text, span: Span, d: nat)
    requires OutlivesObjects(rec, lang, alnum, text, l) && IsSpan(text, span) && Parses(lang, text, span)
    requires d in Cuts(alnum, text) && span.hi <= d && rec(text[..span.hi - 1], l)
    ensures rec(text[..d], l)
  {
    assert Outlives(rec, lang, text, l, span, d);
  }

  lemma OutlivingIsNeeded(rec: Recognizer, lang: Lang, alnum: CodePoint -> bool, text: Text, l: Text, span: Span, d: nat)
    requires !alnum(RBRACE) && Monotone(rec, alnum, text, l) && IsSpan(text, span) && d in Cuts(alnum, text)
    ensures Outlives(rec, lang, text, l, span, d)
  {
    if span.hi <= d {
      EndsWithBrace(text, span);
      IsCut(alnum, text, d);
      var j, k := CutPair(alnum, text, span.hi - 1, d);
      MonotoneAt(rec, alnum, text, l, j, k);
    }
  }

  /** For any recognizer that loses nothing between objects. */
  lemma MonotoneExactly(rec: Recognizer, lang: Lang, alnum: CodePoint -> bool, text: Text, l: Text)
    requires GrowsBetween(rec, lang, alnum, text, l) && !alnum(RBRACE)
    ensures Monotone(rec, alnum, text, l) <==> OutlivesObjects(rec, lang, alnum, text, l)
  {
    var cuts := Cuts(alnum, text);
    if OutlivesObjects(rec, lang, alnum, text, l) {
      forall j, k | 0 <= j <= k < |cuts| && rec(text[..cuts[j]], l)
        ensures rec(text[..cuts[k]], l)
      {
        CutsAre(alnum, text, 0);
        OutlivingIsEnough(rec, lang, alnum, text, l, cuts[j], cuts[k]);
      }
    }
    if Monotone(rec, alnum, text, l) {
      forall span, c | IsSpan(text, span) && c in cuts
        ensures Outlives(rec, lang, text, l, span, c)
      {
        OutlivingIsNeeded(rec, lang, alnum, text, l, span, c);
      }
    }
  }

  /** The docstring's claim for one label, exactly: once recognized it stays recognized if and only if
      it outlives every object that is completed. Suites reject empty labels. */
  lemma MonotoneExactlyWhenOutliving(lang: Lang, alnum: CodePoint -> bool, text: Text, l: Text)
    requires Sane(lang, alnum) && KeysApart(lang) && l != []
    ensures Monotone(Probe(lang), alnum, text, l) <==> OutlivesObjects(Probe(lang), lang, alnum, text, l)
  {
    ProbeGrowsBetween(lang, alnum, text, l);
    MonotoneExactly(Probe(lang), lang, alnum, text, l);
  }
}
