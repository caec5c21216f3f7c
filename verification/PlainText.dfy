/** The extractor on plain ASCII with the modelled JSON reader: what the results about recognition ask
    of Python does hold there, and concrete answers to set beside them. */
module PlainText {
  import opened Seqs
  import opened Json
  import opened JsonProofs
  import opened LineStore
  import opened Verdict
  import opened Extraction
  import opened PrefixSearch
  import opened Report
  import opened Monotonicity
  import opened LabelMonotonicity
  import opened Ladder
  import JsonScan

  predicate Alnum(c: CodePoint) { 0x30 <= c <= 0x39 || 0x41 <= c <= 0x5A || 0x61 <= c <= 0x7A }

  function TryLoads(t: Text): Option<Json> {
    match Loads(t)
    case Value(v) => Some(v)
    case Invalid => None
  }

  /** A letter without its case. */
  function Lower(c: CodePoint): CodePoint { if 0x41 <= c <= 0x5A then c + 32 else c }

  function LowerAll(t: Text): (r: Text)
    ensures |r| == |t| && forall i :: 0 <= i < |t| ==> r[i] == Lower(t[i])
  {
    seq(|t|, i requires 0 <= i < |t| => Lower(t[i]))
  }

  function Strip(t: Text): Text {
    if t != [] && IsSpace(t[0]) then Strip(t[1..])
    else if t != [] && IsSpace(t[|t| - 1]) then Strip(t[..|t| - 1])
    else t
  }

  const PLAIN: Lang := Lang((a: CodePoint, b: CodePoint) => Lower(a) == Lower(b), Alnum, IsSpace, LowerAll, Strip, TryLoads)

  lemma PlainIsBounded()
    ensures Bounded(PLAIN)
  {
  }

  lemma PlainKeysAreApart()
    ensures KeysApart(PLAIN)
  {
  }

  lemma PlainStringsAreShort(t: Text)
    requires TryLoads(t).Some? && TryLoads(t).value.Obj?
    ensures ShortStrings(TryLoads(t).value.members, |t|)
  {
    LoadedStringsAreShort(t, TryLoads(t).value.members);
  }

  lemma PlainIsSane()
    ensures Sane(PLAIN, Alnum) && KeysApart(PLAIN)
  {
    PlainIsBounded();
    PlainKeysAreApart();
    forall t: Text | TryLoads(t).Some? && TryLoads(t).value.Obj?
      ensures ShortStrings(TryLoads(t).value.members, |t|)
    {
      PlainStringsAreShort(t);
    }
  }

  const FLAG: Text := Lit("flag")
  const OBJECT: Json := Obj([(Lit("k"), Str(FLAG))])

  /** `{"k": "flag"}` */
  const TEXT: Text := Dumps(OBJECT)

  lemma {:induction false} PlainChars(s: Text)
    requires forall i :: 0 <= i < |s| ==> Alnum(s[i])
    ensures EncodeChars(s) == s && !HasSplitPair(s)
    decreases |s|
  {
    if s != [] { PlainChars(s[1..]); }
  }

  lemma FlagIs()
    ensures FLAG == [0x66, 0x6C, 0x61, 0x67] && Lit("k") == [0x6B]
  {
  }

  lemma MemberIs()
    ensures DumpMember((Lit("k"), Str(FLAG))) == [QUOTE, 0x6B, QUOTE, COLON, SPACE, QUOTE] + FLAG + [QUOTE]
    ensures !HasSplitPair(Lit("k")) && !HasSplitPair(FLAG)
  {
    FlagIs();
    PlainChars(Lit("k"));
    PlainChars(FLAG);
  }

  lemma TextIs()
    ensures TEXT == [LBRACE, QUOTE, 0x6B, QUOTE, COLON, SPACE, QUOTE] + FLAG + [QUOTE, RBRACE]
  {
    MemberIs();
    var m := (Lit("k"), Str(FLAG));
    assert OBJECT.members == [m] && DumpMembers([m]) == DumpMember(m);
  }

  lemma TextParses()
    ensures ParseValue(TEXT) == Got(OBJECT, []) && TryLoads(TEXT) == Some(OBJECT)
  {
    MemberIs();
    assert Printable(Str(FLAG)) && Printable(OBJECT);
    ValueReadBack(OBJECT, []);
    assert TEXT + [] == TEXT;
    LoadsDumps(OBJECT);
  }

  /** The whole text is its only top-level object. */
  lemma OneSpan(span: Span)
    ensures IsSpan(TEXT, span) <==> span == Span(0, |TEXT|)
  {
    WholeIsSpan();
    if IsSpan(TEXT, span) { TwoSpans(TEXT, span, Span(0, |TEXT|)); }
  }

  lemma WholeIsSpan()
    ensures IsSpan(TEXT, Span(0, |TEXT|))
  {
    TextParses();
    WholeObject(TEXT);
  }

  lemma WholeObject(text: Text)
    requires ParseValue(text).Got? && ParseValue(text).value.Obj? && ParseValue(text).rest == []
    ensures IsSpan(text, Span(0, |text|))
  {
    JsonScan.WellFormedObjectIsASpan([], text);
    assert [] + text == text;
    SpansAreTopLevelObjects(text);
  }

  lemma RecognizedOpen()
    ensures |TEXT| > 0 && Recognized(PLAIN, TEXT[..|TEXT| - 1], FLAG)
  {
    TextIs();
    FlagIs();
    var open := TEXT[..|TEXT| - 1];
    forall span ensures !IsSpan(open, span) {
      PrefixSpans(TEXT, |TEXT| - 1, span);
      OneSpan(span);
    }
    NoObjectTiers(PLAIN, open, [FLAG]);
    assert OccursAt(PLAIN, open, 7, FLAG);
    ProbeIs(PLAIN, open, FLAG);
  }

  lemma {:induction false} NoVerdictKey(k: nat)
    requires k <= |VERDICT_KEYS|
    ensures ResolveFrom(PLAIN, OBJECT.members, [FLAG], k) == None
    decreases |VERDICT_KEYS| - k
  {
    var ms := OBJECT.members;
    assert Keys(ms) == [Lit("k")];
    assert Keys(ms)[..0] == [];
    assert Dedup(Keys(ms)) == [Lit("k")];
    if k < |VERDICT_KEYS| {
      assert |VERDICT_KEYS[k]| > 1;
      assert Lowered(PLAIN, ms, [Lit("k")], VERDICT_KEYS[k]) == Lowered(PLAIN, ms, [Lit("k")][..0], VERDICT_KEYS[k]);
      NoVerdictKey(k + 1);
    }
  }

  lemma {:induction false} OneLine(t: Text)
    requires forall i :: 0 <= i < |t| ==> t[i] != NEWLINE
    ensures SplitLines(t) == [t]
    decreases |t|
  {
    if t != [] {
      OneLine(t[1..]);
      assert [t[0]] + t[1..] == t;
    }
  }

  lemma NoKeyOnTheLine()
    ensures LineLabels(PLAIN, SplitLines(TEXT), [FLAG]) == []
  {
    TextIs();
    OneLine(TEXT);
    assert TrimLeft(PLAIN, TEXT) == TEXT;
    if AfterKey(PLAIN, TEXT, 0).Some? {
      var j := AfterKeyHead(PLAIN, TEXT, 0);
      assert false;
    }
    assert [TEXT][..0] == [];
  }

  lemma OutsideIsSpace()
    ensures OutsideText(PLAIN, TEXT) == [SPACE]
  {
    PlainIsSane();
    TextIs();
    TextParses();
    var whole := Span(0, |TEXT|);
    forall other ensures IsSpan(TEXT, other) <==> other == whole { OneSpan(other); }
    assert TEXT[0..|TEXT|] == TEXT && TEXT[..|TEXT|] == TEXT;
    assert FirstObject(PLAIN, TEXT, whole);
    OutsideOfClosed(PLAIN, Alnum, TEXT, whole, |TEXT|);
  }

  lemma LostClosed()
    ensures !Recognized(PLAIN, TEXT, FLAG)
  {
    FlagIs();
    ProbeIs(PLAIN, TEXT, FLAG);
    NoJsonFlag();
    NoKeyOnTheLine();
    OutsideIsSpace();
  }

  lemma NoJsonFlag()
    ensures InText(TEXT, Spans(TEXT)) && FLAG !in JsonLabels(PLAIN, TEXT, Spans(TEXT), [FLAG])
  {
    TextParses();
    SpansOfFit(TEXT);
    SpansAreTopLevelObjects(TEXT);
    NoVerdictKey(0);
    forall i | 0 <= i < |Spans(TEXT)| ensures ResolveSpan(PLAIN, TEXT, Spans(TEXT)[i], [FLAG]) == None {
      assert Spans(TEXT)[i] in Spans(TEXT);
      OneSpan(Spans(TEXT)[i]);
      assert TEXT[0..|TEXT|] == TEXT;
    }
    NothingResolves(TEXT, Spans(TEXT));
  }

  lemma {:induction false} NothingResolves(text: Text, spans: seq<Span>)
    requires InText(text, spans) && forall i :: 0 <= i < |spans| ==> ResolveSpan(PLAIN, text, spans[i], [FLAG]) == None
    ensures JsonLabels(PLAIN, text, spans, [FLAG]) == []
    decreases |spans|
  {
    if spans != [] { NothingResolves(text, spans[..|spans| - 1]); }
  }

  /** In `{"k": "flag"}` the label `flag` is recognized until the closing brace and not after it. */
  lemma ClosingBraceTakesRecognitionBack()
    ensures |TEXT| > 0 && Recognized(PLAIN, TEXT[..|TEXT| - 1], FLAG) && !Recognized(PLAIN, TEXT, FLAG)
    ensures !Monotone(Probe(PLAIN), Alnum, TEXT, FLAG)
  {
    RecognizedOpen();
    LostClosed();
    WholeIsSpan();
    EndsWithBrace(TEXT, Span(0, |TEXT|));
    assert TEXT[..|TEXT|] == TEXT;
    LosesAcross(Probe(PLAIN), Alnum, TEXT, FLAG, |TEXT| - 1, |TEXT|);
  }

  // ----- Concrete answers ---------------------------------------------------------------------------------

  const PASS: Text := Lit("pass")
  const BOTH: seq<Text> := [FLAG, PASS]

  lemma PlainKeysStand()
    ensures KeysStand(PLAIN)
  {
  }

  lemma PrintedIsWhole(obj: Json)
    requires Printable(obj) && obj.Obj?
    ensures IsSpan(Dumps(obj), Span(0, |Dumps(obj)|)) && TryLoads(Dumps(obj)) == Some(obj)
  {
    ValueReadBack(obj, []);
    assert Dumps(obj) + [] == Dumps(obj);
    LoadsDumps(obj);
    WholeObject(Dumps(obj));
  }

  lemma WholeSays(text: Text, ms: seq<(Text, Json)>, labels: seq<Text>, m: Text)
    requires IsSpan(text, Span(0, |text|)) && TryLoads(text) == Some(Obj(ms))
    ensures JsonSays(PLAIN, text, labels, m) <==> ObjectSays(PLAIN, ms, labels, m)
  {
    var whole := Span(0, |text|);
    assert text[0..|text|] == text;
    if ObjectSays(PLAIN, ms, labels, m) { assert SpanSays(PLAIN, text, whole, labels, m); }
    forall span | SpanSays(PLAIN, text, span, labels, m)
      ensures ObjectSays(PLAIN, ms, labels, m)
    {
      TwoSpans(text, span, whole);
    }
  }

  /** A printed object answers with what its members say. */
  lemma PrintedObject(ms: seq<(Text, Json)>, labels: seq<Text>, l: Text)
    requires Printable(Obj(ms)) && ObjectSays(PLAIN, ms, labels, l)
    ensures Extract(PLAIN, Dumps(Obj(ms)), labels) == Some(l)
  {
    var text := Dumps(Obj(ms));
    PrintedIsWhole(Obj(ms));
    ResolveIs(PLAIN, ms, labels, l);
    WholeSays(text, ms, labels, l);
    forall m | JsonSays(PLAIN, text, labels, m)
      ensures m == l
    {
      WholeSays(text, ms, labels, m);
      ResolveIs(PLAIN, ms, labels, m);
    }
    ExtractIs(PLAIN, text, labels, l);
  }

  lemma LettersAre()
    ensures FLAG == [0x66, 0x6C, 0x61, 0x67] && PASS == [0x70, 0x61, 0x73, 0x73]
    ensures Lit("Verdict") == [0x56, 0x65, 0x72, 0x64, 0x69, 0x63, 0x74]
    ensures Lit("VERDICT") == [0x56, 0x45, 0x52, 0x44, 0x49, 0x43, 0x54]
    ensures Lit("verdict") == [0x76, 0x65, 0x72, 0x64, 0x69, 0x63, 0x74] && Lit("label") == [0x6C, 0x61, 0x62, 0x65, 0x6C]
  {
  }

  lemma KeysFold()
    ensures LowerAll(Lit("Verdict")) == LowerAll(Lit("VERDICT")) == LowerAll(Lit("verdict")) == Lit("verdict")
    ensures LowerAll(Lit("label")) == Lit("label")
  {
    LettersAre();
  }

  lemma OneLetterOff(text: Text, word: Text)
    requires |text| == |word| > 0 && Lower(text[0]) != Lower(word[0])
    ensures !Present(PLAIN, text, word)
  {
    forall i | 0 <= i <= |text| && i + |word| <= |text|
      ensures !SameAt(PLAIN, text, i, word)
    {
      assert !PLAIN.same(text[i + 0], word[0]);
    }
  }

  lemma ItselfIsPresent(word: Text)
    ensures Present(PLAIN, word, word)
  {
    assert OccursAt(PLAIN, word, 0, word);
  }

  lemma EachSaysItself()
    ensures OnlyLabel(PLAIN, FLAG, BOTH, FLAG) && OnlyLabel(PLAIN, PASS, BOTH, PASS)
  {
    LettersAre();
    ItselfIsPresent(FLAG);
    ItselfIsPresent(PASS);
    OneLetterOff(FLAG, PASS);
    OneLetterOff(PASS, FLAG);
    assert BOTH[0] == FLAG && BOTH[1] == PASS;
  }

  /** An object whose member at `last` answers `verdict` with `flag`. */
  lemma VerdictFlag(ms: seq<(Text, Json)>, first: nat, last: nat)
    requires AnswersAt(PLAIN, ms, Lit("verdict"), first, last) && ms[last].1 == Str(FLAG) && Printable(Obj(ms))
    ensures Extract(PLAIN, Dumps(Obj(ms)), BOTH) == Some(FLAG)
  {
    EachSaysItself();
    assert KeySays(PLAIN, ms, Lit("verdict"), BOTH, FLAG);
    assert SaysAt(PLAIN, ms, BOTH, FLAG, Lit("verdict"), 0);
    PrintedObject(ms, BOTH, FLAG);
  }

  lemma LabelsArePrintable()
    ensures Printable(Str(FLAG)) && Printable(Str(PASS))
  {
    LettersAre();
    PlainChars(FLAG);
    PlainChars(PASS);
  }

  lemma KeysArePrintable()
    ensures !HasSplitPair(Lit("label")) && !HasSplitPair(Lit("verdict"))
  {
    LettersAre();
    PlainChars(Lit("label"));
    PlainChars(Lit("verdict"));
  }

  lemma CapitalsArePrintable()
    ensures !HasSplitPair(Lit("Verdict")) && !HasSplitPair(Lit("VERDICT"))
  {
    LettersAre();
    PlainChars(Lit("Verdict"));
    PlainChars(Lit("VERDICT"));
  }

  /** `{"Verdict": "flag"}` is `flag`: the case of the key does not matter. */
  lemma CapitalKeyAnswers()
    ensures Extract(PLAIN, Dumps(Obj([(Lit("Verdict"), Str(FLAG))])), BOTH) == Some(FLAG)
  {
    var ms := [(Lit("Verdict"), Str(FLAG))];
    KeysFold();
    LabelsArePrintable();
    CapitalsArePrintable();
    assert Printable(Obj(ms));
    assert AnswersAt(PLAIN, ms, Lit("verdict"), 0, 0);
    VerdictFlag(ms, 0, 0);
  }

  /** `{"label": "pass", "verdict": "flag"}` is `flag`: `verdict` comes before `label`. */
  lemma VerdictBeforeLabel()
    ensures Extract(PLAIN, Dumps(Obj([(Lit("label"), Str(PASS)), (Lit("verdict"), Str(FLAG))])), BOTH) == Some(FLAG)
  {
    var ms := [(Lit("label"), Str(PASS)), (Lit("verdict"), Str(FLAG))];
    LettersAre();
    KeysFold();
    LabelsArePrintable();
    KeysArePrintable();
    assert Printable(Obj(ms));
    assert AnswersAt(PLAIN, ms, Lit("verdict"), 1, 1);
    VerdictFlag(ms, 1, 1);
  }

  /** `{"verdict": "pass", "VERDICT": "flag"}` is `flag`: of two spellings the later one answers. */
  lemma LaterSpellingAnswers()
    ensures Extract(PLAIN, Dumps(Obj([(Lit("verdict"), Str(PASS)), (Lit("VERDICT"), Str(FLAG))])), BOTH) == Some(FLAG)
  {
    var ms := [(Lit("verdict"), Str(PASS)), (Lit("VERDICT"), Str(FLAG))];
    LettersAre();
    KeysFold();
    LabelsArePrintable();
    KeysArePrintable();
    CapitalsArePrintable();
    assert Printable(Obj(ms));
    assert AnswersAt(PLAIN, ms, Lit("verdict"), 1, 1);
    VerdictFlag(ms, 1, 1);
  }

  /** `VERDICT = flag` has the value `flag`. */
  lemma CapitalLineReads()
    ensures LineValue(PLAIN, Lit("VERDICT = flag")) == Some(FLAG)
  {
    var line := Lit("VERDICT = flag");
    LettersAre();
    PlainKeysStand();
    assert line[10..] == FLAG && line[9..] == [SPACE] + FLAG;
    assert TrimmedAt(PLAIN, line[9..], FLAG, 1, 5);
    assert LabelledAt(PLAIN, line, Lit("verdict"), 0, 8);
    assert LineReadsAt(PLAIN, line, FLAG, Lit("verdict"), 0, 0, 8);
    LineValueIs(PLAIN, line, FLAG);
  }

  /** `Flag.` holds the word `flag`; `flags` and `unflag` do not. */
  lemma WholeWordsOnly()
    ensures Present(PLAIN, Lit("Flag."), FLAG) && !Present(PLAIN, Lit("flags"), FLAG) && !Present(PLAIN, Lit("unflag"), FLAG)
  {
    LettersAre();
    assert Lit("Flag.") == [0x46, 0x6C, 0x61, 0x67, 0x2E];
    assert OccursAt(PLAIN, Lit("Flag."), 0, FLAG);
    NotInPlural();
    NotInCompound();
  }

  lemma NotInPlural()
    ensures !Present(PLAIN, Lit("flags"), FLAG)
  {
    LettersAre();
    var text := Lit("flags");
    assert text == [0x66, 0x6C, 0x61, 0x67, 0x73];
    forall i | 0 <= i <= |text| ensures !OccursAt(PLAIN, text, i, FLAG) {
      if i == 0 {
        assert PLAIN.word(text[4]);
      } else if i == 1 {
        assert !PLAIN.same(text[i + 0], FLAG[0]);
      }
    }
  }

  lemma NotInCompound()
    ensures !Present(PLAIN, Lit("unflag"), FLAG)
  {
    LettersAre();
    var text := Lit("unflag");
    assert text == [0x75, 0x6E, 0x66, 0x6C, 0x61, 0x67];
    forall i | 0 <= i <= |text| ensures !OccursAt(PLAIN, text, i, FLAG) {
      if i == 2 {
        assert PLAIN.word(text[1]);
      } else if i < 2 {
        assert !PLAIN.same(text[i + 0], FLAG[0]);
      }
    }
  }
}
