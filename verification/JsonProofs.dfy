/** Two facts about the JSON text layer that the run store relies on: printing then reading gives
    the value back, and no strict prefix of a printed object reads as anything. */
module JsonProofs {
  import opened Seqs
  import opened Json

  // ----- Reading is stable under more text ---------------------------------------------------

  /** The characters that can follow a number inside a JSON text. */
  predicate IsDelimiter(c: CodePoint) { IsSpace(c) || c == COMMA || c == RBRACE || c == RBRACKET }

  predicate EndsNumber(rest: Text) { rest == [] || IsDelimiter(rest[0]) }

  lemma DropOfConcat(s: Text, u: Text, i: nat)
    requires i <= |s|
    ensures (s + u)[i..] == s[i..] + u
  {
  }

  lemma {:induction false} ExtendSkipSpace(s: Text, u: Text)
    requires SkipSpace(s) != []
    ensures SkipSpace(s + u) == SkipSpace(s) + u
    decreases |s|
  {
    if IsSpace(s[0]) {
      DropOfConcat(s, u, 1);
      ExtendSkipSpace(s[1..], u);
    }
  }

  lemma ExtendUQuad(s: Text, u: Text)
    requires ParseChars(s).Got?
    ensures UQuad(s + u) == UQuad(s)
  {
    if |s| >= 2 && s[0] == BACKSLASH && s[1] == LOWER_U {
      assert ParseChar(s).Got?;
      DropOfConcat(s, u, 2);
    } else if |s| == 1 {
      assert s[0] == QUOTE;
    }
  }

  lemma ExtendEscapedUnit(s: Text, u: Text)
    requires UQuad(s) >= 0 && ParseChar(s).Got? && ParseChars(ParseChar(s).rest).Got?
    ensures ParseChar(s + u) == Got(ParseChar(s).value, ParseChar(s).rest + u)
  {
    DropOfConcat(s, u, 2);
    DropOfConcat(s, u, 6);
    assert UQuad(s + u) == UQuad(s);
    if IsHigh(UQuad(s)) && IsLow(UQuad(s[6..])) {
      DropOfConcat(s, u, 12);
      DropOfConcat(s[6..], u, 2);
      assert UQuad(s[6..] + u) == UQuad(s[6..]);
    } else {
      ExtendUQuad(s[6..], u);
    }
  }

  lemma ExtendChar(s: Text, u: Text)
    requires ParseChar(s).Got? && ParseChars(ParseChar(s).rest).Got?
    ensures ParseChar(s + u) == Got(ParseChar(s).value, ParseChar(s).rest + u)
  {
    if s[0] != BACKSLASH {
      DropOfConcat(s, u, 1);
    } else if s[1] == LOWER_U {
      ExtendEscapedUnit(s, u);
    } else {
      DropOfConcat(s, u, 2);
    }
  }

  lemma {:induction false} ExtendChars(s: Text, u: Text)
    requires ParseChars(s).Got?
    ensures ParseChars(s + u) == Got(ParseChars(s).value, ParseChars(s).rest + u)
    decreases |s|
  {
    if s[0] == QUOTE {
      DropOfConcat(s, u, 1);
    } else {
      ExtendChar(s, u);
      ExtendChars(ParseChar(s).rest, u);
    }
  }

  lemma {:induction false} ExtendDigits(s: Text, u: Text, i: nat)
    requires i <= |s|
    requires DigitsEnd(s, i) == |s| ==> u == [] || !IsDigit(u[0])
    ensures DigitsEnd(s + u, i) == DigitsEnd(s, i)
    decreases |s| - i
  {
    if i < |s| && IsDigit(s[i]) {
      ExtendDigits(s, u, i + 1);
    } else {
      assert DigitsEnd(s, i) == i;
    }
  }

  lemma ExtendFrac(s: Text, u: Text, i: nat)
    requires i <= |s| && EndsNumber(s[FracEnd(s, i)..] + u)
    ensures FracEnd(s + u, i) == FracEnd(s, i)
  {
    var f := FracEnd(s, i);
    NextChar(s, u, f);
    if i < |s| && s[i] == 0x2E {
      ExtendDigits(s, u, i + 1);
    }
  }

  /** The same when an exponent may still follow. */
  lemma ExtendFracBeforeExp(s: Text, u: Text, i: nat)
    requires i <= |s| && FracEnd(s, i) < |s| && s[FracEnd(s, i)] != 0x2E
    ensures FracEnd(s + u, i) == FracEnd(s, i)
  {
    if i < |s| && s[i] == 0x2E {
      ExtendDigits(s, u, i + 1);
    }
  }

  lemma NextChar(s: Text, u: Text, n: nat)
    requires n <= |s|
    ensures n < |s| ==> (s[n..] + u)[0] == s[n]
    ensures n == |s| ==> s[n..] + u == u
  {
  }

  lemma ExtendExp(s: Text, u: Text, i: nat)
    requires i <= |s| && EndsNumber(s[ExpEnd(s, i)..] + u)
    ensures ExpEnd(s + u, i) == ExpEnd(s, i)
  {
    NextChar(s, u, ExpEnd(s, i));
    if i < |s| && (s[i] == 0x65 || s[i] == 0x45) {
      var k := if i + 1 < |s| && (s[i + 1] == 0x2B || s[i + 1] == MINUS) then i + 2 else i + 1;
      ExtendDigits(s, u, k);
    }
  }

  lemma ExtendInt(s: Text, u: Text, i: nat, f: nat)
    requires i <= |s| && f <= |s|
    requires DigitsEnd(s, i) <= f && (DigitsEnd(s, i) == f ==> EndsNumber(s[f..] + u) || (f < |s| && !IsDigit(s[f])))
    ensures DigitsEnd(s + u, i) == DigitsEnd(s, i)
  {
    NextChar(s, u, f);
    ExtendDigits(s, u, i);
  }

  lemma ExtendNumber(s: Text, u: Text)
    requires NumberLength(s) > 0
    requires EndsNumber(s[NumberLength(s)..] + u)
    ensures NumberLength(s + u) == NumberLength(s)
  {
    var n := NumberLength(s);
    var i := if s[0] == MINUS then 1 else 0;
    var j := if s[i] == 0x30 then i + 1 else DigitsEnd(s, i + 1);
    var f := FracEnd(s, j);
    NextChar(s, u, n);
    if s[i] != 0x30 { ExtendInt(s, u, i + 1, j); }
    if f == n { ExtendFrac(s, u, j); } else { ExtendFracBeforeExp(s, u, j); }
    ExtendExp(s, u, f);
  }

  /** A value stays as read when text is appended, unless it is a number cut short. */
  lemma {:induction false} ExtendValue(s: Text, u: Text)
    requires ParseValue(s).Got?
    requires ParseValue(s).value.Num? ==> EndsNumber(ParseValue(s).rest + u)
    ensures ParseValue(s + u) == Got(ParseValue(s).value, ParseValue(s).rest + u)
    decreases |s|, 1
  {
    DropOfConcat(s, u, 1);
    if s[0] == QUOTE {
      ExtendChars(s[1..], u);
    } else if s[0] == LBRACE {
      var body := SkipSpace(s[1..]);
      assert body != [];
      ExtendSkipSpace(s[1..], u);
      DropOfConcat(body, u, 1);
      if body[0] != RBRACE { ExtendMembers(body, u); }
    } else if s[0] == LBRACKET {
      var body := SkipSpace(s[1..]);
      assert body != [];
      ExtendSkipSpace(s[1..], u);
      DropOfConcat(body, u, 1);
      if body[0] != RBRACKET { ExtendElems(body, u); }
    } else {
      ExtendScalar(s, u);
    }
  }

  lemma NotALiteral(s: Text)
    requires s != [] && s[0] != 0x6E && s[0] != 0x74 && s[0] != 0x66
    ensures !StartsWith(s, NULL) && !StartsWith(s, TRUE) && !StartsWith(s, FALSE)
  {
    forall w: Text | w in {NULL, TRUE, FALSE} && StartsWith(s, w)
      ensures s[0] == w[0]
    {
      assert s[..|w|][0] == w[0];
    }
  }

  lemma ExtendScalar(s: Text, u: Text)
    requires ParseValue(s).Got? && s[0] != QUOTE && s[0] != LBRACE && s[0] != LBRACKET
    requires ParseValue(s).value.Num? ==> EndsNumber(ParseValue(s).rest + u)
    ensures ParseValue(s + u) == Got(ParseValue(s).value, ParseValue(s).rest + u)
  {
    var n := NumberLength(s);
    if StartsWith(s, NULL) {
      assert (s + u)[..4] == s[..4];
    } else if StartsWith(s, TRUE) {
      assert (s + u)[..4] == s[..4];
    } else if StartsWith(s, FALSE) {
      assert (s + u)[..5] == s[..5];
    } else if n > 0 {
      ExtendNumberValue(s, u);
    } else {
      ExtendConstant(s, u);
    }
  }

  lemma ExtendNumberValue(s: Text, u: Text)
    requires NumberLength(s) > 0 && EndsNumber(s[NumberLength(s)..] + u)
    ensures ParseValue(s) == Got(Num(s[..NumberLength(s)]), s[NumberLength(s)..])
    ensures ParseValue(s + u) == Got(Num(s[..NumberLength(s)]), s[NumberLength(s)..] + u)
  {
    var n := NumberLength(s);
    ExtendNumber(s, u);
    assert (s + u)[..n] == s[..n];
    DropOfConcat(s, u, n);
    assert s[0] == MINUS || IsDigit(s[0]);
    assert (s + u)[0] == s[0];
    NotALiteral(s);
    NotALiteral(s + u);
  }

  lemma ExtendConstant(s: Text, u: Text)
    requires StartsWith(s, NAN) || StartsWith(s, INFINITY) || StartsWith(s, MINUS_INFINITY)
    ensures ParseValue(s) == if StartsWith(s, NAN) then Got(Num(NAN), s[3..])
                             else if StartsWith(s, INFINITY) then Got(Num(INFINITY), s[8..])
                             else Got(Num(MINUS_INFINITY), s[9..])
    ensures ParseValue(s + u) == Got(ParseValue(s).value, ParseValue(s).rest + u)
  {
    ReadConstant(s);
    var k := if StartsWith(s, NAN) then 3 else if StartsWith(s, INFINITY) then 8 else 9;
    assert (s + u)[..k] == s[..k];
    DropOfConcat(s, u, k);
    assert s[0] == s[..k][0];
    ReadConstant(s + u);
    assert StartsWith(s + u, NAN) == StartsWith(s, NAN) by {
      if StartsWith(s + u, NAN) { assert (s + u)[..3][0] == s[0]; }
    }
    assert StartsWith(s + u, INFINITY) == StartsWith(s, INFINITY) by {
      if StartsWith(s + u, INFINITY) { assert (s + u)[..8][0] == s[0]; }
    }
  }

  lemma ReadConstant(s: Text)
    requires StartsWith(s, NAN) || StartsWith(s, INFINITY) || StartsWith(s, MINUS_INFINITY)
    ensures ParseValue(s) == if StartsWith(s, NAN) then Got(Num(NAN), s[3..])
                             else if StartsWith(s, INFINITY) then Got(Num(INFINITY), s[8..])
                             else Got(Num(MINUS_INFINITY), s[9..])
  {
    var k := if StartsWith(s, NAN) then 3 else if StartsWith(s, INFINITY) then 8 else 9;
    assert s[0] == s[..k][0] && s[1] == s[..k][1];
    assert NumberLength(s) == 0;
    NotALiteral(s);
  }

  lemma {:induction false} ExtendMembers(s: Text, u: Text)
    requires ParseMembers(s).Got?
    ensures ParseMembers(s + u) == Got(ParseMembers(s).value, ParseMembers(s).rest + u)
    decreases |s|, 0
  {
    DropOfConcat(s, u, 1);
    ExtendChars(s[1..], u);
    var afterKey := ParseChars(s[1..]).rest;
    ExtendSkipSpace(afterKey, u);
    var colon := SkipSpace(afterKey);
    DropOfConcat(colon, u, 1);
    var start := SkipSpace(colon[1..]);
    ExtendSkipSpace(colon[1..], u);
    var v := ParseValue(start);
    FollowedByDelimiter(v.rest);
    assert SkipSpace(v.rest) != [];
    assert (v.rest + u)[0] == v.rest[0];
    ExtendValue(start, u);
    ExtendSkipSpace(v.rest, u);
    var sep := SkipSpace(v.rest);
    DropOfConcat(sep, u, 1);
    if sep[0] == COMMA {
      var more := SkipSpace(sep[1..]);
      ExtendSkipSpace(sep[1..], u);
      ExtendMembers(more, u);
    }
  }

  lemma {:induction false} ExtendElems(s: Text, u: Text)
    requires ParseElems(s).Got?
    ensures ParseElems(s + u) == Got(ParseElems(s).value, ParseElems(s).rest + u)
    decreases |s|, 2
  {
    var v := ParseValue(s);
    FollowedByDelimiter(v.rest);
    assert SkipSpace(v.rest) != [];
    assert (v.rest + u)[0] == v.rest[0];
    ExtendValue(s, u);
    ExtendSkipSpace(v.rest, u);
    var sep := SkipSpace(v.rest);
    DropOfConcat(sep, u, 1);
    if sep[0] == COMMA {
      var more := SkipSpace(sep[1..]);
      ExtendSkipSpace(sep[1..], u);
      ExtendElems(more, u);
    }
  }

  lemma FollowedByDelimiter(rest: Text)
    ensures SkipSpace(rest) != [] && IsDelimiter(SkipSpace(rest)[0]) ==> rest != [] && IsDelimiter(rest[0])
  {
  }

  predicate IsStructured(v: Json) { v.Obj? || v.Arr? || v.Str? }

  predicate OpensStructured(s: Text) { s != [] && (s[0] == LBRACE || s[0] == LBRACKET || s[0] == QUOTE) }

  /** No strict prefix of a text that reads as one whole object, array or string reads as anything:
      the fact torn-line detection rests on. */
  lemma StrictPrefixNeverLoads(line: Text, k: nat)
    requires ParseValue(line).Got? && ParseValue(line).rest == [] && IsStructured(ParseValue(line).value)
    requires k < |line|
    ensures Loads(line[..k]) == Invalid
  {
    var head, tail := line[..k], line[k..];
    Rejoin(line, k);
    StructuredFromHead(line);
    if k > 0 && Loads(head) != Invalid {
      assert head[0] == line[0];
      ReadsWithinHead(head, tail);
      assert false;
    }
  }

  lemma Rejoin(s: Text, k: nat)
    requires k <= |s|
    ensures s[..k] + s[k..] == s
  {
  }

  lemma ReadsWithinHead(head: Text, tail: Text)
    requires OpensStructured(head) && Loads(head) != Invalid
    ensures ParseValue(head + tail).Got? && |ParseValue(head + tail).rest| >= |tail|
  {
    assert SkipSpace(head) == head;
    StructuredFromHead(head);
    ExtendValue(head, tail);
  }

  /** The first character decides whether a value is structured. */
  lemma StructuredFromHead(s: Text)
    requires ParseValue(s).Got?
    ensures IsStructured(ParseValue(s).value) <==> OpensStructured(s)
  {
  }

  // ----- Printing then reading ------------------------------------------------------------------

  /** What reading makes of a printed string: a high surrogate followed by a low one is joined. */
  function Joined(s: Text): Text {
    if s == [] then []
    else if |s| >= 2 && IsHigh(s[0]) && IsLow(s[1]) then
      [Combined(s[0], s[1])] + Joined(s[2..])
    else [s[0]] + Joined(s[1..])
  }

  predicate HasSplitPair(s: Text) { exists i :: 0 <= i < |s| - 1 && IsHigh(s[i]) && IsLow(s[i + 1]) }

  lemma HexDigitRoundTrip(d: int)
    requires 0 <= d < 16
    ensures HexValue(HexChar(d)) == d
  {
  }

  lemma QuadRoundTrip(c: int, rest: Text)
    requires 0 <= c < 0x1_0000
    ensures UQuad(UEscape(c) + rest) == c
    ensures (UEscape(c) + rest)[6..] == rest
  {
    var d := (c / 0x1000, c / 0x100 % 16, c / 16 % 16, c % 16);
    HexDigitRoundTrip(d.0);
    HexDigitRoundTrip(d.1);
    HexDigitRoundTrip(d.2);
    HexDigitRoundTrip(d.3);
    FourDigits(c);
    QuadOfDigits(HexChar(d.0), HexChar(d.1), HexChar(d.2), HexChar(d.3), rest);
  }

  lemma FourDigits(c: int)
    requires 0 <= c < 0x1_0000
    ensures c / 0x1000 * 0x1000 + c / 0x100 % 16 * 0x100 + c / 16 % 16 * 16 + c % 16 == c
  {
    assert c / 0x100 == c / 0x1000 * 16 + c / 0x100 % 16;
    assert c / 16 == c / 0x100 * 16 + c / 16 % 16;
  }

  lemma QuadOfDigits(a: CodePoint, b: CodePoint, c: CodePoint, d: CodePoint, rest: Text)
    requires HexValue(a) >= 0 && HexValue(b) >= 0 && HexValue(c) >= 0 && HexValue(d) >= 0
    ensures UQuad([BACKSLASH, LOWER_U, a, b, c, d] + rest)
         == HexValue(a) * 0x1000 + HexValue(b) * 0x100 + HexValue(c) * 16 + HexValue(d)
    ensures ([BACKSLASH, LOWER_U, a, b, c, d] + rest)[6..] == rest
  {
    var s := [BACKSLASH, LOWER_U, a, b, c, d] + rest;
    assert s[2..] == [a, b, c, d] + rest;
  }

  lemma NotAnEscape(c: CodePoint, rest: Text)
    ensures EncodeChar(c)[0] != QUOTE
    ensures UQuad(EncodeChar(c) + rest) ==
      (if c == QUOTE || c == BACKSLASH || c in {0x0A, 0x0D, 0x09, 0x08, 0x0C} || 0x20 <= c <= 0x7E then -1
       else if c < 0x1_0000 then c
       else 0xD800 + (c - 0x1_0000) / 0x400)
  {
    if c != QUOTE && c != BACKSLASH && c !in {0x0A, 0x0D, 0x09, 0x08, 0x0C} && !(0x20 <= c <= 0x7E) {
      if c < 0x1_0000 {
        QuadRoundTrip(c, rest);
      } else {
        var lo := UEscape(0xDC00 + (c - 0x1_0000) % 0x400);
        QuadRoundTrip(0xD800 + (c - 0x1_0000) / 0x400, lo + rest);
        assert EncodeChar(c) + rest == UEscape(0xD800 + (c - 0x1_0000) / 0x400) + (lo + rest);
      }
    }
  }

  lemma EscapeScans(hi: int, rest: Text)
    requires 0 <= hi < 0x1_0000 && !(IsHigh(hi) && IsLow(UQuad(rest)))
    ensures ParseChar(UEscape(hi) + rest) == Got(hi, rest)
  {
    QuadRoundTrip(hi, rest);
  }

  function HighOf(c: CodePoint): (hi: int)
    requires c >= 0x1_0000
    ensures IsHigh(hi)
  {
    0xD800 + (c - 0x1_0000) / 0x400
  }

  function LowOf(c: CodePoint): (lo: int)
    requires c >= 0x1_0000
    ensures IsLow(lo)
  {
    0xDC00 + (c - 0x1_0000) % 0x400
  }

  lemma SurrogatesRecombine(c: CodePoint)
    requires c >= 0x1_0000
    ensures Combined(HighOf(c), LowOf(c)) == c
  {
  }

  lemma AstralScans(c: CodePoint, rest: Text)
    requires c >= 0x1_0000
    ensures ParseChar(EncodeChar(c) + rest) == Got(c, rest)
  {
    SurrogatesRecombine(c);
    AstralEncoded(c);
    EscapePairScans(HighOf(c), LowOf(c), rest);
    ConcatThree(UEscape(HighOf(c)), UEscape(LowOf(c)), rest);
  }

  lemma AstralEncoded(c: CodePoint)
    requires c >= 0x1_0000
    ensures EncodeChar(c) == UEscape(HighOf(c)) + UEscape(LowOf(c))
  {
  }

  lemma EscapePairScans(hi: int, lo: int, rest: Text)
    requires IsHigh(hi) && IsLow(lo)
    ensures ParseChar(UEscape(hi) + (UEscape(lo) + rest)) == Got(Combined(hi, lo), rest)
  {
    var s := UEscape(hi) + (UEscape(lo) + rest);
    QuadRoundTrip(hi, UEscape(lo) + rest);
    QuadRoundTrip(lo, rest);
    assert s[12..] == s[6..][6..];
  }

  /** One printed code point reads back as itself, except before a low surrogate's escape. */
  lemma CharRoundTrip(c: CodePoint, rest: Text)
    requires IsHigh(c) ==> !IsLow(UQuad(rest))
    ensures ParseChar(EncodeChar(c) + rest) == Got(c, rest)
  {
    var s := EncodeChar(c) + rest;
    if c >= 0x1_0000 {
      AstralScans(c, rest);
    } else if |EncodeChar(c)| == 1 {
      assert s[1..] == rest;
    } else if |EncodeChar(c)| == 2 {
      assert s[2..] == rest;
    } else {
      EscapeScans(c, rest);
    }
  }

  /** What follows a printed high surrogate is not a low one unless the string says so. */
  lemma NoLowAhead(s: Text, close: Text)
    requires s == [] || !IsLow(s[0])
    requires close != [] && close[0] == QUOTE
    ensures !IsLow(UQuad(EncodeChars(s) + close))
  {
    if s == [] {
      assert EncodeChars(s) + close == close;
    } else {
      var more := EncodeChars(s[1..]) + close;
      assert EncodeChars(s) + close == EncodeChar(s[0]) + more;
      NotAnEscape(s[0], more);
    }
  }

  lemma CharsStep(text: Text, c: CodePoint, more: Text)
    requires text != [] && text[0] != QUOTE && ParseChar(text) == Got(c, more)
    requires ParseChars(more).Got?
    ensures ParseChars(text) == Got([c] + ParseChars(more).value, ParseChars(more).rest)
  {
  }

  lemma HeadNotQuote(c: CodePoint, more: Text)
    ensures (EncodeChar(c) + more)[0] != QUOTE
  {
    NotAnEscape(c, more);
  }

  lemma EncodeConcat(s: Text, close: Text)
    requires s != []
    ensures EncodeChars(s) + close == EncodeChar(s[0]) + (EncodeChars(s[1..]) + close)
  {
  }

  lemma SurrogatesEscaped(hi: CodePoint, lo: CodePoint, more: Text)
    requires IsHigh(hi) && IsLow(lo)
    ensures ParseChar(EncodeChar(hi) + (EncodeChar(lo) + more)) == Got(Combined(hi, lo), more)
  {
    assert EncodeChar(hi) == UEscape(hi) && EncodeChar(lo) == UEscape(lo);
    EscapePairScans(hi, lo, more);
  }

  predicate ReadsBack(s: Text, close: Text) {
    close != [] && close[0] == QUOTE && ParseChars(EncodeChars(s) + close) == Got(Joined(s), close[1..])
  }

  lemma PairConcat(s: Text, close: Text)
    requires |s| >= 2
    ensures EncodeChars(s) + close == EncodeChar(s[0]) + (EncodeChar(s[1]) + (EncodeChars(s[2..]) + close))
  {
    EncodeConcat(s, close);
    assert s[1..][1..] == s[2..];
    EncodeConcat(s[1..], close);
  }

  lemma PairReadsBack(s: Text, close: Text)
    requires |s| >= 2 && IsHigh(s[0]) && IsLow(s[1]) && ReadsBack(s[2..], close)
    ensures ReadsBack(s, close)
  {
    var more := EncodeChars(s[2..]) + close;
    var text := EncodeChar(s[0]) + (EncodeChar(s[1]) + more);
    PairConcat(s, close);
    HeadNotQuote(s[0], EncodeChar(s[1]) + more);
    PairStep(s[0], s[1], text, more);
  }

  lemma PairStep(hi: CodePoint, lo: CodePoint, text: Text, more: Text)
    requires IsHigh(hi) && IsLow(lo) && text == EncodeChar(hi) + (EncodeChar(lo) + more)
    requires text[0] != QUOTE && ParseChars(more).Got?
    ensures ParseChars(text) ==
      Got([Combined(hi, lo)] + ParseChars(more).value, ParseChars(more).rest)
  {
    SurrogatesEscaped(hi, lo, more);
    CharsStep(text, Combined(hi, lo), more);
  }

  lemma SingleReadsBack(s: Text, close: Text)
    requires s != [] && !(|s| >= 2 && IsHigh(s[0]) && IsLow(s[1])) && ReadsBack(s[1..], close)
    ensures ReadsBack(s, close)
  {
    var more := EncodeChars(s[1..]) + close;
    EncodeConcat(s, close);
    HeadNotQuote(s[0], more);
    if IsHigh(s[0]) { NoLowAhead(s[1..], close); }
    CharRoundTrip(s[0], more);
    CharsStep(EncodeChars(s) + close, s[0], more);
  }

  lemma {:induction false} AllReadsBack(s: Text, close: Text)
    requires close != [] && close[0] == QUOTE
    ensures ReadsBack(s, close)
    decreases |s|
  {
    if s == [] {
      assert EncodeChars(s) + close == close;
    } else if |s| >= 2 && IsHigh(s[0]) && IsLow(s[1]) {
      AllReadsBack(s[2..], close);
      PairReadsBack(s, close);
    } else {
      AllReadsBack(s[1..], close);
      SingleReadsBack(s, close);
    }
  }

  /** Reading a printed string gives its joined form, whatever the string. */
  lemma CharsReadBack(s: Text, rest: Text)
    ensures ParseChars(EncodeChars(s) + ([QUOTE] + rest)) == Got(Joined(s), rest)
  {
    AllReadsBack(s, [QUOTE] + rest);
    assert ([QUOTE] + rest)[1..] == rest;
  }

  /** A Python string survives print and read exactly when it holds no surrogate pair written as two
      code points. */
  lemma {:induction false} JoinedIsIdentity(s: Text)
    ensures Joined(s) == s <==> !HasSplitPair(s)
    ensures |Joined(s)| <= |s|
    decreases |s|
  {
    if s != [] {
      if |s| >= 2 && IsHigh(s[0]) && IsLow(s[1]) {
        JoinedIsIdentity(s[2..]);
      } else {
        JoinedIsIdentity(s[1..]);
        assert forall i :: 0 <= i < |s[1..]| ==> s[1..][i] == s[i + 1];
        if HasSplitPair(s) {
          var i :| 0 <= i < |s| - 1 && IsHigh(s[i]) && IsLow(s[i + 1]);
          assert i > 0 && s[1..][i - 1] == s[i] && s[1..][i] == s[i + 1];
        }
        assert Joined(s)[1..] == Joined(s[1..]);
      }
    }
  }

  predicate IsNumberToken(t: Text) {
    t == NAN || t == INFINITY || t == MINUS_INFINITY || (|t| > 0 && NumberLength(t) == |t|)
  }

  /** The values `json.dumps` can be given here: real number texts and unsplit strings. */
  predicate Printable(v: Json) {
    match v
    case Num(t) => IsNumberToken(t)
    case Str(s) => !HasSplitPair(s)
    case Arr(es) => forall e :: e in es ==> Printable(e)
    case Obj(ms) => forall m :: m in ms ==> !HasSplitPair(m.0) && Printable(m.1)
    case _ => true
  }

  lemma StringReadBack(s: Text, rest: Text)
    requires !HasSplitPair(s)
    ensures ParseChars((DumpString(s) + rest)[1..]) == Got(s, rest)
  {
    assert (DumpString(s) + rest)[1..] == EncodeChars(s) + ([QUOTE] + rest);
    CharsReadBack(s, rest);
    JoinedIsIdentity(s);
  }

  /** The first character of a printed value: never white space, never a closing bracket. */
  lemma DumpsHead(v: Json)
    requires Printable(v)
    ensures Dumps(v) != [] && !IsSpace(Dumps(v)[0]) && Dumps(v)[0] != RBRACKET && Dumps(v)[0] != RBRACE
  {
  }

  lemma NumberReadBack(t: Text, rest: Text)
    requires IsNumberToken(t) && EndsNumber(rest)
    ensures ParseValue(t + rest) == Got(Num(t), rest)
  {
    if NumberLength(t) == |t| && |t| > 0 {
      assert t[|t|..] + rest == rest;
      assert t[..|t|] == t;
      assert t[0] == MINUS || IsDigit(t[0]);
      NotALiteral(t);
      assert ParseValue(t) == Got(Num(t), []);
    } else {
      assert t[..|t|] == t;
      ReadConstant(t);
    }
    ExtendValue(t, rest);
    assert [] + rest == rest;
  }

  lemma SkipSeparator(more: Text)
    requires more != [] && !IsSpace(more[0])
    ensures var after := [COMMA, SPACE] + more; SkipSpace(after) == after && SkipSpace(after[1..]) == more
  {
    var after := [COMMA, SPACE] + more;
    assert after[1..] == [SPACE] + more && ([SPACE] + more)[1..] == more;
  }

  lemma OpenBracket(open: CodePoint, body: Text, close: CodePoint, rest: Text)
    ensures ([open] + body + [close] + rest)[0] == open
    ensures ([open] + body + [close] + rest)[1..] == body + ([close] + rest)
  {
  }

  /** Printing a value then reading it gives it back, with the text after it untouched. */
  lemma {:induction false} ValueReadBack(v: Json, rest: Text)
    requires Printable(v)
    requires v.Num? ==> EndsNumber(rest)
    ensures ParseValue(Dumps(v) + rest) == Got(v, rest)
    decreases v, 0
  {
    match v
    case Null => LiteralReadsBack(v, rest);
    case Bool(_) => LiteralReadsBack(v, rest);
    case Num(t) => NumberReadBack(t, rest);
    case Str(s) => StringReadBack(s, rest);
    case Arr(es) =>
      if es != [] { ElemsReadBack(es, rest); }
      ArrayReadsBack(es, rest);
    case Obj(ms) =>
      if ms != [] { MembersReadBack(ms, rest); }
      ObjectReadsBack(ms, rest);
  }

  lemma LiteralReadsBack(v: Json, rest: Text)
    requires v.Null? || v.Bool?
    ensures ParseValue(Dumps(v) + rest) == Got(v, rest)
  {
    var text, n := Dumps(v) + rest, |Dumps(v)|;
    assert text[..n] == Dumps(v) && text[n..] == rest;
  }

  lemma ArrayReadsBack(es: seq<Json>, rest: Text)
    requires forall e :: e in es ==> Printable(e)
    requires es != [] ==> ParseElems(DumpElems(es) + ([RBRACKET] + rest)) == Got(es, rest)
    ensures ParseValue(Dumps(Arr(es)) + rest) == Got(Arr(es), rest)
  {
    OpenBracket(LBRACKET, DumpElems(es), RBRACKET, rest);
    var body := DumpElems(es) + ([RBRACKET] + rest);
    if es == [] {
      assert body == [RBRACKET] + rest && body[1..] == rest;
    } else {
      ElemsHead(es);
      assert body[0] == DumpElems(es)[0];
    }
  }

  lemma ObjectReadsBack(ms: seq<(Text, Json)>, rest: Text)
    requires ms != [] ==> ParseMembers(DumpMembers(ms) + ([RBRACE] + rest)) == Got(ms, rest)
    ensures ParseValue(Dumps(Obj(ms)) + rest) == Got(Obj(ms), rest)
  {
    OpenBracket(LBRACE, DumpMembers(ms), RBRACE, rest);
    var body := DumpMembers(ms) + ([RBRACE] + rest);
    if ms == [] {
      assert body == [RBRACE] + rest && body[1..] == rest;
    } else {
      MembersHead(ms);
    }
  }

  lemma ElemsHead(es: seq<Json>)
    requires es != [] && forall e :: e in es ==> Printable(e)
    ensures DumpElems(es) != [] && !IsSpace(DumpElems(es)[0]) && DumpElems(es)[0] != RBRACKET
  {
    DumpsHead(es[0]);
  }

  lemma {:induction false} ElemsReadBack(es: seq<Json>, rest: Text)
    requires es != [] && forall e :: e in es ==> Printable(e)
    ensures ParseElems(DumpElems(es) + ([RBRACKET] + rest)) == Got(es, rest)
    decreases es, 1
  {
    var close := [RBRACKET] + rest;
    if |es| == 1 {
      ValueReadBack(es[0], close);
      LastElem(es[0], Dumps(es[0]) + close, rest);
      assert es == [es[0]];
    } else {
      var more := DumpElems(es[1..]) + close;
      ValueReadBack(es[0], [COMMA, SPACE] + more);
      ElemsReadBack(es[1..], rest);
      ElemsHead(es[1..]);
      SkipSeparator(more);
      NextElem(es[0], Dumps(es[0]) + ([COMMA, SPACE] + more), more, es[1..], rest);
      ElemsConcat(es, close);
      assert [es[0]] + es[1..] == es;
    }
  }

  lemma ElemsConcat(es: seq<Json>, close: Text)
    requires |es| > 1
    ensures DumpElems(es) + close == Dumps(es[0]) + ([COMMA, SPACE] + (DumpElems(es[1..]) + close))
  {
    var first, more := Dumps(es[0]), DumpElems(es[1..]);
    assert DumpElems(es) == first + [COMMA, SPACE] + more;
    ConcatFour(first, [COMMA, SPACE], more, close);
  }

  lemma ConcatFour(a: Text, b: Text, c: Text, d: Text)
    ensures a + b + c + d == a + (b + (c + d))
  {
  }

  lemma LastElem(v: Json, text: Text, rest: Text)
    requires ParseValue(text) == Got(v, [RBRACKET] + rest)
    ensures ParseElems(text) == Got([v], rest)
  {
    assert ([RBRACKET] + rest)[1..] == rest;
  }

  lemma NextElem(v: Json, text: Text, more: Text, es: seq<Json>, rest: Text)
    requires ParseValue(text) == Got(v, [COMMA, SPACE] + more) && ParseElems(more) == Got(es, rest)
    requires SkipSpace(([COMMA, SPACE] + more)[1..]) == more
    ensures ParseElems(text) == Got([v] + es, rest)
  {
    var sep := [COMMA, SPACE] + more;
    assert SkipSpace(sep) == sep && sep[0] == COMMA;
  }

  /** What the member parser finds at the head of `text`: a key, then a value. */
  predicate MemberAt(text: Text, m: (Text, Json), after: Text) {
    && text != [] && text[0] == QUOTE
    && ParseChars(text[1..]).Got?
    && ParseChars(text[1..]).value == m.0
    && var colon := SkipSpace(ParseChars(text[1..]).rest);
    && colon != [] && colon[0] == COLON
    && ParseValue(SkipSpace(colon[1..])) == Got(m.1, after)
  }

  lemma SkipColon(value: Text)
    requires value != [] && !IsSpace(value[0])
    ensures var colon := [COLON, SPACE] + value; SkipSpace(colon) == colon && SkipSpace(colon[1..]) == value
  {
    var colon := [COLON, SPACE] + value;
    assert colon[1..] == [SPACE] + value && ([SPACE] + value)[1..] == value;
  }

  lemma {:induction false} MemberReadBack(m: (Text, Json), after: Text)
    requires !HasSplitPair(m.0) && Printable(m.1)
    requires EndsNumber(after)
    ensures MemberAt(DumpMember(m) + after, m, after)
    decreases m, 1
  {
    var value := Dumps(m.1) + after;
    var colon := [COLON, SPACE] + value;
    ConcatAssoc(DumpString(m.0), [COLON, SPACE], Dumps(m.1), after);
    StringReadBack(m.0, colon);
    DumpsHead(m.1);
    assert value[0] == Dumps(m.1)[0];
    SkipColon(value);
    ValueReadBack(m.1, after);
  }

  lemma {:induction false} MembersReadBack(ms: seq<(Text, Json)>, rest: Text)
    requires ms != [] && forall m :: m in ms ==> !HasSplitPair(m.0) && Printable(m.1)
    ensures ParseMembers(DumpMembers(ms) + ([RBRACE] + rest)) == Got(ms, rest)
    decreases ms, 2
  {
    var close := [RBRACE] + rest;
    if |ms| == 1 {
      MembersStep(ms[0], close);
      assert close[1..] == rest && ms == [ms[0]];
    } else {
      var more := DumpMembers(ms[1..]) + close;
      var after := [COMMA, SPACE] + more;
      DumpMembersConcat(ms, close);
      SkipSeparator(more);
      MembersReadBack(ms[1..], rest);
      MembersStep(ms[0], after);
      assert [ms[0]] + ms[1..] == ms;
    }
  }

  lemma DumpMembersConcat(ms: seq<(Text, Json)>, close: Text)
    requires |ms| > 1
    ensures DumpMembers(ms) + close == DumpMember(ms[0]) + ([COMMA, SPACE] + (DumpMembers(ms[1..]) + close))
    ensures DumpMembers(ms[1..]) != [] && DumpMembers(ms[1..])[0] == QUOTE
  {
    ConcatAssoc(DumpMember(ms[0]), [COMMA, SPACE], DumpMembers(ms[1..]), close);
    MembersHead(ms[1..]);
  }

  lemma MembersHead(ms: seq<(Text, Json)>)
    requires ms != []
    ensures DumpMembers(ms) != [] && DumpMembers(ms)[0] == QUOTE
  {
    assert DumpMember(ms[0])[0] == QUOTE;
  }

  lemma ConcatAssoc(a: Text, b: Text, c: Text, d: Text)
    ensures a + b + c + d == a + (b + (c + d))
  {
  }

  lemma {:induction false} MembersStep(m: (Text, Json), after: Text)
    requires !HasSplitPair(m.0) && Printable(m.1)
    requires after != [] && (after[0] == RBRACE || after[0] == COMMA)
    requires after[0] == COMMA ==> ParseMembers(SkipSpace(after[1..])).Got?
    ensures ParseMembers(DumpMember(m) + after)
         == if after[0] == RBRACE then Got([m], after[1..])
            else Got([m] + ParseMembers(SkipSpace(after[1..])).value, ParseMembers(SkipSpace(after[1..])).rest)
    decreases m, 2
  {
    MemberReadBack(m, after);
    assert m == (m.0, m.1);
  }

  /** `json.loads(json.dumps(v)) == v`. */
  lemma LoadsDumps(v: Json)
    requires Printable(v)
    ensures Loads(Dumps(v)) == Value(v)
  {
    DumpsHead(v);
    ValueReadBack(v, []);
    assert Dumps(v) + [] == Dumps(v);
  }

  // ----- A printed text is one line of printable ASCII -----------------------------------------

  predicate OneLineAscii(t: Text) { forall i :: 0 <= i < |t| ==> 0x20 <= t[i] <= 0x7E }

  lemma EncodedCharIsAscii(c: CodePoint)
    ensures OneLineAscii(EncodeChar(c))
  {
  }

  lemma {:induction false} EncodedCharsAreAscii(s: Text)
    ensures OneLineAscii(EncodeChars(s))
    decreases |s|
  {
    if s != [] {
      EncodedCharIsAscii(s[0]);
      EncodedCharsAreAscii(s[1..]);
    }
  }

  lemma {:induction false} DigitsAreAscii(s: Text, i: nat)
    requires i <= |s|
    ensures forall k :: i <= k < DigitsEnd(s, i) ==> IsDigit(s[k])
    decreases |s| - i
  {
    if i < |s| && IsDigit(s[i]) { DigitsAreAscii(s, i + 1); }
  }

  lemma NumberIsAscii(t: Text)
    requires IsNumberToken(t)
    ensures OneLineAscii(t)
  {
    if NumberLength(t) == |t| && |t| > 0 {
      var i := if t[0] == MINUS then 1 else 0;
      var j := if t[i] == 0x30 then i + 1 else DigitsEnd(t, i + 1);
      if t[i] != 0x30 { DigitsAreAscii(t, i + 1); }
      assert OneLineAscii(t[..j]);
      FracIsAscii(t, j);
      ExpIsAscii(t, FracEnd(t, j));
      assert t[..|t|] == t;
    }
  }

  lemma FracIsAscii(t: Text, j: nat)
    requires j <= |t| && OneLineAscii(t[..j])
    ensures OneLineAscii(t[..FracEnd(t, j)])
  {
    assert forall k :: 0 <= k < j ==> t[..j][k] == t[k];
    if j < |t| { DigitsAreAscii(t, j + 1); }
  }

  lemma ExpIsAscii(t: Text, j: nat)
    requires j <= |t| && OneLineAscii(t[..j])
    ensures OneLineAscii(t[..ExpEnd(t, j)])
  {
    assert forall k :: 0 <= k < j ==> t[..j][k] == t[k];
    if ExpEnd(t, j) > j {
      var k := if j + 1 < |t| && (t[j + 1] == 0x2B || t[j + 1] == MINUS) then j + 2 else j + 1;
      DigitsAreAscii(t, k);
    }
  }

  /** `ensure_ascii=True` output never holds a raw line break, a control or a non-ASCII character. */
  lemma {:induction false} DumpsIsOneLine(v: Json)
    requires Printable(v)
    ensures OneLineAscii(Dumps(v))
    decreases v, 0
  {
    match v
    case Null =>
    case Bool(_) =>
    case Num(t) => NumberIsAscii(t);
    case Str(s) => EncodedCharsAreAscii(s);
    case Arr(es) => ElemsAreOneLine(es);
    case Obj(ms) => MembersAreOneLine(ms);
  }

  lemma {:induction false} ElemsAreOneLine(es: seq<Json>)
    requires forall e :: e in es ==> Printable(e)
    ensures OneLineAscii(DumpElems(es))
    decreases es, 1
  {
    if es != [] {
      DumpsIsOneLine(es[0]);
      if |es| > 1 { ElemsAreOneLine(es[1..]); }
    }
  }

  lemma {:induction false} MembersAreOneLine(ms: seq<(Text, Json)>)
    requires forall m :: m in ms ==> !HasSplitPair(m.0) && Printable(m.1)
    ensures OneLineAscii(DumpMembers(ms))
    decreases ms, 2
  {
    if ms != [] {
      MemberIsOneLine(ms[0]);
      if |ms| > 1 { MembersAreOneLine(ms[1..]); }
    }
  }

  lemma {:induction false} MemberIsOneLine(m: (Text, Json))
    requires !HasSplitPair(m.0) && Printable(m.1)
    ensures OneLineAscii(DumpMember(m))
    decreases m, 1
  {
    EncodedCharsAreAscii(m.0);
    DumpsIsOneLine(m.1);
  }

  // ----- Dictionaries -----------------------------------------------------------------------------

  lemma {:induction false} LookupFinds(ms: seq<(Text, Json)>, i: nat)
    requires i < |ms| && forall j :: i < j < |ms| ==> ms[j].0 != ms[i].0
    ensures Lookup(ms, ms[i].0) == Some(ms[i].1)
    decreases |ms|
  {
    if i < |ms| - 1 {
      assert ms[..|ms| - 1][i] == ms[i];
      LookupFinds(ms[..|ms| - 1], i);
    }
  }

  // ----- Reading never lengthens a string -----------------------------------------------------------

  lemma {:induction false} CharsAreShort(s: Text)
    requires ParseChars(s).Got?
    ensures |ParseChars(s).value| + |ParseChars(s).rest| < |s|
    decreases |s|
  {
    if s[0] != QUOTE { CharsAreShort(ParseChar(s).rest); }
  }

  lemma {:induction false} MembersAreShort(s: Text)
    requires ParseMembers(s).Got?
    ensures forall m :: m in ParseMembers(s).value && m.1.Str? ==> |m.1.s| + 1 < |s|
    decreases |s|
  {
    var start := SkipSpace(SkipSpace(ParseChars(s[1..]).rest)[1..]);
    var v := ParseValue(start);
    if v.value.Str? { CharsAreShort(start[1..]); }
    var sep := SkipSpace(v.rest);
    if sep[0] == COMMA { MembersAreShort(SkipSpace(sep[1..])); }
  }

  /** A string inside an object is shorter than the object's text. */
  lemma LoadedStringsAreShort(t: Text, ms: seq<(Text, Json)>)
    requires Loads(t) == Value(Obj(ms))
    ensures forall m :: m in ms && m.1.Str? ==> |m.1.s| + 1 < |t|
  {
    var s := SkipSpace(t);
    StructuredFromHead(s);
    if s[0] == LBRACE {
      var body := SkipSpace(s[1..]);
      if body[0] == QUOTE { MembersAreShort(body); }
    }
  }

  // ----- Printed forms, character by character -------------------------------------------------------

  lemma OneChar(c: CodePoint)
    ensures EncodeChars([c]) == EncodeChar(c)
  {
    var none: Text := [];
    assert [c][1..] == none && EncodeChars(none) == none;
    assert EncodeChar(c) + none == EncodeChar(c);
  }

  /** Short escapes, a lower-case hexadecimal escape, and a surrogate pair. */
  lemma PrintedCharacters()
    ensures EncodeChars([0x22]) == Lit("\\\"") && EncodeChars([0x5C]) == Lit("\\\\") && EncodeChars([0x0A]) == Lit("\\n")
    ensures EncodeChars([0x7F]) == Lit("\\u007f") && EncodeChars([0xE9]) == Lit("\\u00e9")
    ensures EncodeChars([0x1F600]) == Lit("\\ud83d\\ude00")
  {
    OneChar(0x22);
    OneChar(0x5C);
    OneChar(0x0A);
    OneChar(0x7F);
    OneChar(0xE9);
    OneChar(0x1F600);
  }

  lemma PrintedWords()
    ensures Dumps(Null) == Lit("null") && Dumps(Bool(true)) == Lit("true") && Dumps(Bool(false)) == Lit("false")
  {
  }

  /** Elements are printed with a space after every comma, and members with one after the colon too. */
  lemma PrintedElements(a: Json, b: Json)
    ensures Dumps(Arr([a, b])) == [0x5B] + (Dumps(a) + [0x2C, 0x20] + Dumps(b)) + [0x5D]
  {
    assert [a, b][1..] == [b] && DumpElems([b]) == Dumps(b);
  }

  lemma PrintedMembers(a: (Text, Json), b: (Text, Json))
    ensures Dumps(Obj([a, b])) == [0x7B] + (DumpMember(a) + [0x2C, 0x20] + DumpMember(b)) + [0x7D]
  {
    assert [a, b][1..] == [b] && DumpMembers([b]) == DumpMember(b);
  }

  lemma PrintedName(c: CodePoint, v: Json)
    requires 0x61 <= c <= 0x7A
    ensures DumpMember(([c], v)) == [0x22, c, 0x22, 0x3A, 0x20] + Dumps(v)
  {
    OneChar(c);
  }
}
