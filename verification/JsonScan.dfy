/** The brace scanner agrees with the JSON grammar: wherever it stands outside every string and
    object, a well-formed object is one span, whatever is nested or quoted inside it. */
module JsonScan {
  import opened Seqs
  import opened Json
  import opened JsonProofs
  import opened Verdict

  function DepthFrom(from: Scan, s: Text, i: nat): nat
    requires i <= |s|
  {
    ScanTo(from, s, i).depth
  }

  /** Scanning `s` up to its suffix `rest` goes from `from` to `to`, never below depth `low` before
      the end. */
  ghost predicate Piece(from: Scan, s: Text, rest: Text, to: Scan, low: nat) {
    && |rest| <= |s| && rest == s[|s| - |rest|..]
    && ScanTo(from, s, |s| - |rest|) == to
    && forall i :: 0 <= i < |s| - |rest| ==> DepthFrom(from, s, i) >= low
  }

  lemma {:induction false} ScanSuffix(from: Scan, s: Text, n: nat, i: nat)
    requires n + i <= |s|
    ensures ScanTo(from, s, n + i) == ScanTo(ScanTo(from, s, n), s[n..], i)
    decreases i
  {
    if i > 0 {
      ScanSuffix(from, s, n, i - 1);
      assert s[n..][i - 1] == s[n + i - 1];
    }
  }

  lemma Join(from: Scan, s: Text, to: Scan, mid: Text, end: Scan, rest: Text, low: nat)
    requires Piece(from, s, mid, to, low) && Piece(to, mid, rest, end, low)
    ensures Piece(from, s, rest, end, low)
  {
    var n := |s| - |mid|;
    ScanSuffix(from, s, n, |mid| - |rest|);
    forall i | n <= i < |s| - |rest|
      ensures DepthFrom(from, s, i) >= low
    {
      ScanSuffix(from, s, n, i - n);
      assert DepthFrom(to, mid, i - n) >= low;
    }
  }

  lemma One(from: Scan, s: Text, low: nat)
    requires s != [] && from.depth >= low
    ensures Piece(from, s, s[1..], ScanChar(from, s[0]), low)
  {
    assert ScanTo(from, s, 0) == from;
    assert ScanTo(from, s, 1) == ScanChar(from, s[0]);
  }

  lemma NothingScans(from: Scan, s: Text, low: nat)
    ensures Piece(from, s, s, from, low)
  {
    assert s[0..] == s;
  }

  /** Characters that leave the state alone, whether or not the scanner is inside a string. */
  predicate Plain(c: CodePoint) { c != QUOTE && c != BACKSLASH && c != LBRACE && c != RBRACE }

  lemma {:induction false} PlainRun(from: Scan, s: Text, n: nat, low: nat)
    requires n <= |s| && !from.escape && from.depth >= low
    requires forall i :: 0 <= i < n ==> Plain(s[i])
    ensures Piece(from, s, s[n..], from, low)
    decreases n
  {
    if n == 0 {
      NothingScans(from, s, low);
    } else {
      One(from, s, low);
      assert ScanChar(from, s[0]) == from;
      PlainRun(from, s[1..], n - 1, low);
      assert s[1..][n - 1..] == s[n..];
      Join(from, s, from, s[1..], from, s[n..], low);
    }
  }

  function Outside(d: nat): Scan { Scan(d, false, false) }

  function InString(d: nat): Scan { Scan(d, true, false) }

  lemma {:induction false} SpacePiece(s: Text, d: nat, low: nat)
    requires d >= low
    ensures Piece(Outside(d), s, SkipSpace(s), Outside(d), low)
    decreases |s|
  {
    if s != [] && IsSpace(s[0]) {
      SpacePiece(s[1..], d, low);
      One(Outside(d), s, low);
      Join(Outside(d), s, Outside(d), s[1..], Outside(d), SkipSpace(s), low);
    } else {
      NothingScans(Outside(d), s, low);
    }
  }

  lemma EscapePair(s: Text, d: nat, low: nat)
    requires |s| >= 2 && s[0] == BACKSLASH && d >= low
    ensures Piece(InString(d), s, s[2..], InString(d), low)
  {
    One(InString(d), s, low);
    var mid := Scan(d, true, true);
    One(mid, s[1..], low);
    assert s[1..][1..] == s[2..];
    Join(InString(d), s, mid, s[1..], InString(d), s[2..], low);
  }

  lemma QuadPiece(s: Text, d: nat, low: nat)
    requires UQuad(s) >= 0 && d >= low
    ensures Piece(InString(d), s, s[6..], InString(d), low)
  {
    EscapePair(s, d, low);
    var hex := s[2..];
    assert Plain(hex[0]) && Plain(hex[1]) && Plain(hex[2]) && Plain(hex[3]);
    PlainRun(InString(d), hex, 4, low);
    assert hex[4..] == s[6..];
    Join(InString(d), s, InString(d), hex, InString(d), s[6..], low);
  }

  lemma CharPiece(s: Text, d: nat, low: nat)
    requires ParseChar(s).Got? && d >= low
    ensures Piece(InString(d), s, ParseChar(s).rest, InString(d), low)
  {
    if s[0] != BACKSLASH {
      One(InString(d), s, low);
    } else if s[1] == LOWER_U {
      QuadPiece(s, d, low);
      if IsHigh(UQuad(s)) && IsLow(UQuad(s[6..])) {
        QuadPiece(s[6..], d, low);
        assert s[6..][6..] == s[12..];
        Join(InString(d), s, InString(d), s[6..], InString(d), s[12..], low);
      }
    } else {
      EscapePair(s, d, low);
    }
  }

  /** A string literal, from after its opening quote. */
  lemma {:induction false} CharsPiece(s: Text, d: nat, low: nat)
    requires ParseChars(s).Got? && d >= low
    ensures Piece(InString(d), s, ParseChars(s).rest, Outside(d), low)
    decreases |s|
  {
    if s[0] == QUOTE {
      One(InString(d), s, low);
    } else {
      var rest := ParseChar(s).rest;
      CharPiece(s, d, low);
      CharsPiece(rest, d, low);
      Join(InString(d), s, InString(d), rest, Outside(d), ParseChars(s).rest, low);
    }
  }

  lemma StringPiece(s: Text, d: nat, low: nat)
    requires s != [] && s[0] == QUOTE && ParseChars(s[1..]).Got? && d >= low
    ensures Piece(Outside(d), s, ParseChars(s[1..]).rest, Outside(d), low)
  {
    One(Outside(d), s, low);
    CharsPiece(s[1..], d, low);
    Join(Outside(d), s, InString(d), s[1..], Outside(d), ParseChars(s[1..]).rest, low);
  }

  predicate NumberChar(c: CodePoint) { IsDigit(c) || c == MINUS || c == 0x2B || c == 0x2E || c == 0x65 || c == 0x45 }

  lemma NumberIsPlain(s: Text)
    ensures forall i :: 0 <= i < NumberLength(s) ==> NumberChar(s[i])
  {
    if NumberLength(s) > 0 {
      var i := if s[0] == MINUS then 1 else 0;
      var j := if s[i] == 0x30 then i + 1 else DigitsEnd(s, i + 1);
      if s[i] != 0x30 { DigitsAreAscii(s, i + 1); }
      FracIsPlain(s, j);
      ExpIsPlain(s, FracEnd(s, j));
    }
  }

  lemma FracIsPlain(s: Text, j: nat)
    requires j <= |s|
    ensures forall i :: j <= i < FracEnd(s, j) ==> NumberChar(s[i])
  {
    if j < |s| { DigitsAreAscii(s, j + 1); }
  }

  lemma ExpIsPlain(s: Text, j: nat)
    requires j <= |s|
    ensures forall i :: j <= i < ExpEnd(s, j) ==> NumberChar(s[i])
  {
    if ExpEnd(s, j) > j {
      DigitsAreAscii(s, if j + 1 < |s| && (s[j + 1] == 0x2B || s[j + 1] == MINUS) then j + 2 else j + 1);
    }
  }

  lemma WordPiece(s: Text, word: Text, d: nat, low: nat)
    requires StartsWith(s, word) && d >= low
    requires forall i :: 0 <= i < |word| ==> Plain(word[i])
    ensures Piece(Outside(d), s, s[|word|..], Outside(d), low)
  {
    forall i | 0 <= i < |word|
      ensures Plain(s[i])
    {
      assert s[..|word|][i] == s[i];
    }
    PlainRun(Outside(d), s, |word|, low);
  }

  lemma ScalarPiece(s: Text, d: nat, low: nat)
    requires ParseValue(s).Got? && !OpensStructured(s) && d >= low
    ensures Piece(Outside(d), s, ParseValue(s).rest, Outside(d), low)
  {
    if StartsWith(s, NULL) { WordPiece(s, NULL, d, low); }
    else if StartsWith(s, TRUE) { WordPiece(s, TRUE, d, low); }
    else if StartsWith(s, FALSE) { WordPiece(s, FALSE, d, low); }
    else if NumberLength(s) > 0 {
      NumberIsPlain(s);
      PlainRun(Outside(d), s, NumberLength(s), low);
    }
    else if StartsWith(s, NAN) { WordPiece(s, NAN, d, low); }
    else if StartsWith(s, INFINITY) { WordPiece(s, INFINITY, d, low); }
    else { WordPiece(s, MINUS_INFINITY, d, low); }
  }

  /** A value leaves the scanner where it was and never goes below that depth. */
  lemma {:induction false} ValuePiece(s: Text, d: nat, low: nat)
    requires ParseValue(s).Got? && d >= low
    ensures Piece(Outside(d), s, ParseValue(s).rest, Outside(d), low)
    decreases |s|, 1
  {
    var rest := ParseValue(s).rest;
    if s[0] == QUOTE {
      StringPiece(s, d, low);
    } else if s[0] == LBRACE {
      ObjectBody(s, d, low);
      One(Outside(d), s, low);
      Join(Outside(d), s, Outside(d + 1), s[1..], Outside(d), rest, low);
    } else if s[0] == LBRACKET {
      var body := SkipSpace(s[1..]);
      One(Outside(d), s, low);
      SpacePiece(s[1..], d, low);
      Join(Outside(d), s, Outside(d), s[1..], Outside(d), body, low);
      if body != [] && body[0] == RBRACKET {
        One(Outside(d), body, low);
      } else {
        ElemsPiece(body, d, low);
      }
      Join(Outside(d), s, Outside(d), body, Outside(d), rest, low);
    } else {
      ScalarPiece(s, d, low);
    }
  }

  /** An object after its opening brace, up to and with the closing one. */
  lemma {:induction false} ObjectBody(s: Text, d: nat, low: nat)
    requires ParseValue(s).Got? && s[0] == LBRACE && d + 1 >= low
    ensures Piece(Outside(d + 1), s[1..], ParseValue(s).rest, Outside(d), low)
    decreases |s|, 0
  {
    var body := SkipSpace(s[1..]);
    SpacePiece(s[1..], d + 1, low);
    if body != [] && body[0] == RBRACE {
      One(Outside(d + 1), body, low);
    } else {
      MembersPiece(body, d, low);
    }
    Join(Outside(d + 1), s[1..], Outside(d + 1), body, Outside(d), ParseValue(s).rest, low);
  }

  lemma ThenSpace(s: Text, mid: Text, d: nat, low: nat)
    requires Piece(Outside(d), s, mid, Outside(d), low) && d >= low
    ensures Piece(Outside(d), s, SkipSpace(mid), Outside(d), low)
  {
    SpacePiece(mid, d, low);
    Join(Outside(d), s, Outside(d), mid, Outside(d), SkipSpace(mid), low);
  }

  lemma ThenPlain(s: Text, mid: Text, d: nat, low: nat)
    requires Piece(Outside(d), s, mid, Outside(d), low) && d >= low && mid != [] && Plain(mid[0])
    ensures Piece(Outside(d), s, mid[1..], Outside(d), low)
  {
    One(Outside(d), mid, low);
    Join(Outside(d), s, Outside(d), mid, Outside(d), mid[1..], low);
  }

  /** A key, its colon and the space after it. */
  lemma KeyPiece(s: Text, d: nat, low: nat)
    requires s != [] && s[0] == QUOTE && ParseChars(s[1..]).Got? && d >= low
    requires var colon := SkipSpace(ParseChars(s[1..]).rest); colon != [] && colon[0] == COLON
    ensures var colon := SkipSpace(ParseChars(s[1..]).rest);
      Piece(Outside(d), s, SkipSpace(colon[1..]), Outside(d), low)
  {
    var afterKey := ParseChars(s[1..]).rest;
    StringPiece(s, d, low);
    ThenSpace(s, afterKey, d, low);
    ThenPlain(s, SkipSpace(afterKey), d, low);
    ThenSpace(s, SkipSpace(afterKey)[1..], d, low);
  }

  lemma {:induction false} MembersPiece(s: Text, d: nat, low: nat)
    requires ParseMembers(s).Got? && d + 1 >= low
    ensures Piece(Outside(d + 1), s, ParseMembers(s).rest, Outside(d), low)
    decreases |s|, 0
  {
    var o, rest := Outside(d + 1), ParseMembers(s).rest;
    var start := SkipSpace(SkipSpace(ParseChars(s[1..]).rest)[1..]);
    var afterValue := ParseValue(start).rest;
    var sep := SkipSpace(afterValue);
    KeyPiece(s, d + 1, low);
    ValuePiece(start, d + 1, low);
    Join(o, s, o, start, o, afterValue, low);
    ThenSpace(s, afterValue, d + 1, low);
    if sep[0] == RBRACE {
      One(o, sep, low);
      Join(o, s, o, sep, Outside(d), rest, low);
    } else {
      ThenPlain(s, sep, d + 1, low);
      ThenSpace(s, sep[1..], d + 1, low);
      MembersPiece(SkipSpace(sep[1..]), d, low);
      Join(o, s, o, SkipSpace(sep[1..]), Outside(d), rest, low);
    }
  }

  lemma {:induction false} ElemsPiece(s: Text, d: nat, low: nat)
    requires ParseElems(s).Got? && d >= low
    ensures Piece(Outside(d), s, ParseElems(s).rest, Outside(d), low)
    decreases |s|, 2
  {
    var o, afterValue := Outside(d), ParseValue(s).rest;
    var sep := SkipSpace(afterValue);
    ValuePiece(s, d, low);
    ThenSpace(s, afterValue, d, low);
    ThenPlain(s, sep, d, low);
    if sep[0] == COMMA {
      ThenSpace(s, sep[1..], d, low);
      ElemsPiece(SkipSpace(sep[1..]), d, low);
      Join(o, s, o, SkipSpace(sep[1..]), o, ParseElems(s).rest, low);
    }
  }

  lemma {:induction false} ScanPrefix(from: Scan, a: Text, b: Text, i: nat)
    requires i <= |a|
    ensures ScanTo(from, a + b, i) == ScanTo(from, a, i)
    decreases i
  {
    if i > 0 {
      ScanPrefix(from, a, b, i - 1);
      assert (a + b)[i - 1] == a[i - 1];
    }
  }

  lemma ScanAfter(a: Text, b: Text, i: nat)
    requires ScanTo(FRESH, a, |a|) == FRESH && i <= |b|
    ensures DepthAt(a + b, |a| + i) == DepthFrom(FRESH, b, i)
  {
    ScanPrefix(FRESH, a, b, |a|);
    ScanSuffix(FRESH, a + b, |a|, i);
    assert (a + b)[|a|..] == b;
  }

  /** Scanning a well-formed object alone: closed again only at its end. */
  lemma ObjectScan(text: Text)
    requires ParseValue(text).Got? && ParseValue(text).value.Obj?
    ensures var n := |text| - |ParseValue(text).rest|;
      && n >= 2 && ScanTo(FRESH, text, n) == FRESH
      && forall i :: 0 < i < n ==> DepthFrom(FRESH, text, i) >= 1
  {
    var rest := ParseValue(text).rest;
    var n := |text| - |rest|;
    ObjectBody(text, 0, 1);
    assert ScanTo(FRESH, text, 0) == FRESH && ScanTo(FRESH, text, 1) == Outside(1);
    ScanSuffix(FRESH, text, 1, n - 1);
    assert ScanTo(Outside(1), text[1..], 0) == Outside(1);
    forall i | 0 < i < n
      ensures DepthFrom(FRESH, text, i) >= 1
    {
      ScanSuffix(FRESH, text, 1, i - 1);
      assert DepthFrom(Outside(1), text[1..], i - 1) >= 1;
    }
  }

  lemma ClosedScanIsASpan(before: Text, text: Text, n: nat)
    requires ScanTo(FRESH, before, |before|) == FRESH
    requires 2 <= n <= |text| && ScanTo(FRESH, text, n) == FRESH
    requires forall i :: 0 < i < n ==> DepthFrom(FRESH, text, i) >= 1
    ensures Span(|before|, |before| + n) in Spans(before + text)
  {
    var whole, span := before + text, Span(|before|, |before| + n);
    ScanAfter(before, text, 0);
    ScanAfter(before, text, n);
    assert ScanTo(FRESH, text, 0) == FRESH;
    forall k | span.lo < k < span.hi
      ensures DepthAt(whole, k) > 0
    {
      ScanAfter(before, text, k - |before|);
      assert DepthFrom(FRESH, text, k - |before|) >= 1;
    }
    assert IsSpan(whole, span);
    SpansAreTopLevelObjects(whole);
  }

  /** Wherever the scanner is outside every string and object, a well-formed JSON object that
      follows is exactly one of the spans. */
  lemma WellFormedObjectIsASpan(before: Text, text: Text)
    requires ScanTo(FRESH, before, |before|) == FRESH
    requires ParseValue(text).Got? && ParseValue(text).value.Obj?
    ensures Span(|before|, |before| + |text| - |ParseValue(text).rest|) in Spans(before + text)
  {
    ObjectScan(text);
    ClosedScanIsASpan(before, text, |text| - |ParseValue(text).rest|);
  }
}
