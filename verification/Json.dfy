/** The JSON text layer under `rows.jsonl`: what `json.dumps(..., ensure_ascii=True)` prints and
    what `json.loads` accepts (RFC 8259), over Unicode code points.

    A code point may be a lone surrogate, as in a Python string.  A number is kept as its own text,
    so printing and reading never evaluate a decimal. */
module Json {
  import opened Seqs

  type CodePoint = c: int | 0 <= c < 0x11_0000
  type Text = seq<CodePoint>

  const QUOTE: CodePoint := 0x22
  const BACKSLASH: CodePoint := 0x5C
  const NEWLINE: CodePoint := 0x0A
  const COMMA: CodePoint := 0x2C
  const COLON: CodePoint := 0x3A
  const SPACE: CodePoint := 0x20
  const LBRACE: CodePoint := 0x7B
  const RBRACE: CodePoint := 0x7D
  const LBRACKET: CodePoint := 0x5B
  const RBRACKET: CodePoint := 0x5D
  const MINUS: CodePoint := 0x2D
  const LOWER_U: CodePoint := 0x75

  /** An ASCII literal of the source as code points. */
  function Lit(s: string): (t: Text)
    ensures |t| == |s|
  {
    seq(|s|, i requires 0 <= i < |s| => s[i] as int)
  }

  datatype Json =
    | Null
    | Bool(b: bool)
    | Num(token: Text)
    | Str(s: Text)
    | Arr(elems: seq<Json>)
    | Obj(members: seq<(Text, Json)>)

  /** A parsed object as a dictionary: the last of equal keys wins. */
  function Lookup(ms: seq<(Text, Json)>, key: Text): Option<Json>
    decreases |ms|
  {
    if ms == [] then None
    else if ms[|ms| - 1].0 == key then Some(ms[|ms| - 1].1)
    else Lookup(ms[..|ms| - 1], key)
  }

  datatype Parsed<+T> = Fail | Got(value: T, rest: Text)

  // ----- String literals (section 7 of RFC 8259) ---------------------------------------------

  predicate IsHigh(c: int) { 0xD800 <= c <= 0xDBFF }

  predicate IsLow(c: int) { 0xDC00 <= c <= 0xDFFF }

  function HexChar(d: int): CodePoint
    requires 0 <= d < 16
  {
    if d < 10 then 0x30 + d else 0x61 + d - 10
  }

  function HexValue(c: CodePoint): int {
    if 0x30 <= c <= 0x39 then c - 0x30
    else if 0x61 <= c <= 0x66 then c - 0x61 + 10
    else if 0x41 <= c <= 0x46 then c - 0x41 + 10
    else -1
  }

  function UEscape(c: int): (t: Text)
    requires 0 <= c < 0x1_0000
    ensures |t| == 6
  {
    [BACKSLASH, LOWER_U, HexChar(c / 0x1000), HexChar(c / 0x100 % 16), HexChar(c / 16 % 16), HexChar(c % 16)]
  }

  /** How one code point is written inside a string literal. */
  function EncodeChar(c: CodePoint): (t: Text)
    ensures |t| > 0
  {
    if c == QUOTE then [BACKSLASH, QUOTE]
    else if c == BACKSLASH then [BACKSLASH, BACKSLASH]
    else if c == 0x0A then [BACKSLASH, 0x6E]
    else if c == 0x0D then [BACKSLASH, 0x72]
    else if c == 0x09 then [BACKSLASH, 0x74]
    else if c == 0x08 then [BACKSLASH, 0x62]
    else if c == 0x0C then [BACKSLASH, 0x66]
    else if 0x20 <= c <= 0x7E then [c]
    else if c < 0x1_0000 then UEscape(c)
    else UEscape(0xD800 + (c - 0x1_0000) / 0x400) + UEscape(0xDC00 + (c - 0x1_0000) % 0x400)
  }

  function EncodeChars(s: Text): Text {
    if s == [] then [] else EncodeChar(s[0]) + EncodeChars(s[1..])
  }

  /** The four hexadecimal digits after `\u`, or -1. */
  function HexQuad(s: Text): (v: int)
    ensures -1 <= v < 0x1_0000
    ensures v >= 0 ==> |s| >= 4
  {
    if |s| < 4 || HexValue(s[0]) < 0 || HexValue(s[1]) < 0 || HexValue(s[2]) < 0 || HexValue(s[3]) < 0 then -1
    else HexValue(s[0]) * 0x1000 + HexValue(s[1]) * 0x100 + HexValue(s[2]) * 16 + HexValue(s[3])
  }

  /** `\uXXXX` at the head of `s`, or -1. */
  function UQuad(s: Text): (v: int)
    ensures -1 <= v < 0x1_0000
    ensures v >= 0 ==> |s| >= 6
  {
    if |s| >= 2 && s[0] == BACKSLASH && s[1] == LOWER_U then HexQuad(s[2..]) else -1
  }

  /** The code point that a surrogate pair stands for. */
  function Combined(hi: int, lo: int): CodePoint
    requires IsHigh(hi) && IsLow(lo)
  {
    0x1_0000 + (hi - 0xD800) * 0x400 + (lo - 0xDC00)
  }

  /** One character of a string literal, escapes resolved and surrogate pairs joined. */
  function ParseChar(s: Text): (r: Parsed<CodePoint>)
    ensures r.Got? ==> |r.rest| < |s|
  {
    if s == [] || s[0] < 0x20 || s[0] == QUOTE then Fail
    else if s[0] != BACKSLASH then Got(s[0], s[1..])
    else if |s| < 2 then Fail
    else if s[1] == LOWER_U then
      var u := UQuad(s);
      if u < 0 then Fail
      else
        var v := UQuad(s[6..]);
        if IsHigh(u) && IsLow(v) then
          Got(Combined(u, v), s[12..])
        else Got(u, s[6..])
    else if s[1] == QUOTE || s[1] == BACKSLASH || s[1] == 0x2F then Got(s[1], s[2..])
    else if s[1] == 0x62 then Got(0x08, s[2..])
    else if s[1] == 0x66 then Got(0x0C, s[2..])
    else if s[1] == 0x6E then Got(0x0A, s[2..])
    else if s[1] == 0x72 then Got(0x0D, s[2..])
    else if s[1] == 0x74 then Got(0x09, s[2..])
    else Fail
  }

  /** The rest of a string literal whose opening quote has been read. */
  function ParseChars(s: Text): (r: Parsed<Text>)
    ensures r.Got? ==> |r.rest| < |s|
    decreases |s|
  {
    if s != [] && s[0] == QUOTE then Got([], s[1..])
    else
      match ParseChar(s)
      case Fail => Fail
      case Got(c, rest) =>
        match ParseChars(rest)
        case Fail => Fail
        case Got(cs, rest') => Got([c] + cs, rest')
  }

  // ----- Numbers (section 6 of RFC 8259) -------------------------------------------------------

  predicate IsDigit(c: CodePoint) { 0x30 <= c <= 0x39 }

  /** The end of the longest run of digits that starts at `i`. */
  function DigitsEnd(s: Text, i: nat): (j: nat)
    requires i <= |s|
    ensures i <= j <= |s|
    decreases |s| - i
  {
    if i < |s| && IsDigit(s[i]) then DigitsEnd(s, i + 1) else i
  }

  function FracEnd(s: Text, i: nat): (j: nat)
    requires i <= |s|
    ensures i <= j <= |s|
  {
    if i < |s| && s[i] == 0x2E && DigitsEnd(s, i + 1) > i + 1 then DigitsEnd(s, i + 1) else i
  }

  function ExpEnd(s: Text, i: nat): (j: nat)
    requires i <= |s|
    ensures i <= j <= |s|
  {
    if i < |s| && (s[i] == 0x65 || s[i] == 0x45) then
      var k := if i + 1 < |s| && (s[i + 1] == 0x2B || s[i + 1] == MINUS) then i + 2 else i + 1;
      if DigitsEnd(s, k) > k then DigitsEnd(s, k) else i
    else i
  }

  /** The length of the number at the head of `s`; 0 when there is none. */
  function NumberLength(s: Text): (n: nat)
    ensures n <= |s|
  {
    var i := if s != [] && s[0] == MINUS then 1 else 0;
    if i == |s| || !IsDigit(s[i]) then 0
    else
      var j := if s[i] == 0x30 then i + 1 else DigitsEnd(s, i + 1);
      ExpEnd(s, FracEnd(s, j))
  }

  // ----- Values ----------------------------------------------------------------------------------

  predicate IsSpace(c: CodePoint) { c == 0x20 || c == 0x09 || c == 0x0A || c == 0x0D }

  function SkipSpace(s: Text): (r: Text)
    ensures |r| <= |s|
  {
    if s != [] && IsSpace(s[0]) then SkipSpace(s[1..]) else s
  }

  predicate StartsWith(s: Text, word: Text) { |word| <= |s| && s[..|word|] == word }

  const NULL: Text := [0x6E, 0x75, 0x6C, 0x6C]
  const TRUE: Text := [0x74, 0x72, 0x75, 0x65]
  const FALSE: Text := [0x66, 0x61, 0x6C, 0x73, 0x65]

  // The three constants Python's json module reads and writes beyond the standard.
  const NAN: Text := [0x4E, 0x61, 0x4E]
  const INFINITY: Text := [0x49, 0x6E, 0x66, 0x69, 0x6E, 0x69, 0x74, 0x79]
  const MINUS_INFINITY: Text := [0x2D, 0x49, 0x6E, 0x66, 0x69, 0x6E, 0x69, 0x74, 0x79]

  function ParseValue(s: Text): (r: Parsed<Json>)
    ensures r.Got? ==> |r.rest| < |s|
    decreases |s|, 1
  {
    if s == [] then Fail
    else if s[0] == QUOTE then
      (match ParseChars(s[1..])
       case Fail => Fail
       case Got(t, rest) => Got(Str(t), rest))
    else if s[0] == LBRACE then
      var body := SkipSpace(s[1..]);
      if body != [] && body[0] == RBRACE then Got(Obj([]), body[1..])
      else
        (match ParseMembers(body)
         case Fail => Fail
         case Got(ms, rest) => Got(Obj(ms), rest))
    else if s[0] == LBRACKET then
      var body := SkipSpace(s[1..]);
      if body != [] && body[0] == RBRACKET then Got(Arr([]), body[1..])
      else
        (match ParseElems(body)
         case Fail => Fail
         case Got(es, rest) => Got(Arr(es), rest))
    else if StartsWith(s, NULL) then Got(Null, s[4..])
    else if StartsWith(s, TRUE) then Got(Bool(true), s[4..])
    else if StartsWith(s, FALSE) then Got(Bool(false), s[5..])
    else
      var n := NumberLength(s);
      if n > 0 then Got(Num(s[..n]), s[n..])
      else if StartsWith(s, NAN) then Got(Num(NAN), s[3..])
      else if StartsWith(s, INFINITY) then Got(Num(INFINITY), s[8..])
      else if StartsWith(s, MINUS_INFINITY) then Got(Num(MINUS_INFINITY), s[9..])
      else Fail
  }

  /** One or more `"key": value` pairs up to the closing brace. */
  function ParseMembers(s: Text): (r: Parsed<seq<(Text, Json)>>)
    ensures r.Got? ==> |r.rest| < |s|
    decreases |s|, 0
  {
    if s == [] || s[0] != QUOTE then Fail
    else
      match ParseChars(s[1..])
      case Fail => Fail
      case Got(key, afterKey) =>
        var colon := SkipSpace(afterKey);
        if colon == [] || colon[0] != COLON then Fail
        else
          match ParseValue(SkipSpace(colon[1..]))
          case Fail => Fail
          case Got(v, afterValue) =>
            var sep := SkipSpace(afterValue);
            if sep == [] then Fail
            else if sep[0] == RBRACE then Got([(key, v)], sep[1..])
            else if sep[0] != COMMA then Fail
            else
              match ParseMembers(SkipSpace(sep[1..]))
              case Fail => Fail
              case Got(ms, rest) => Got([(key, v)] + ms, rest)
  }

  /** One or more array elements up to the closing bracket. */
  function ParseElems(s: Text): (r: Parsed<seq<Json>>)
    ensures r.Got? ==> |r.rest| < |s|
    decreases |s|, 2
  {
    match ParseValue(s)
    case Fail => Fail
    case Got(v, afterValue) =>
      var sep := SkipSpace(afterValue);
      if sep == [] then Fail
      else if sep[0] == RBRACKET then Got([v], sep[1..])
      else if sep[0] != COMMA then Fail
      else
        match ParseElems(SkipSpace(sep[1..]))
        case Fail => Fail
        case Got(es, rest) => Got([v] + es, rest)
  }

  datatype Loaded = Invalid | Value(json: Json)

  /** `json.loads`: one value with nothing but white space around it. */
  function Loads(s: Text): Loaded {
    match ParseValue(SkipSpace(s))
    case Fail => Invalid
    case Got(v, rest) => if SkipSpace(rest) == [] then Value(v) else Invalid
  }

  /** `json.dumps` with its default separators. */
  function Dumps(v: Json): (t: Text)
    decreases v, 0
  {
    match v
    case Null => NULL
    case Bool(b) => if b then TRUE else FALSE
    case Num(token) => token
    case Str(s) => DumpString(s)
    case Arr(es) => [LBRACKET] + DumpElems(es) + [RBRACKET]
    case Obj(ms) => [LBRACE] + DumpMembers(ms) + [RBRACE]
  }

  function DumpString(s: Text): Text { [QUOTE] + EncodeChars(s) + [QUOTE] }

  function DumpElems(es: seq<Json>): Text
    decreases es, 1
  {
    if es == [] then []
    else if |es| == 1 then Dumps(es[0])
    else Dumps(es[0]) + [COMMA, SPACE] + DumpElems(es[1..])
  }

  function DumpMember(m: (Text, Json)): Text
    decreases m, 1
  {
    DumpString(m.0) + [COLON, SPACE] + Dumps(m.1)
  }

  function DumpMembers(ms: seq<(Text, Json)>): Text
    decreases ms, 2
  {
    if ms == [] then []
    else if |ms| == 1 then DumpMember(ms[0])
    else DumpMember(ms[0]) + [COMMA, SPACE] + DumpMembers(ms[1..])
  }
}
