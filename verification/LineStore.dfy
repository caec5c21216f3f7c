/** An append-only text file with one line per row, read back tolerating a torn last line
    (the `rows.jsonl` of measure_twice/runner.py), for any line codec that survives tearing. */
module LineStore {
  import opened Seqs
  import opened Json

  /** The printer and the parser of one line, and the rows they are meant for. */
  datatype Codec<!T> = Codec(show: T -> Text, read: Text -> Option<T>, good: T -> bool)

  ghost predicate NoBreak(t: Text) { forall i :: 0 <= i < |t| ==> t[i] != NEWLINE }

  /** What the store needs of one row: its line is one non-empty line, reads back, and no strict
      prefix of it reads as a row. */
  ghost predicate Survives<T>(c: Codec<T>, row: T) {
    var line := c.show(row);
    && line != []
    && c.read(line) == Some(row)
    && NoBreak(line)
    && forall n :: 0 <= n < |line| ==> c.read(line[..n]) == None
  }

  ghost predicate Faithful<T(!new)>(c: Codec<T>) { forall row :: c.good(row) ==> Survives(c, row) }

  ghost predicate AllGood<T>(c: Codec<T>, rows: seq<T>) { forall i :: 0 <= i < |rows| ==> c.good(rows[i]) }

  /** `text.split("\n")`. */
  function SplitLines(t: Text): (ls: seq<Text>)
    ensures |ls| >= 1
  {
    if t == [] then [[]]
    else
      var rest := SplitLines(t[1..]);
      if t[0] == NEWLINE then [[]] + rest else [[t[0]] + rest[0]] + rest[1..]
  }

  datatype ReadResult<T> = Rows(rows: seq<T>, torn: bool) | Corrupt(line: nat)

  function Prepend<T>(rows: seq<T>, r: ReadResult<T>): ReadResult<T> {
    match r
    case Rows(more, torn) => Rows(rows + more, torn)
    case Corrupt(n) => Corrupt(n)
  }

  function ParseLines<T>(c: Codec<T>, lines: seq<Text>): (ps: seq<Option<T>>)
    ensures |ps| == |lines|
    ensures forall i :: 0 <= i < |lines| ==> ps[i] == c.read(lines[i])
  {
    seq(|lines|, i requires 0 <= i < |lines| => c.read(lines[i]))
  }

  /** The rows of the lines from the `i`th on; only an unterminated last line may fail to parse. */
  function ReadFrom<T>(parsed: seq<Option<T>>, i: nat, terminated: bool): ReadResult<T>
    requires i <= |parsed|
    decreases |parsed| - i
  {
    if i == |parsed| then Rows([], !terminated)
    else if parsed[i].Some? then Prepend([parsed[i].value], ReadFrom(parsed, i + 1, terminated))
    else if i == |parsed| - 1 && !terminated then Rows([], true)
    else Corrupt(i + 1)
  }

  /** The lines that hold rows, and whether the last one was terminated. */
  function RowLines(text: Text): (seq<Text>, bool) {
    var raw := SplitLines(text);
    if raw[|raw| - 1] == [] then (raw[..|raw| - 1], true) else (raw, false)
  }

  function Read<T>(c: Codec<T>, file: Option<Text>): ReadResult<T> {
    if file.None? || file.value == [] then Rows([], false)
    else ReadFrom(ParseLines(c, RowLines(file.value).0), 0, RowLines(file.value).1)
  }

  /** `_read_rows`. */
  method ReadRows<T>(c: Codec<T>, file: Option<Text>) returns (result: ReadResult<T>)
    ensures result == Read(c, file)
  {
    if file.None? || file.value == [] {
      return Rows([], false);
    }
    var lines := SplitLines(file.value);
    var terminated := lines[|lines| - 1] == [];
    if terminated {
      lines := lines[..|lines| - 1];
    }
    var rows := [];
    var torn := !terminated;
    ghost var all := ParseLines(c, lines);
    var i := 0;
    while i < |lines|
      invariant i <= |lines| && torn == !terminated
      invariant Prepend(rows, ReadFrom(all, i, terminated)) == ReadFrom(all, 0, terminated)
    {
      var parsed := c.read(lines[i]);
      if parsed.None? {
        if i == |lines| - 1 && !terminated {
          assert rows + [] == rows;
          return Rows(rows, true);
        }
        return Corrupt(i + 1);
      }
      PrependTwice(rows, [parsed.value], ReadFrom(all, i + 1, terminated));
      rows := rows + [parsed.value];
      i := i + 1;
    }
    assert rows + [] == rows;
    return Rows(rows, torn);
  }

  lemma PrependTwice<T>(a: seq<T>, b: seq<T>, r: ReadResult<T>)
    ensures Prepend(a, Prepend(b, r)) == Prepend(a + b, r)
  {
    if r.Rows? { assert a + (b + r.rows) == a + b + r.rows; }
  }

  /** The file that holds exactly `rows`. */
  function Render<T>(c: Codec<T>, rows: seq<T>): Text {
    if rows == [] then [] else c.show(rows[0]) + [NEWLINE] + Render(c, rows[1..])
  }

  lemma {:induction false} RenderConcat<T>(c: Codec<T>, a: seq<T>, b: seq<T>)
    ensures Render(c, a + b) == Render(c, a) + Render(c, b)
    decreases |a|
  {
    if a == [] {
      assert a + b == b;
    } else {
      assert (a + b)[1..] == a[1..] + b;
      RenderConcat(c, a[1..], b);
    }
  }

  lemma RenderLast<T>(c: Codec<T>, rows: seq<T>, row: T)
    ensures Render(c, rows + [row]) == Render(c, rows) + (c.show(row) + [NEWLINE])
  {
    RenderConcat(c, rows, [row]);
    assert [row][1..] == [];
  }

  /** The text `_rewrite_rows` puts in place. */
  method RewrittenText<T>(c: Codec<T>, rows: seq<T>) returns (text: Text)
    ensures text == Render(c, rows)
  {
    text := [];
    for i := 0 to |rows|
      invariant text == Render(c, rows[..i])
    {
      RenderLast(c, rows[..i], rows[i]);
      assert rows[..i + 1] == rows[..i] + [rows[i]];
      text := text + (c.show(rows[i]) + [NEWLINE]);
    }
    assert rows[..|rows|] == rows;
  }

  /** What is on disk: whole rows, then at most one row of which only `n` characters of
      its line (never its newline) were written. */
  datatype Shape<T> = Shape(rows: seq<T>, torn: Option<(T, nat)>)

  function Tail<T>(c: Codec<T>, shape: Shape<T>): Text {
    match shape.torn
    case None => []
    case Some((row, n)) => if n <= |c.show(row)| then c.show(row)[..n] else []
  }

  function Bytes<T>(c: Codec<T>, shape: Shape<T>): Text { Render(c, shape.rows) + Tail(c, shape) }

  /** The rows a reader gets back: a torn row counts when only its newline is missing. */
  function Durable<T>(c: Codec<T>, shape: Shape<T>): seq<T> {
    match shape.torn
    case None => shape.rows
    case Some((row, n)) => if n == |c.show(row)| then shape.rows + [row] else shape.rows
  }

  ghost predicate WellShaped<T>(c: Codec<T>, shape: Shape<T>) {
    && AllGood(c, shape.rows)
    && (shape.torn.Some? ==> c.good(shape.torn.value.0) && shape.torn.value.1 <= |c.show(shape.torn.value.0)|)
  }

  // ----- Reading a shape back ---------------------------------------------------------------------

  function Lines<T>(c: Codec<T>, rows: seq<T>): (ls: seq<Text>)
    ensures |ls| == |rows|
    ensures forall i :: 0 <= i < |rows| ==> ls[i] == c.show(rows[i])
  {
    if rows == [] then [] else [c.show(rows[0])] + Lines(c, rows[1..])
  }

  lemma {:induction false} SplitNoBreak(t: Text)
    requires NoBreak(t)
    ensures SplitLines(t) == [t]
    decreases |t|
  {
    if t != [] {
      SplitNoBreak(t[1..]);
      assert [t[0]] + t[1..] == t;
    }
  }

  lemma {:induction false} SplitFirstLine(line: Text, rest: Text)
    requires NoBreak(line)
    ensures SplitLines(line + [NEWLINE] + rest) == [line] + SplitLines(rest)
    decreases |line|
  {
    var t := line + [NEWLINE] + rest;
    if line == [] {
      assert t[1..] == rest;
    } else {
      assert t[1..] == line[1..] + [NEWLINE] + rest;
      SplitFirstLine(line[1..], rest);
      assert [t[0]] + line[1..] == line;
    }
  }

  lemma {:induction false} SplitRender<T(!new)>(c: Codec<T>, rows: seq<T>, tail: Text)
    requires Faithful(c) && AllGood(c, rows) && NoBreak(tail)
    ensures SplitLines(Render(c, rows) + tail) == Lines(c, rows) + [tail]
    decreases |rows|
  {
    if rows == [] {
      assert Render(c, rows) + tail == tail;
      SplitNoBreak(tail);
    } else {
      var line := c.show(rows[0]);
      assert Survives(c, rows[0]);
      assert Render(c, rows) + tail == line + [NEWLINE] + (Render(c, rows[1..]) + tail);
      SplitFirstLine(line, Render(c, rows[1..]) + tail);
      SplitRender(c, rows[1..], tail);
    }
  }

  function Somes<T>(rows: seq<T>): (ps: seq<Option<T>>)
    ensures |ps| == |rows|
    ensures forall i :: 0 <= i < |rows| ==> ps[i] == Some(rows[i])
  {
    seq(|rows|, i requires 0 <= i < |rows| => Some(rows[i]))
  }

  lemma PrintedLinesParse<T(!new)>(c: Codec<T>, rows: seq<T>)
    requires Faithful(c) && AllGood(c, rows)
    ensures ParseLines(c, Lines(c, rows)) == Somes(rows)
  {
    forall i | 0 <= i < |rows|
      ensures c.read(Lines(c, rows)[i]) == Some(rows[i])
    {
      assert Survives(c, rows[i]);
    }
  }

  /** Reading rows that parse, then whatever the remaining lines give. */
  lemma {:induction false} ReadParsed<T>(rows: seq<T>, more: seq<Option<T>>, i: nat, terminated: bool)
    requires i <= |rows|
    ensures ReadFrom(Somes(rows) + more, i, terminated)
         == Prepend(rows[i..], ReadFrom(Somes(rows) + more, |rows|, terminated))
    decreases |rows| - i
  {
    var parsed := Somes(rows) + more;
    var r := ReadFrom(parsed, |rows|, terminated);
    if i == |rows| {
      assert r.Rows? ==> [] + r.rows == r.rows;
    } else {
      ReadParsed(rows, more, i + 1, terminated);
      PrependTwice([rows[i]], rows[i + 1..], r);
      assert [rows[i]] + rows[i + 1..] == rows[i..];
    }
  }

  lemma ReadClean<T(!new)>(c: Codec<T>, rows: seq<T>)
    requires Faithful(c) && AllGood(c, rows)
    ensures Read(c, Some(Render(c, rows))) == Rows(rows, false)
  {
    SplitRender(c, rows, []);
    assert Render(c, rows) + [] == Render(c, rows);
    assert (Lines(c, rows) + [[]])[..|rows|] == Lines(c, rows);
    PrintedLinesParse(c, rows);
    assert Somes(rows) + [] == Somes(rows);
    ReadParsed(rows, [], 0, true);
    assert rows[0..] + [] == rows;
  }

  /** The last line parses to a row, or to nothing. */
  lemma ReadTornParsed<T>(rows: seq<T>, last: Option<T>)
    ensures ReadFrom(Somes(rows) + [last], 0, false) == Rows(if last.Some? then rows + [last.value] else rows, true)
  {
    ReadParsed(rows, [last], 0, false);
    assert rows[0..] == rows && rows + [] == rows;
    if last.Some? { assert [last.value] + [] == [last.value]; }
  }

  lemma ReadTorn<T(!new)>(c: Codec<T>, rows: seq<T>, row: T, n: nat)
    requires Faithful(c) && AllGood(c, rows) && c.good(row) && 0 < n <= |c.show(row)|
    ensures Read(c, Some(Render(c, rows) + c.show(row)[..n]))
         == Rows(if n == |c.show(row)| then rows + [row] else rows, true)
  {
    var tail := c.show(row)[..n];
    assert Survives(c, row);
    SplitRender(c, rows, tail);
    PrintedLinesParse(c, rows);
    assert tail == c.show(row) <==> n == |c.show(row)|;
    assert ParseLines(c, Lines(c, rows) + [tail]) == Somes(rows) + [c.read(tail)];
    ReadTornParsed(rows, c.read(tail));
  }

  /** The store reads back to its whole rows, dropping or completing at most one torn tail. */
  lemma ReadShape<T(!new)>(c: Codec<T>, shape: Shape<T>)
    requires Faithful(c) && WellShaped(c, shape)
    ensures Read(c, Some(Bytes(c, shape))) == Rows(Durable(c, shape), Tail(c, shape) != [])
  {
    if shape.torn.Some? { assert Survives(c, shape.torn.value.0); }
    if Tail(c, shape) == [] {
      assert Bytes(c, shape) == Render(c, shape.rows);
      ReadClean(c, shape.rows);
    } else {
      ReadTorn(c, shape.rows, shape.torn.value.0, shape.torn.value.1);
    }
  }
}
