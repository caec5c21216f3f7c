/** One record of `rows.jsonl` and its JSON line (measure_twice/runner.py). */
module RunRows {
  import opened Seqs
  import opened Json
  import opened JsonProofs
  import opened LineStore

  /** One record.  Fields are JSON values, because `from_dict` checks that the keys are present and
      nothing else. */
  datatype RunRow = RunRow(
    runId: Json, model: Json, modelIdResolved: Json, itemId: Json, sampleK: Json, responseRaw: Json,
    parsed: Json, score: Json, scorer: Json, judgeScores: Json, elapsedS: Json, error: Json)
  {
    /** The identity resume deduplicates on. */
    function CellKey(): (Json, Json, Json) { (model, itemId, sampleK) }

    function ToDict(): seq<(Text, Json)> {
      [(Lit("run_id"), runId), (Lit("model"), model), (Lit("model_id_resolved"), modelIdResolved),
       (Lit("item_id"), itemId), (Lit("sample_k"), sampleK), (Lit("response_raw"), responseRaw),
       (Lit("parsed"), parsed), (Lit("score"), score), (Lit("scorer"), scorer),
       (Lit("judge_scores"), judgeScores), (Lit("elapsed_s"), elapsedS), (Lit("error"), error)]
    }

    function ToJsonLine(): Text { Dumps(Obj(ToDict())) }

    predicate Good() {
      && Printable(runId) && Printable(model) && Printable(modelIdResolved) && Printable(itemId)
      && Printable(sampleK) && Printable(responseRaw) && Printable(parsed) && Printable(score)
      && Printable(scorer) && Printable(judgeScores) && Printable(elapsedS) && Printable(error)
    }
  }

  type Key = (Json, Json, Json)

  const FIELDS: seq<Text> :=
    [Lit("run_id"), Lit("model"), Lit("model_id_resolved"), Lit("item_id"), Lit("sample_k"),
     Lit("response_raw"), Lit("parsed"), Lit("score"), Lit("scorer"), Lit("judge_scores"),
     Lit("elapsed_s"), Lit("error")]

  predicate HasAllFields(ms: seq<(Text, Json)>) {
    forall i :: 0 <= i < |FIELDS| ==> Lookup(ms, FIELDS[i]).Some?
  }

  function Field(ms: seq<(Text, Json)>, i: nat): Json
    requires i < |FIELDS| && HasAllFields(ms)
  {
    Lookup(ms, FIELDS[i]).value
  }

  /** `RunRow.from_dict`; None stands for its KeyError. */
  function FromDict(ms: seq<(Text, Json)>): Option<RunRow> {
    if HasAllFields(ms) then
      Some(RunRow(Field(ms, 0), Field(ms, 1), Field(ms, 2), Field(ms, 3), Field(ms, 4), Field(ms, 5),
                  Field(ms, 6), Field(ms, 7), Field(ms, 8), Field(ms, 9), Field(ms, 10), Field(ms, 11)))
    else None
  }

  /** `json.loads`, the object check and `from_dict`; None stands for any of their exceptions. */
  function FromJsonLine(line: Text): Option<RunRow> {
    match Loads(line)
    case Value(Obj(ms)) => FromDict(ms)
    case _ => None
  }

  // ----- What a line must hold ------------------------------------------------------------------

  /** The object a line reads as, if it reads as one. */
  function ObjectOf(line: Text): Option<seq<(Text, Json)>> {
    match Loads(line)
    case Value(Obj(ms)) => Some(ms)
    case _ => None
  }

  predicate StrOrNull(v: Json) { v.Str? || v.Null? }

  /** The types the fields are declared with. */
  predicate WellTyped(r: RunRow) {
    && r.runId.Str? && r.model.Str? && r.modelIdResolved.Str? && r.itemId.Str? && r.sampleK.Num?
    && r.responseRaw.Str? && StrOrNull(r.parsed) && (r.score.Num? || r.score.Null?) && StrOrNull(r.scorer)
    && (r.judgeScores.Null? || (r.judgeScores.Arr? && forall v :: v in r.judgeScores.elems ==> v.Num?))
    && r.elapsedS.Num? && StrOrNull(r.error)
  }

  /** A line reads as a row exactly when it is an object with all twelve keys, and then each field is
      the member with its key. */
  lemma RowLineIs(line: Text)
    ensures FromJsonLine(line).Some? <==> ObjectOf(line).Some? && HasAllFields(ObjectOf(line).value)
    ensures FromJsonLine(line).Some? ==>
      forall i :: 0 <= i < |FIELDS| ==>
        Lookup(ObjectOf(line).value, FIELDS[i]) == Some(FromJsonLine(line).value.ToDict()[i].1)
  {
    if FromJsonLine(line).Some? {
      var ms, row := ObjectOf(line).value, FromJsonLine(line).value;
      forall i | 0 <= i < |FIELDS| ensures Lookup(ms, FIELDS[i]) == Some(row.ToDict()[i].1) {
        assert row.ToDict()[i].1 == Field(ms, i);
      }
    }
  }

  /** A missing or mistyped key is promised to raise. For an object with all twelve keys the promise is
      kept exactly when nothing is mistyped. */
  lemma TypePromiseIsKeptExactly(line: Text)
    requires ObjectOf(line).Some? && HasAllFields(ObjectOf(line).value)
    ensures FromJsonLine(line).Some?
    ensures (FromJsonLine(line).None? <==> !WellTyped(FromJsonLine(line).value)) <==> WellTyped(FromJsonLine(line).value)
  {
    RowLineIs(line);
  }

  // ----- A printed row reads back -------------------------------------------------------------

  lemma FieldsAreAscii(i: nat)
    requires i < |FIELDS|
    ensures !HasSplitPair(FIELDS[i])
  {
  }

  lemma FieldsAreDistinct()
    ensures Distinct(FIELDS)
  {
    // Equal lengths occur three times; the first letters tell those apart.
    assert FIELDS[0][0] == 0x72 && FIELDS[6][0] == 0x70 && FIELDS[8][0] == 0x73;
    assert FIELDS[1][0] == 0x6D && FIELDS[7][0] == 0x73 && FIELDS[11][0] == 0x65;
    assert FIELDS[5][0] == 0x72 && FIELDS[9][0] == 0x6A;
    assert |FIELDS[0]| == 6 && |FIELDS[1]| == 5 && |FIELDS[2]| == 17 && |FIELDS[3]| == 7 && |FIELDS[4]| == 8;
    assert |FIELDS[5]| == 12 && |FIELDS[6]| == 6 && |FIELDS[7]| == 5 && |FIELDS[8]| == 6 && |FIELDS[9]| == 12;
    assert |FIELDS[10]| == 9 && |FIELDS[11]| == 5;
  }

  lemma DictReadBack(row: RunRow)
    ensures FromDict(row.ToDict()) == Some(row)
  {
    var ms := row.ToDict();
    FieldsAreDistinct();
    assert forall i :: 0 <= i < |FIELDS| ==> ms[i].0 == FIELDS[i];
    forall i | 0 <= i < |FIELDS|
      ensures Lookup(ms, FIELDS[i]) == Some(ms[i].1)
    {
      LookupFinds(ms, i);
    }
  }

  /** `RunRow.from_dict(json.loads(row.to_json_line())) == row`. */
  lemma RowReadBack(row: RunRow)
    requires row.Good()
    ensures FromJsonLine(row.ToJsonLine()) == Some(row)
  {
    RowIsPrintable(row);
    LoadsDumps(Obj(row.ToDict()));
    DictReadBack(row);
  }

  /** A row whose sample number is a string is printed, read back, and never refused. */
  lemma MistypedRowReads()
    ensures var row := RunRow(Str([]), Str([]), Str([]), Str([]), Str(Lit("one")), Str([]),
                              Null, Null, Null, Null, Num(Lit("0")), Null);
      !WellTyped(row) && FromJsonLine(row.ToJsonLine()) == Some(row)
  {
    var row := RunRow(Str([]), Str([]), Str([]), Str([]), Str(Lit("one")), Str([]),
                      Null, Null, Null, Null, Num(Lit("0")), Null);
    assert IsNumberToken(Lit("0"));
    assert row.Good();
    RowReadBack(row);
  }

  lemma RowIsPrintable(row: RunRow)
    requires row.Good()
    ensures Printable(Obj(row.ToDict()))
  {
    var ms := row.ToDict();
    forall m | m in ms
      ensures !HasSplitPair(m.0) && Printable(m.1)
    {
      var i :| 0 <= i < |ms| && ms[i] == m;
      assert m.0 == FIELDS[i];
      FieldsAreAscii(i);
    }
  }

  /** The codec of `rows.jsonl`. */
  const ROW_CODEC: Codec<RunRow> := Codec((r: RunRow) => r.ToJsonLine(), FromJsonLine, (r: RunRow) => r.Good())

  /** A line cut short never reads as a row. */
  lemma TornLineNeverReads(row: RunRow, n: nat)
    requires row.Good() && n < |row.ToJsonLine()|
    ensures FromJsonLine(row.ToJsonLine()[..n]) == None
  {
    RowIsPrintable(row);
    var v := Obj(row.ToDict());
    ValueReadBack(v, []);
    assert Dumps(v) + [] == Dumps(v);
    StrictPrefixNeverLoads(row.ToJsonLine(), n);
  }

  lemma LineHasNoBreak(row: RunRow)
    requires row.Good()
    ensures NoBreak(row.ToJsonLine())
  {
    RowIsPrintable(row);
    DumpsIsOneLine(Obj(row.ToDict()));
  }

  /** The JSON line of a row has all three properties. */
  lemma RowCodecIsFaithful()
    ensures Faithful(ROW_CODEC)
  {
    forall row: RunRow | ROW_CODEC.good(row)
      ensures Survives(ROW_CODEC, row)
    {
      RowSurvives(row);
    }
  }

  lemma RowSurvives(row: RunRow)
    requires row.Good()
    ensures Survives(ROW_CODEC, row)
  {
    var line := row.ToJsonLine();
    RowReadBack(row);
    LineHasNoBreak(row);
    LineIsNotEmpty(row);
    forall n | 0 <= n < |line|
      ensures ROW_CODEC.read(line[..n]) == None
    {
      TornLineNeverReads(row, n);
    }
    assert ROW_CODEC.show(row) == line;
  }

  lemma LineIsNotEmpty(row: RunRow)
    ensures row.ToJsonLine() != []
  {
  }
}
