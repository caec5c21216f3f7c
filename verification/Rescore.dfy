/** Re-scoring a stored run without calling a model again (measure_twice/runner.py). */
module Rescore {
  import opened Seqs
  import opened Json
  import opened LineStore
  import opened RunRows
  import opened RunHistory
  import opened Cells
  import opened Sweep

  /** `items_by_id[id]`. */
  function FindItem(items: seq<Item>, id: Json): Option<Item> {
    if items == [] then None
    else if Str(items[|items| - 1].id) == id then Some(items[|items| - 1])
    else FindItem(items[..|items| - 1], id)
  }

  predicate IsForcedZero(row: RunRow) { row.scorer == Str(NO_RESPONSE_SCORER) }

  predicate IsScoreable(row: RunRow) { row.error == Null && !IsForcedZero(row) }

  function Apply(row: RunRow, o: ScoreOutcome): RunRow {
    row.(parsed := OptStr(o.parsed), score := OptNum(o.score), scorer := OptStr(o.scorer))
  }

  /** The row `score_run` stores for `row`; None for its unknown-item error.  A row whose response is
      not a string would raise inside the scorer. */
  function ScoreRow(items: seq<Item>, scorer: Scorer, row: RunRow): Option<RunRow> {
    if !IsScoreable(row) then Some(row)
    else
      match (FindItem(items, row.itemId), row.responseRaw)
      case (Some(item), Str(raw)) => Some(Apply(row, scorer(item, raw)))
      case _ => None
  }

  predicate GetsScore(items: seq<Item>, scorer: Scorer, row: RunRow) {
    IsScoreable(row) && ScoreRow(items, scorer, row).Some? && ScoreRow(items, scorer, row).value.score != Null
  }

  function ScoreAll(items: seq<Item>, scorer: Scorer, rows: seq<RunRow>): Option<seq<RunRow>> {
    if rows == [] then Some([])
    else
      match (ScoreAll(items, scorer, rows[..|rows| - 1]), ScoreRow(items, scorer, rows[|rows| - 1]))
      case (Some(front), Some(last)) => Some(front + [last])
      case _ => None
  }

  function CountIf(p: RunRow -> bool, rows: seq<RunRow>): (n: nat)
    ensures n <= |rows|
  {
    if rows == [] then 0 else CountIf(p, rows[..|rows| - 1]) + if p(rows[|rows| - 1]) then 1 else 0
  }

  /** A count is the number of places where the condition holds. */
  lemma {:induction false} CountIfIs(p: RunRow -> bool, rows: seq<RunRow>)
    ensures CountIf(p, rows) == |set i | 0 <= i < |rows| && p(rows[i])|
    decreases |rows|
  {
    var places := set i | 0 <= i < |rows| && p(rows[i]);
    if rows != [] {
      var front, n := rows[..|rows| - 1], |rows| - 1;
      var before := set i | 0 <= i < |front| && p(front[i]);
      CountIfIs(p, front);
      assert places == before + if p(rows[n]) then {n} else {};
    }
  }

  datatype ScoreResult = ScoreResult(total: nat, scored: nat, noResponse: nat)

  /** `score_run`: the rewrite happens only after every row has been scored. */
  method ScoreRun(file: RowFile, c: Codec<RunRow>, items: seq<Item>, scorer: Scorer)
    returns (out: Option<ScoreResult>)
    modifies file
    ensures out.Some? <==>
      Read(c, old(file.text)).Rows? && ScoreAll(items, scorer, Read(c, old(file.text)).rows).Some?
    ensures out.None? ==> file.text == old(file.text)
    ensures out.Some? ==>
      var rows := Read(c, old(file.text)).rows;
      var rescored := ScoreAll(items, scorer, rows).value;
      && file.text == Some(Render(c, rescored))
      && out.value.total == |rows| == |rescored|
      && out.value.noResponse
         == |set i | 0 <= i < |rows| && rows[i].error == Null && rows[i].scorer == Str(Lit("no_response"))|
      && out.value.scored == |set i | 0 <= i < |rows| && rows[i].error == Null
           && rows[i].scorer != Str(Lit("no_response")) && rescored[i].score != Null|
  {
    var found := ReadRows(c, file.text);
    if found.Corrupt? {
      return None;
    }
    var rows, rescored, scored, noResponse := found.rows, [], 0, 0;
    ghost var p := (r: RunRow) => r.error == Null && IsForcedZero(r);
    ghost var q := (r: RunRow) => GetsScore(items, scorer, r);
    for i := 0 to |rows|
      invariant ScoreAll(items, scorer, rows[..i]) == Some(rescored)
      invariant noResponse == CountIf(p, rows[..i]) && scored == CountIf(q, rows[..i])
    {
      var row := rows[i];
      assert rows[..i + 1][..i] == rows[..i];
      if IsScoreable(row) {
        var item := FindItem(items, row.itemId);
        if item.None? || !row.responseRaw.Str? {
          ScoreAllFails(items, scorer, rows, i);
          return None;
        }
        var outcome := scorer(item.value, row.responseRaw.s);
        if outcome.score.Some? { scored := scored + 1; }
        row := Apply(row, outcome);
      } else if row.error == Null {
        noResponse := noResponse + 1;
      }
      rescored := rescored + [row];
    }
    assert rows[..|rows|] == rows;
    file.Rewrite(c, rescored);
    out := Some(ScoreResult(|rows|, scored, noResponse));
    ScoreCounts(items, scorer, rows);
  }

  lemma ScoreCounts(items: seq<Item>, scorer: Scorer, rows: seq<RunRow>)
    requires ScoreAll(items, scorer, rows).Some?
    ensures |ScoreAll(items, scorer, rows).value| == |rows|
    ensures CountIf((r: RunRow) => r.error == Null && IsForcedZero(r), rows)
         == |set i | 0 <= i < |rows| && rows[i].error == Null && rows[i].scorer == Str(Lit("no_response"))|
    ensures CountIf((r: RunRow) => GetsScore(items, scorer, r), rows)
         == |set i | 0 <= i < |rows| && rows[i].error == Null && rows[i].scorer != Str(Lit("no_response"))
                     && ScoreAll(items, scorer, rows).value[i].score != Null|
  {
    var p := (r: RunRow) => r.error == Null && IsForcedZero(r);
    var q := (r: RunRow) => GetsScore(items, scorer, r);
    var rescored := ScoreAll(items, scorer, rows).value;
    CountIfIs(p, rows);
    CountIfIs(q, rows);
    ScoreAllPointwise(items, scorer, rows);
    forall i | 0 <= i < |rows|
      ensures q(rows[i]) <==>
        rows[i].error == Null && rows[i].scorer != Str(Lit("no_response")) && rescored[i].score != Null
    {
      assert Some(rescored[i]) == ScoreRow(items, scorer, rows[i]);
    }
    assert (set i | 0 <= i < |rows| && p(rows[i]))
        == set i | 0 <= i < |rows| && rows[i].error == Null && rows[i].scorer == Str(Lit("no_response"));
    assert (set i | 0 <= i < |rows| && q(rows[i]))
        == set i | 0 <= i < |rows| && rows[i].error == Null && rows[i].scorer != Str(Lit("no_response"))
                   && rescored[i].score != Null;
  }

  lemma {:induction false} ScoreAllFails(items: seq<Item>, scorer: Scorer, rows: seq<RunRow>, i: nat)
    requires i < |rows| && ScoreRow(items, scorer, rows[i]).None?
    ensures ScoreAll(items, scorer, rows).None?
    decreases |rows|
  {
    if i < |rows| - 1 { ScoreAllFails(items, scorer, rows[..|rows| - 1], i); }
  }

  predicate HoldsScore(row: RunRow) { IsScoreable(row) && row.score != Null }

  type RunScorer = seq<RunRow> -> Option<seq<RunRow>>

  /** `score_run_batch`: whatever the run-level scorer does, an abort leaves the file byte for byte. */
  method ScoreRunBatch(file: RowFile, c: Codec<RunRow>, runScorer: RunScorer)
    returns (out: Option<ScoreResult>)
    modifies file
    ensures out.None? ==> file.text == old(file.text)
    ensures out.Some? <==>
      && Read(c, old(file.text)).Rows?
      && var rescored := runScorer(Read(c, old(file.text)).rows);
      && rescored.Some? && |rescored.value| == |Read(c, old(file.text)).rows|
    ensures out.Some? ==>
      var rescored := runScorer(Read(c, old(file.text)).rows).value;
      && file.text == Some(Render(c, rescored))
      && out.value.total == |rescored|
      && out.value.scored == |set i | 0 <= i < |rescored| && rescored[i].error == Null
           && rescored[i].scorer != Str(Lit("no_response")) && rescored[i].score != Null|
      && out.value.noResponse == |set i | 0 <= i < |rescored| && rescored[i].scorer == Str(Lit("no_response"))|
  {
    var found := ReadRows(c, file.text);
    if found.Corrupt? {
      return None;
    }
    var rescored := runScorer(found.rows);
    if rescored.None? || |rescored.value| != |found.rows| {
      return None;
    }
    file.Rewrite(c, rescored.value);
    out := Some(ScoreResult(|found.rows|, CountIf(HoldsScore, rescored.value), CountIf(IsForcedZero, rescored.value)));
    BatchCounts(rescored.value);
  }

  lemma BatchCounts(rows: seq<RunRow>)
    ensures CountIf(HoldsScore, rows) == |set i | 0 <= i < |rows| && rows[i].error == Null
              && rows[i].scorer != Str(Lit("no_response")) && rows[i].score != Null|
    ensures CountIf(IsForcedZero, rows) == |set i | 0 <= i < |rows| && rows[i].scorer == Str(Lit("no_response"))|
  {
    var p: RunRow -> bool, q: RunRow -> bool := HoldsScore, IsForcedZero;
    CountIfIs(p, rows);
    CountIfIs(q, rows);
    assert (set i | 0 <= i < |rows| && p(rows[i])) == set i | 0 <= i < |rows| && rows[i].error == Null
              && rows[i].scorer != Str(Lit("no_response")) && rows[i].score != Null;
    assert (set i | 0 <= i < |rows| && q(rows[i]))
        == set i | 0 <= i < |rows| && rows[i].scorer == Str(Lit("no_response"));
  }

  /** What one row becomes: itself after an error or a forced zero, and otherwise its own response scored
      against the last item of its id. */
  lemma {:induction false} ScoreRowIs(items: seq<Item>, scorer: Scorer, row: RunRow)
    ensures row.error != Null || row.scorer == Str(Lit("no_response")) ==> ScoreRow(items, scorer, row) == Some(row)
    ensures row.error == Null && row.scorer != Str(Lit("no_response")) ==>
      forall k :: 0 <= k < |items| && Str(items[k].id) == row.itemId && row.responseRaw.Str?
                  && (forall m :: k < m < |items| ==> Str(items[m].id) != row.itemId) ==>
        var outcome := scorer(items[k], row.responseRaw.s);
        ScoreRow(items, scorer, row)
        == Some(row.(parsed := OptStr(outcome.parsed), score := OptNum(outcome.score), scorer := OptStr(outcome.scorer)))
    ensures ScoreRow(items, scorer, row).None? <==>
      && row.error == Null && row.scorer != Str(Lit("no_response"))
      && (row.responseRaw.Str? ==> forall k :: 0 <= k < |items| ==> Str(items[k].id) != row.itemId)
  {
    FindItemIsLast(items, row.itemId);
  }

  lemma {:induction false} FindItemIsLast(items: seq<Item>, id: Json)
    ensures FindItem(items, id).None? <==> forall k :: 0 <= k < |items| ==> Str(items[k].id) != id
    ensures forall k :: 0 <= k < |items| && Str(items[k].id) == id
                        && (forall m :: k < m < |items| ==> Str(items[m].id) != id) ==>
      FindItem(items, id) == Some(items[k])
    decreases |items|
  {
    if items != [] {
      var n := |items| - 1;
      FindItemIsLast(items[..n], id);
      assert forall k :: 0 <= k < n ==> items[..n][k] == items[k];
    }
  }

  // ----- What re-scoring keeps ----------------------------------------------------------------------

  lemma {:induction false} ScoreAllPointwise(items: seq<Item>, scorer: Scorer, rows: seq<RunRow>)
    ensures ScoreAll(items, scorer, rows).Some? <==> forall i :: 0 <= i < |rows| ==> ScoreRow(items, scorer, rows[i]).Some?
    ensures ScoreAll(items, scorer, rows).Some? ==>
      && |ScoreAll(items, scorer, rows).value| == |rows|
      && forall i :: 0 <= i < |rows| ==> Some(ScoreAll(items, scorer, rows).value[i]) == ScoreRow(items, scorer, rows[i])
    decreases |rows|
  {
    if rows != [] {
      var front := rows[..|rows| - 1];
      ScoreAllPointwise(items, scorer, front);
      assert rows == front + [rows[|rows| - 1]];
    }
  }

  /** Identity, raw response and error never change; error rows and forced zeros do not change at all. */
  lemma ScoreKeepsEvidence(items: seq<Item>, scorer: Scorer, rows: seq<RunRow>)
    requires ScoreAll(items, scorer, rows).Some?
    ensures Rescored(rows, ScoreAll(items, scorer, rows).value)
    ensures forall i :: 0 <= i < |rows| && !IsScoreable(rows[i]) ==> ScoreAll(items, scorer, rows).value[i] == rows[i]
    ensures forall i :: 0 <= i < |rows| ==> ScoreAll(items, scorer, rows).value[i].judgeScores == rows[i].judgeScores
  {
    ScoreAllPointwise(items, scorer, rows);
    var rows' := ScoreAll(items, scorer, rows).value;
    forall i | 0 <= i < |rows|
      ensures SameEvidence(rows[i], rows'[i]) && rows'[i].judgeScores == rows[i].judgeScores
    {
      assert Some(rows'[i]) == ScoreRow(items, scorer, rows[i]);
    }
  }

  // ----- The rubric judge as a run-level scorer -----------------------------------------------------

  /** What the judges make of one row: the median or the parse-failure marker, the score, and the
      per-judge medians. */
  datatype Judgement = Judgement(parsed: Text, score: Text, judgeScores: seq<Text>)

  const RUBRIC_SCORER: Text := Lit("rubric")

  function Numbers(tokens: seq<Text>): seq<Json> { seq(|tokens|, i requires 0 <= i < |tokens| => Num(tokens[i])) }

  function Judged(row: RunRow, j: Judgement): RunRow {
    row.(parsed := Str(j.parsed), score := Num(j.score), scorer := Str(RUBRIC_SCORER),
         judgeScores := if j.judgeScores == [] then Null else Arr(Numbers(j.judgeScores)))
  }

  /** The rows that are judged, in order. */
  function Scoreable(rows: seq<RunRow>): seq<RunRow> {
    if rows == [] then []
    else Scoreable(rows[..|rows| - 1]) + if IsScoreable(rows[|rows| - 1]) then [rows[|rows| - 1]] else []
  }

  /** The judgements written back, each to the row it was made for. */
  function WriteBack(rows: seq<RunRow>, js: seq<Judgement>): (r: seq<RunRow>)
    requires |js| == |Scoreable(rows)|
    ensures |r| == |rows|
  {
    if rows == [] then []
    else
      var front, last := rows[..|rows| - 1], rows[|rows| - 1];
      if IsScoreable(last) then WriteBack(front, js[..|js| - 1]) + [Judged(last, js[|js| - 1])]
      else WriteBack(front, js) + [last]
  }

  /** `make_rubric_run_scorer`: an unknown item or a judge that fails too often aborts. */
  function RubricScorer(items: seq<Item>, judge: seq<RunRow> -> Option<seq<Judgement>>): RunScorer {
    (rows: seq<RunRow>) =>
      var asked := Scoreable(rows);
      var js := judge(asked);
      if exists i :: 0 <= i < |asked| && FindItem(items, asked[i].itemId).None? then None
      else if js.None? || |js.value| != |asked| then None
      else Some(WriteBack(rows, js.value))
  }

  lemma {:induction false} WriteBackAt(rows: seq<RunRow>, js: seq<Judgement>, i: nat)
    requires |js| == |Scoreable(rows)| && i < |rows|
    ensures SameEvidence(rows[i], WriteBack(rows, js)[i])
    ensures !IsScoreable(rows[i]) ==> WriteBack(rows, js)[i] == rows[i]
    decreases |rows|
  {
    var front, last := rows[..|rows| - 1], rows[|rows| - 1];
    if i < |front| { WriteBackAt(front, if IsScoreable(last) then js[..|js| - 1] else js, i); }
  }

  /** Judging keeps identity, response and error, and leaves error rows and forced zeros alone. */
  lemma WriteBackKeepsEvidence(rows: seq<RunRow>, js: seq<Judgement>)
    requires |js| == |Scoreable(rows)|
    ensures Rescored(rows, WriteBack(rows, js))
    ensures forall i :: 0 <= i < |rows| && !IsScoreable(rows[i]) ==> WriteBack(rows, js)[i] == rows[i]
  {
    forall i | 0 <= i < |rows|
      ensures SameEvidence(rows[i], WriteBack(rows, js)[i])
      ensures !IsScoreable(rows[i]) ==> WriteBack(rows, js)[i] == rows[i]
    {
      WriteBackAt(rows, js, i);
    }
  }

  /** The judgement of the `i`th row is the one asked for as the number of scoreable rows before it. */
  lemma {:induction false} WriteBackPlaces(rows: seq<RunRow>, js: seq<Judgement>, i: nat)
    requires |js| == |Scoreable(rows)| && i < |rows| && IsScoreable(rows[i])
    ensures |Scoreable(rows[..i])| < |js| && Scoreable(rows)[|Scoreable(rows[..i])|] == rows[i]
    ensures var was, now, j := rows[i], WriteBack(rows, js)[i], js[|Scoreable(rows[..i])|];
      && now == was.(parsed := Str(j.parsed), score := Num(j.score), scorer := Str(Lit("rubric")),
                     judgeScores := now.judgeScores)
      && (now.judgeScores == Null <==> j.judgeScores == [])
      && (j.judgeScores != [] ==> now.judgeScores == Arr(Numbers(j.judgeScores)))
    decreases |rows|
  {
    var front, last := rows[..|rows| - 1], rows[|rows| - 1];
    if i < |front| {
      assert front[..i] == rows[..i];
      WriteBackPlaces(front, if IsScoreable(last) then js[..|js| - 1] else js, i);
    }
  }

  /** A run-level scorer that keeps the evidence, as it is trusted to and as the rubric judge does,
      makes a step of the store's history. */
  ghost predicate KeepsEvidence(c: Codec<RunRow>, runScorer: RunScorer, rows: seq<RunRow>) {
    var r := runScorer(rows);
    r.Some? && |r.value| == |rows| ==> Rescored(rows, r.value) && (AllGood(c, rows) ==> AllGood(c, r.value))
  }

  lemma BatchIsAStep(c: Codec<RunRow>, runScorer: RunScorer, before: File, after: File)
    requires Read(c, before).Rows? && AllGood(c, Read(c, before).rows) && KeepsEvidence(c, runScorer, Read(c, before).rows)
    requires var r := runScorer(Read(c, before).rows);
      r.Some? && |r.value| == |Read(c, before).rows| && after == Some(Render(c, r.value))
    ensures ScoreStep(c, before, after)
  {
    var rows' := runScorer(Read(c, before).rows).value;
    assert Rescored(Read(c, before).rows, rows');
  }

  lemma {:induction false} ScoreableAre(rows: seq<RunRow>, row: RunRow)
    ensures row in Scoreable(rows) <==> row in rows && row.error == Null && row.scorer != Str(Lit("no_response"))
    decreases |rows|
  {
    if rows != [] {
      var front, last := rows[..|rows| - 1], rows[|rows| - 1];
      ScoreableAre(front, row);
      assert rows == front + [last];
    }
  }

  /** The rubric judge refuses a run exactly when a row to be judged has no item, or the judges abort or
      do not answer once for each such row. */
  lemma RubricRefusesExactly(items: seq<Item>, judge: seq<RunRow> -> Option<seq<Judgement>>, rows: seq<RunRow>)
    ensures RubricScorer(items, judge)(rows) == None <==>
      || (exists row :: row in rows && row.error == Null && row.scorer != Str(Lit("no_response"))
            && forall k :: 0 <= k < |items| ==> Str(items[k].id) != row.itemId)
      || judge(Scoreable(rows)) == None || |judge(Scoreable(rows)).value| != |Scoreable(rows)|
  {
    var asked := Scoreable(rows);
    forall row
      ensures row in asked <==> row in rows && row.error == Null && row.scorer != Str(Lit("no_response"))
      ensures FindItem(items, row.itemId).None? <==> forall k :: 0 <= k < |items| ==> Str(items[k].id) != row.itemId
    {
      ScoreableAre(rows, row);
      FindItemIsLast(items, row.itemId);
    }
    assert (exists i :: 0 <= i < |asked| && FindItem(items, asked[i].itemId).None?)
      <==> exists row :: row in asked && FindItem(items, row.itemId).None?;
  }

  lemma RubricKeepsEvidence(items: seq<Item>, judge: seq<RunRow> -> Option<seq<Judgement>>, rows: seq<RunRow>)
    requires RubricScorer(items, judge)(rows).Some?
    ensures Rescored(rows, RubricScorer(items, judge)(rows).value)
  {
    WriteBackKeepsEvidence(rows, judge(Scoreable(rows)).value);
  }

  /** A successful re-score is a step of the store's history. */
  lemma ScoreIsAStep(c: Codec<RunRow>, items: seq<Item>, scorer: Scorer, before: File, after: File)
    requires Read(c, before).Rows? && ScoreAll(items, scorer, Read(c, before).rows).Some?
    requires AllGood(c, ScoreAll(items, scorer, Read(c, before).rows).value)
    requires after == Some(Render(c, ScoreAll(items, scorer, Read(c, before).rows).value))
    ensures ScoreStep(c, before, after)
  {
    ScoreKeepsEvidence(items, scorer, Read(c, before).rows);
  }

  lemma {:induction false} FindItemFinds(items: seq<Item>, item: Item)
    requires DistinctIds(items) && item in items
    ensures FindItem(items, Str(item.id)) == Some(item)
    decreases |items|
  {
    var last := items[|items| - 1];
    if last.id == item.id {
      var i :| 0 <= i < |items| && items[i] == item;
    } else {
      var front := items[..|items| - 1];
      assert items == front + [last];
      FindItemFinds(front, item);
    }
  }

  /** Collecting a call and scoring it later gives the row that scoring it at once gives. */
  lemma CollectThenScoreRow(items: seq<Item>, runId: Text, cell: Cell, result: CallResult, scorer: Scorer)
    requires DistinctIds(items) && cell.item in items
    ensures ScoreRow(items, scorer, BuildRow(runId, cell, result, CollectOnly))
         == Some(BuildRow(runId, cell, result, scorer))
  {
    FindItemFinds(items, cell.item);
  }

  /** Collect-only over a whole sweep, then `score_run`, equals scoring inline. */
  lemma CollectThenScore(items: seq<Item>, env: Env, cells: seq<Cell>, scorer: Scorer)
    requires DistinctIds(items) && forall cell :: cell in cells ==> cell.item in items
    ensures ScoreAll(items, scorer, RowsOf(env.(scorer := CollectOnly), cells))
         == Some(RowsOf(env.(scorer := scorer), cells))
  {
    var rows := RowsOf(env.(scorer := CollectOnly), cells);
    forall i | 0 <= i < |cells|
      ensures ScoreRow(items, scorer, rows[i]) == Some(RowOf(env.(scorer := scorer), cells[i]))
    {
      assert cells[i] in cells;
      CollectThenScoreRow(items, env.runId, cells[i], env.calls(cells[i]), scorer);
    }
    ScoreAllPointwise(items, scorer, rows);
    assert ScoreAll(items, scorer, rows).value == RowsOf(env.(scorer := scorer), cells);
  }

  predicate Reserved(o: ScoreOutcome) { o.scorer == Some(NO_RESPONSE_SCORER) }

  /** Scoring again with another scorer forgets the first one, unless the first one answered with the
      reserved name: then the row is frozen, and the two agree exactly when the outcomes do. */
  lemma RescoreForgetsExactly(items: seq<Item>, first: Scorer, second: Scorer, row: RunRow)
    requires IsScoreable(row) && row.responseRaw.Str? && FindItem(items, row.itemId).Some?
    ensures var item, raw := FindItem(items, row.itemId).value, row.responseRaw.s;
      ScoreRow(items, second, ScoreRow(items, first, row).value) == ScoreRow(items, second, row)
      <==> !Reserved(first(item, raw)) || Apply(row, first(item, raw)) == Apply(row, second(item, raw))
  {
  }

  /** Re-scoring with the same scorer twice is re-scoring once. */
  lemma ScoreIsIdempotent(items: seq<Item>, scorer: Scorer, rows: seq<RunRow>)
    requires ScoreAll(items, scorer, rows).Some?
    ensures ScoreAll(items, scorer, ScoreAll(items, scorer, rows).value) == ScoreAll(items, scorer, rows)
  {
    ScoreAllPointwise(items, scorer, rows);
    var once := ScoreAll(items, scorer, rows).value;
    forall i | 0 <= i < |rows|
      ensures ScoreRow(items, scorer, once[i]) == Some(once[i])
    {
      assert Some(once[i]) == ScoreRow(items, scorer, rows[i]);
    }
    ScoreAllPointwise(items, scorer, once);
    assert ScoreAll(items, scorer, once).value == once;
  }

  lemma ScoreKeepsKeys(items: seq<Item>, scorer: Scorer, rows: seq<RunRow>)
    requires ScoreAll(items, scorer, rows).Some?
    ensures RowKeys(ScoreAll(items, scorer, rows).value) == RowKeys(rows)
  {
    ScoreKeepsEvidence(items, scorer, rows);
    var rows' := ScoreAll(items, scorer, rows).value;
    assert forall i :: 0 <= i < |rows| ==> SameEvidence(rows[i], rows'[i]);
    forall k
      ensures k in RowKeys(rows) <==> k in RowKeys(rows')
    {
      if k in RowKeys(rows) {
        var row :| row in rows && row.CellKey() == k;
        var i :| 0 <= i < |rows| && rows[i] == row;
        assert rows'[i] in rows' && rows'[i].CellKey() == k;
      }
      if k in RowKeys(rows') {
        var row :| row in rows' && row.CellKey() == k;
        var i :| 0 <= i < |rows'| && rows'[i] == row;
        assert rows[i] in rows && rows[i].CellKey() == k;
      }
    }
  }

  lemma {:induction false} ScoreAllConcat(items: seq<Item>, scorer: Scorer, a: seq<RunRow>, b: seq<RunRow>)
    requires ScoreAll(items, scorer, a).Some? && ScoreAll(items, scorer, b).Some?
    ensures ScoreAll(items, scorer, a + b) == Some(ScoreAll(items, scorer, a).value + ScoreAll(items, scorer, b).value)
    decreases |b|
  {
    if b == [] {
      assert a + b == a && ScoreAll(items, scorer, a).value + [] == ScoreAll(items, scorer, a).value;
    } else {
      var front, last := b[..|b| - 1], b[|b| - 1];
      assert (a + b)[..|a + b| - 1] == a + front && (a + b)[|a + b| - 1] == last;
      ScoreAllConcat(items, scorer, a, front);
      ConcatThree(ScoreAll(items, scorer, a).value, ScoreAll(items, scorer, front).value,
                  [ScoreRow(items, scorer, last).value]);
    }
  }

  /** Re-scoring commutes with a later resume: the pending cells are the same, and collecting the rest
      then scoring everything gives the rows of scoring first and sweeping the rest with the scorer. */
  lemma ScoreCommutesWithResume(config: Config, env: Env, existing: seq<RunRow>, cells: seq<Cell>, scorer: Scorer)
    requires config.samples >= 0 && DistinctIds(config.items)
    requires ScoreAll(config.items, scorer, existing).Some?
    requires forall cell :: cell in cells ==> cell in PendingFor(config, existing)
    ensures PendingFor(config, ScoreAll(config.items, scorer, existing).value) == PendingFor(config, existing)
    ensures ScoreAll(config.items, scorer, existing + RowsOf(env.(scorer := CollectOnly), cells))
         == Some(ScoreAll(config.items, scorer, existing).value + RowsOf(env.(scorer := scorer), cells))
  {
    ScoreKeepsKeys(config.items, scorer, existing);
    PendingAllAre(Dedup(config.roster), config.items, config.samples, RowKeys(existing));
    CollectThenScore(config.items, env, cells, scorer);
    ScoreAllConcat(config.items, scorer, existing, RowsOf(env.(scorer := CollectOnly), cells));
  }
}
