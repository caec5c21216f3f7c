/** Everything that is ever done to one run's store, performed: sweeps that return, stop or die,
    resumes, and both kinds of re-scoring, in any order (measure_twice/runner.py). */
module Session {
  import opened Seqs
  import opened Json
  import opened LineStore
  import opened RunRows
  import opened RunHistory
  import opened Cells
  import opened Sweep
  import opened Rescore

  /** One command on the store. */
  datatype Invocation =
    | SweepCells(env: Env, maxCalls: int, death: Option<Death>)
    | ScoreCells(scorer: Scorer)
    | ScoreRows(runScorer: RunScorer)

  /** What is scored stays printable. */
  ghost predicate ScoresGoodRows(c: Codec<RunRow>, items: seq<Item>, scorer: Scorer) {
    forall row :: c.good(row) && ScoreRow(items, scorer, row).Some? ==> c.good(ScoreRow(items, scorer, row).value)
  }

  ghost predicate Behaved(c: Codec<RunRow>, config: Config, invocation: Invocation)
    requires config.samples >= 0
  {
    match invocation
    case SweepCells(env, _, _) => WritesGoodRows(c, config, env)
    case ScoreCells(scorer) => ScoresGoodRows(c, config.items, scorer)
    case ScoreRows(runScorer) => forall rows :: KeepsEvidence(c, runScorer, rows)
  }

  lemma ScoreAllIsGood(c: Codec<RunRow>, items: seq<Item>, scorer: Scorer, rows: seq<RunRow>)
    requires AllGood(c, rows) && ScoresGoodRows(c, items, scorer) && ScoreAll(items, scorer, rows).Some?
    ensures AllGood(c, ScoreAll(items, scorer, rows).value)
  {
    ScoreAllPointwise(items, scorer, rows);
    var rescored := ScoreAll(items, scorer, rows).value;
    forall i | 0 <= i < |rescored| ensures c.good(rescored[i]) {
      assert Some(rescored[i]) == ScoreRow(items, scorer, rows[i]) && c.good(rows[i]);
    }
  }

  /** `run`: its budget when it returned, and a step of the history in any case. */
  method PerformSweep(file: RowFile, c: Codec<RunRow>, config: Config, env: Env, maxCalls: int, death: Option<Death>)
    returns (budget: Option<nat>)
    requires config.samples >= 0 && config.pool >= 1 && DistinctIds(config.items) && Faithful(c)
    requires WritesGoodRows(c, config, env) && Sound(c, KeysFor(config), file.text)
    modifies file
    ensures RunStep(c, KeysFor(config), old(file.text), file.text)
    ensures budget.Some? ==> CompletedRun(c, KeysFor(config), budget.value, old(file.text), file.text)
    ensures Read(c, old(file.text)).Rows?
    ensures budget.Some? <==>
      death.None? && Accepts(config, maxCalls) && config.ready(RowKeys(Read(c, old(file.text)).rows))
    ensures budget.Some? ==> budget.value == maxCalls
  {
    SoundReads(c, KeysFor(config), file.text);
    var out, w := Run(file, c, config, env, maxCalls, death);
    if !out.Refused? && death != Some(AtOpen) {
      RunIsAStep(c, config, env, w, old(file.text), file.text, if maxCalls < 0 then 0 else maxCalls);
    }
    budget := if out.Finished? then Some(maxCalls) else None;
  }

  /** `score_run`. */
  method PerformScore(file: RowFile, c: Codec<RunRow>, config: Config, scorer: Scorer)
    requires config.samples >= 0 && Faithful(c) && ScoresGoodRows(c, config.items, scorer)
    requires Sound(c, KeysFor(config), file.text)
    modifies file
    ensures ScoreStep(c, old(file.text), file.text)
  {
    ghost var before := file.text;
    SoundReads(c, KeysFor(config), before);
    var out := ScoreRun(file, c, config.items, scorer);
    if out.Some? {
      ScoreAllIsGood(c, config.items, scorer, Read(c, before).rows);
      ScoreIsAStep(c, config.items, scorer, before, file.text);
    }
  }

  /** `score_run_batch`. */
  method PerformBatch(file: RowFile, c: Codec<RunRow>, config: Config, runScorer: RunScorer)
    requires config.samples >= 0 && Faithful(c) && forall rows :: KeepsEvidence(c, runScorer, rows)
    requires Sound(c, KeysFor(config), file.text)
    modifies file
    ensures ScoreStep(c, old(file.text), file.text)
  {
    ghost var before := file.text;
    SoundReads(c, KeysFor(config), before);
    var out := ScoreRunBatch(file, c, runScorer);
    if out.Some? { BatchIsAStep(c, runScorer, before, file.text); }
  }

  method Perform(file: RowFile, c: Codec<RunRow>, config: Config, invocation: Invocation) returns (budget: Option<nat>)
    requires config.samples >= 0 && config.pool >= 1 && DistinctIds(config.items) && Faithful(c)
    requires Behaved(c, config, invocation) && Sound(c, KeysFor(config), file.text)
    modifies file
    ensures Step(c, KeysFor(config), old(file.text), file.text)
    ensures budget.Some? ==> CompletedRun(c, KeysFor(config), budget.value, old(file.text), file.text)
    ensures budget.Some? ==>
      invocation.SweepCells? && invocation.maxCalls == budget.value && invocation.death.None?
  {
    budget := None;
    match invocation
    case SweepCells(env, maxCalls, death) => budget := PerformSweep(file, c, config, env, maxCalls, death);
    case ScoreCells(scorer) => PerformScore(file, c, config, scorer);
    case ScoreRows(runScorer) => PerformBatch(file, c, config, runScorer);
  }

  lemma HistoryGrows(c: Codec<RunRow>, keys: set<Key>, files: seq<File>, budgets: seq<Option<nat>>, after: File,
                     budget: Option<nat>)
    requires BudgetedHistory(c, keys, files, budgets) && Step(c, keys, files[|files| - 1], after)
    requires budget.Some? ==> CompletedRun(c, keys, budget.value, files[|files| - 1], after)
    ensures BudgetedHistory(c, keys, files + [after], budgets + [budget])
  {
    var more, n := files + [after], |files| - 1;
    forall i | 0 <= i < |more| - 1 ensures Step(c, keys, more[i], more[i + 1]) {
      if i < n { assert Step(c, keys, files[i], files[i + 1]); } else { assert more[i] == files[n] && more[i + 1] == after; }
    }
    forall i | 0 <= i < |budgets| + 1 && (budgets + [budget])[i].Some?
      ensures CompletedRun(c, keys, (budgets + [budget])[i].value, more[i], more[i + 1])
    {
      if i < n { assert CompletedRun(c, keys, budgets[i].value, files[i], files[i + 1]); }
    }
  }

  /** Whatever is done to the store of one run, in whatever order and with a crash anywhere, is one of
      its histories: the file reads back to one row per cell of the sweep, and the rows reach the sum
      of the budgets of the sweeps that returned, or all cells. */
  method PerformAll(file: RowFile, c: Codec<RunRow>, config: Config, invocations: seq<Invocation>)
    returns (budgets: seq<Option<nat>>, ghost files: seq<File>)
    requires config.samples >= 0 && config.pool >= 1 && DistinctIds(config.items) && Faithful(c)
    requires forall i :: 0 <= i < |invocations| ==> Behaved(c, config, invocations[i])
    requires file.text == None
    modifies file
    ensures BudgetedHistory(c, KeysFor(config), files, budgets) && files[|files| - 1] == file.text
    ensures |budgets| == |invocations|
    ensures forall i :: 0 <= i < |budgets| && budgets[i].Some? ==>
      invocations[i].SweepCells? && invocations[i].maxCalls == budgets[i].value
    ensures Read(c, file.text).Rows? && Tidy(c, KeysFor(config), Read(c, file.text).rows)
    ensures Min(Spent(budgets), |KeysFor(config)|) <= |Read(c, file.text).rows| <= |KeysFor(config)|
  {
    ghost var keys := KeysFor(config);
    budgets, files := [], [file.text];
    for i := 0 to |invocations|
      invariant BudgetedHistory(c, keys, files, budgets) && files[|files| - 1] == file.text && |budgets| == i
      invariant forall k :: 0 <= k < i && budgets[k].Some? ==>
        invocations[k].SweepCells? && invocations[k].maxCalls == budgets[k].value
    {
      HistoryIsSound(c, keys, files, |files| - 1);
      var budget := Perform(file, c, config, invocations[i]);
      HistoryGrows(c, keys, files, budgets, file.text, budget);
      budgets, files := budgets + [budget], files + [file.text];
    }
    HistoryIsSafe(c, keys, files, |files| - 1, |files| - 1);
    ResumesFinish(c, keys, files, budgets);
  }
}
