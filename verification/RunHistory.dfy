/** Every history of one run's `rows.jsonl`: fresh run, crash at any byte, budget stop, resume and
    re-score, in any order (measure_twice/runner.py). */
module RunHistory {
  import opened Seqs
  import opened Json
  import opened LineStore
  import opened RunRows

  type File = Option<Text>

  /** Rows the codec is meant for, one per cell, each for a cell of the sweep. */
  ghost predicate Tidy(c: Codec<RunRow>, keys: set<Key>, rows: seq<RunRow>) {
    && AllGood(c, rows)
    && (forall i :: 0 <= i < |rows| ==> rows[i].CellKey() in keys)
    && (forall i, j :: 0 <= i < j < |rows| ==> rows[i].CellKey() != rows[j].CellKey())
  }

  function WithTorn(shape: Shape<RunRow>): seq<RunRow> {
    if shape.torn.Some? then shape.rows + [shape.torn.value.0] else shape.rows
  }

  ghost predicate TidyShape(c: Codec<RunRow>, keys: set<Key>, shape: Shape<RunRow>) {
    WellShaped(c, shape) && Tidy(c, keys, WithTorn(shape))
  }

  ghost predicate Sound(c: Codec<RunRow>, keys: set<Key>, file: File) {
    file.None? || exists shape :: TidyShape(c, keys, shape) && file == Some(Bytes(c, shape))
  }

  // ----- Steps ------------------------------------------------------------------------------------

  /** A run that found `existing` rows leaves them, then `added`, then perhaps one torn row, all for
      cells that had no row. */
  ghost predicate RunWrites(c: Codec<RunRow>, keys: set<Key>, existing: seq<RunRow>, added: seq<RunRow>,
                            torn: Option<(RunRow, nat)>, after: File)
  {
    var shape := Shape(existing + added, torn);
    && (Tidy(c, keys, existing) ==> TidyShape(c, keys, shape))
    && after == Some(Bytes(c, shape))
  }

  /** One invocation of `run` on the store, ended by success, budget, refusal or a crash. */
  ghost predicate RunStep(c: Codec<RunRow>, keys: set<Key>, before: File, after: File) {
    || after == before
    || (Read(c, before).Rows? && exists added, torn :: RunWrites(c, keys, Read(c, before).rows, added, torn, after))
  }

  /** Nothing but the scored fields differ. */
  predicate SameEvidence(a: RunRow, b: RunRow) {
    b == a.(parsed := b.parsed, score := b.score, scorer := b.scorer, judgeScores := b.judgeScores)
  }

  ghost predicate Rescored(rows: seq<RunRow>, rows': seq<RunRow>) {
    |rows'| == |rows| && forall i :: 0 <= i < |rows| ==> SameEvidence(rows[i], rows'[i])
  }

  /** One invocation of `score_run` or `score_run_batch`; its rewrite is atomic. */
  ghost predicate ScoreStep(c: Codec<RunRow>, before: File, after: File) {
    || after == before
    || (Read(c, before).Rows? && exists rows': seq<RunRow> ::
          Rescored(Read(c, before).rows, rows') && AllGood(c, rows') && after == Some(Render(c, rows')))
  }

  ghost predicate Step(c: Codec<RunRow>, keys: set<Key>, before: File, after: File) {
    RunStep(c, keys, before, after) || ScoreStep(c, before, after)
  }

  ghost predicate History(c: Codec<RunRow>, keys: set<Key>, files: seq<File>) {
    && |files| > 0 && files[0] == None
    && forall i :: 0 <= i < |files| - 1 ==> Step(c, keys, files[i], files[i + 1])
  }

  /** The rows of `a` head the rows of `b`, evidence unchanged. */
  ghost predicate Kept(a: seq<RunRow>, b: seq<RunRow>) {
    |a| <= |b| && forall i :: 0 <= i < |a| ==> SameEvidence(a[i], b[i])
  }

  lemma TidyShapeReads(c: Codec<RunRow>, keys: set<Key>, shape: Shape<RunRow>)
    requires Faithful(c) && TidyShape(c, keys, shape)
    ensures Read(c, Some(Bytes(c, shape))) == Rows(Durable(c, shape), Tail(c, shape) != [])
    ensures Tidy(c, keys, Durable(c, shape))
  {
    ReadShape(c, shape);
    assert Durable(c, shape) <= WithTorn(shape);
    assert forall k :: 0 <= k < |Durable(c, shape)| ==> Durable(c, shape)[k] == WithTorn(shape)[k];
  }

  lemma SoundReads(c: Codec<RunRow>, keys: set<Key>, file: File)
    requires Faithful(c) && Sound(c, keys, file)
    ensures Read(c, file).Rows? && Tidy(c, keys, Read(c, file).rows)
  {
    if file.Some? {
      var shape :| TidyShape(c, keys, shape) && file == Some(Bytes(c, shape));
      TidyShapeReads(c, keys, shape);
    }
  }

  lemma RunStepIsSafe(c: Codec<RunRow>, keys: set<Key>, before: File, after: File)
    requires Faithful(c) && Sound(c, keys, before) && RunStep(c, keys, before, after)
    ensures Sound(c, keys, after) && Read(c, after).Rows? && Read(c, before).Rows?
    ensures Read(c, before).rows <= Read(c, after).rows
  {
    SoundReads(c, keys, before);
    if after != before {
      var added, torn :| RunWrites(c, keys, Read(c, before).rows, added, torn, after);
      TidyShapeReads(c, keys, Shape(Read(c, before).rows + added, torn));
    }
  }

  lemma ScoreStepIsSafe(c: Codec<RunRow>, keys: set<Key>, before: File, after: File)
    requires Faithful(c) && Sound(c, keys, before) && ScoreStep(c, before, after)
    ensures Sound(c, keys, after) && Read(c, after).Rows? && Read(c, before).Rows?
    ensures Rescored(Read(c, before).rows, Read(c, after).rows)
  {
    SoundReads(c, keys, before);
    if after != before {
      var rows': seq<RunRow> :| Rescored(Read(c, before).rows, rows') && AllGood(c, rows') && after == Some(Render(c, rows'));
      forall i | 0 <= i < |rows'|
        ensures rows'[i].CellKey() == Read(c, before).rows[i].CellKey()
      {
        assert SameEvidence(Read(c, before).rows[i], rows'[i]);
      }
      var shape := Shape(rows', None);
      assert TidyShape(c, keys, shape);
      assert Bytes(c, shape) == Render(c, rows');
      TidyShapeReads(c, keys, shape);
    }
  }

  /** A row durable before a step is still there after it, in place and with its evidence. */
  lemma StepIsSafe(c: Codec<RunRow>, keys: set<Key>, before: File, after: File)
    requires Faithful(c) && Sound(c, keys, before) && Step(c, keys, before, after)
    ensures Sound(c, keys, after) && Read(c, after).Rows? && Read(c, before).Rows?
    ensures Kept(Read(c, before).rows, Read(c, after).rows)
  {
    if RunStep(c, keys, before, after) {
      RunStepIsSafe(c, keys, before, after);
      PrefixIsKept(Read(c, before).rows, Read(c, after).rows);
    } else {
      ScoreStepIsSafe(c, keys, before, after);
    }
  }

  lemma PrefixIsKept(a: seq<RunRow>, b: seq<RunRow>)
    requires a <= b
    ensures Kept(a, b)
  {
  }

  lemma KeptTwice(a: seq<RunRow>, b: seq<RunRow>, c: seq<RunRow>)
    requires Kept(a, b) && Kept(b, c)
    ensures Kept(a, c)
  {
    forall i | 0 <= i < |a|
      ensures SameEvidence(a[i], c[i])
    {
      assert SameEvidence(a[i], b[i]) && SameEvidence(b[i], c[i]);
    }
  }

  lemma {:induction false} HistoryIsSound(c: Codec<RunRow>, keys: set<Key>, files: seq<File>, n: nat)
    requires Faithful(c) && History(c, keys, files) && n < |files|
    ensures Sound(c, keys, files[n])
    decreases n
  {
    if n > 0 {
      HistoryIsSound(c, keys, files, n - 1);
      assert Step(c, keys, files[n - 1], files[n - 1 + 1]);
      StepIsSafe(c, keys, files[n - 1], files[n]);
    }
  }

  /** At every point of every history the store reads back to one row per cell, each for a cell of
      the sweep, and every row durable at an earlier point is still in its place with its evidence. */
  lemma {:induction false} HistoryIsSafe(c: Codec<RunRow>, keys: set<Key>, files: seq<File>, m: nat, n: nat)
    requires Faithful(c) && History(c, keys, files) && m <= n < |files|
    ensures Read(c, files[m]).Rows? && Read(c, files[n]).Rows?
    ensures Tidy(c, keys, Read(c, files[n]).rows)
    ensures Kept(Read(c, files[m]).rows, Read(c, files[n]).rows)
    decreases n - m
  {
    HistoryIsSound(c, keys, files, n);
    SoundReads(c, keys, files[n]);
    if m < n {
      HistoryIsSafe(c, keys, files, m, n - 1);
      HistoryIsSound(c, keys, files, n - 1);
      assert Step(c, keys, files[n - 1], files[n - 1 + 1]);
      StepIsSafe(c, keys, files[n - 1], files[n]);
      KeptTwice(Read(c, files[m]).rows, Read(c, files[n - 1]).rows, Read(c, files[n]).rows);
    } else {
      PrefixIsKept(Read(c, files[m]).rows, Read(c, files[n]).rows);
    }
  }

  /** The same of the store the runner writes: JSON lines. */
  lemma RunStoreIsSafe(keys: set<Key>, files: seq<File>, m: nat, n: nat)
    requires History(ROW_CODEC, keys, files) && m <= n < |files|
    ensures Read(ROW_CODEC, files[m]).Rows? && Read(ROW_CODEC, files[n]).Rows?
    ensures Tidy(ROW_CODEC, keys, Read(ROW_CODEC, files[n]).rows)
    ensures Kept(Read(ROW_CODEC, files[m]).rows, Read(ROW_CODEC, files[n]).rows)
  {
    RowCodecIsFaithful();
    HistoryIsSafe(ROW_CODEC, keys, files, m, n);
  }

  // ----- Progress -----------------------------------------------------------------------------------

  /** A run that returned normally: it wrote one row for each cell its budget reached. */
  ghost predicate CompletedRun(c: Codec<RunRow>, keys: set<Key>, maxCalls: nat, before: File, after: File) {
    Read(c, before).Rows? && exists added :: Completes(c, keys, maxCalls, Read(c, before).rows, added, after)
  }

  ghost predicate Completes(c: Codec<RunRow>, keys: set<Key>, maxCalls: nat, existing: seq<RunRow>,
                            added: seq<RunRow>, after: File)
  {
    RunWrites(c, keys, existing, added, None, after) && |added| == Min(maxCalls, |keys| - |existing|)
  }

  lemma TidyFits(c: Codec<RunRow>, keys: set<Key>, rows: seq<RunRow>)
    requires Tidy(c, keys, rows)
    ensures |rows| <= |keys|
  {
    var ks := seq(|rows|, i requires 0 <= i < |rows| => rows[i].CellKey());
    DistinctCardinality(ks);
    assert forall x :: x in ks ==> x in keys;
    SubsetCardinality(ToSet(ks), keys);
  }

  /** The budgets of the invocations that returned normally; None marks any other step. */
  function Spent(budgets: seq<Option<nat>>): nat {
    if budgets == [] then 0
    else
      var last := budgets[|budgets| - 1];
      Spent(budgets[..|budgets| - 1]) + if last.Some? then last.value else 0
  }

  ghost predicate BudgetedHistory(c: Codec<RunRow>, keys: set<Key>, files: seq<File>, budgets: seq<Option<nat>>) {
    && History(c, keys, files)
    && |budgets| == |files| - 1
    && forall i :: 0 <= i < |budgets| && budgets[i].Some? ==>
         CompletedRun(c, keys, budgets[i].value, files[i], files[i + 1])
  }

  lemma CompletedRunCounts(c: Codec<RunRow>, keys: set<Key>, maxCalls: nat, before: File, after: File)
    requires Faithful(c) && Sound(c, keys, before) && CompletedRun(c, keys, maxCalls, before, after)
    ensures Read(c, before).Rows? && Read(c, after).Rows? && |Read(c, before).rows| <= |keys|
    ensures |Read(c, after).rows| == Min(|Read(c, before).rows| + maxCalls, |keys|)
  {
    SoundReads(c, keys, before);
    TidyFits(c, keys, Read(c, before).rows);
    var existing := Read(c, before).rows;
    var added :| Completes(c, keys, maxCalls, existing, added, after);
    CleanRunReads(c, keys, existing, added, after);
  }

  /** A run that was not cut short reads back to the old rows and the new ones. */
  lemma CleanRunReads(c: Codec<RunRow>, keys: set<Key>, existing: seq<RunRow>, added: seq<RunRow>, after: File)
    requires Faithful(c) && Tidy(c, keys, existing) && RunWrites(c, keys, existing, added, None, after)
    ensures Read(c, after) == Rows(existing + added, false)
  {
    TidyShapeReads(c, keys, Shape(existing + added, None));
  }

  lemma BudgetedPrefix(c: Codec<RunRow>, keys: set<Key>, files: seq<File>, budgets: seq<Option<nat>>)
    requires BudgetedHistory(c, keys, files, budgets) && |files| > 1
    ensures BudgetedHistory(c, keys, files[..|files| - 1], budgets[..|budgets| - 1])
  {
    var fs := files[..|files| - 1];
    forall i | 0 <= i < |fs| - 1
      ensures Step(c, keys, fs[i], fs[i + 1])
    {
      assert Step(c, keys, files[i], files[i + 1]);
    }
  }

  /** Resumes finish: whatever crashes and re-scores lie between them, the store holds a row for
      every cell as soon as the budgets of the runs that returned add up to the number of cells; and
      when every invocation returned the count is exact. */
  lemma {:induction false} ResumesFinish(c: Codec<RunRow>, keys: set<Key>, files: seq<File>, budgets: seq<Option<nat>>)
    requires Faithful(c) && BudgetedHistory(c, keys, files, budgets)
    ensures Read(c, files[|files| - 1]).Rows?
    ensures Min(Spent(budgets), |keys|) <= |Read(c, files[|files| - 1]).rows| <= |keys|
    ensures (forall i :: 0 <= i < |budgets| ==> budgets[i].Some?) ==>
      |Read(c, files[|files| - 1]).rows| == Min(Spent(budgets), |keys|)
    decreases |files|
  {
    var n := |files| - 1;
    HistoryIsSafe(c, keys, files, n, n);
    TidyFits(c, keys, Read(c, files[n]).rows);
    if n > 0 {
      BudgetedPrefix(c, keys, files, budgets);
      ResumesFinish(c, keys, files[..n], budgets[..n - 1]);
      HistoryIsSound(c, keys, files, n - 1);
      HistoryIsSafe(c, keys, files, n - 1, n);
      if budgets[n - 1].Some? {
        assert CompletedRun(c, keys, budgets[n - 1].value, files[n - 1], files[n - 1 + 1]);
        CompletedRunCounts(c, keys, budgets[n - 1].value, files[n - 1], files[n]);
      }
    }
  }
}
