/** One invocation of the sweep: shared call budget, sequential and pooled providers, crash at any
    character of an append (measure_twice/runner.py, measure_twice/adapters/claude_cli.py). */
module Sweep {
  import opened Seqs
  import opened Json
  import opened JsonProofs
  import opened LineStore
  import opened RunRows
  import opened RunHistory
  import opened Cells
  import opened Order

  /** The run-level budget; `Consume` is one lock-held check and increment. */
  class CallBudget {
    const maxCalls: nat
    var used: nat

    predicate Valid()
      reads this
    {
      used <= maxCalls
    }

    function Remaining(): nat
      requires Valid()
      reads this
    {
      maxCalls - used
    }

    constructor (maxCalls: nat)
      requires maxCalls >= 1
      ensures this.maxCalls == maxCalls && used == 0
    {
      this.maxCalls := maxCalls;
      used := 0;
    }

    method Consume() returns (ok: bool)
      requires Valid()
      modifies this
      ensures Valid()
      ensures ok <==> old(Remaining()) > 0
      ensures Remaining() == old(Remaining()) - if ok then 1 else 0
    {
      if used >= maxCalls {
        return false;
      }
      used := used + 1;
      return true;
    }
  }

  /** When the process dies: before it touches the store, or in its `appends`th append of
      this invocation after `chars` characters of the line have reached the file. */
  datatype Death = AtOpen | InAppend(appends: nat, chars: nat)

  /** `rows.jsonl` of one run. */
  class RowFile {
    var text: File

    /** `_rewrite_rows`: the new text replaces the old one atomically. */
    method Rewrite(c: Codec<RunRow>, rows: seq<RunRow>)
      modifies this
      ensures text == Some(Render(c, rows))
    {
      var rewritten := RewrittenText(c, rows);
      text := Some(rewritten);
    }

    method OpenForAppend()
      modifies this
      ensures text == if old(text).None? then Some([]) else old(text)
    {
      if text.None? { text := Some([]); }
    }

    /** `_append_row`; with `cut` the process dies after that many characters, newline excluded. */
    method Append(c: Codec<RunRow>, row: RunRow, cut: Option<nat>)
      requires text.Some?
      modifies this
      ensures cut.None? ==> text == Some(old(text).value + Render(c, [row]))
      ensures cut.Some? ==> text == Some(old(text).value + c.show(row)[..Min(cut.value, |c.show(row)|)])
    {
      var line := c.show(row);
      if cut.None? {
        text := Some(text.value + (line + [NEWLINE]));
        assert [row][1..] == [];
        assert Render(c, [row]) == line + [NEWLINE];
      } else {
        text := Some(text.value + line[..Min(cut.value, |line|)]);
      }
    }
  }

  /** What a sweep wrote: whole rows for `done`, then perhaps part of one more. */
  datatype Written = Written(done: seq<Cell>, torn: Option<(Cell, nat)>)

  /** The cells that were called and reached the file, the torn one last. */
  function Tried(w: Written): seq<Cell> { w.done + if w.torn.Some? then [w.torn.value.0] else [] }

  datatype SweepEnd = Completed | Aborted | Died

  /** The written cells are different cells of `cells`. */
  ghost predicate Picks(cells: seq<Cell>, w: Written) {
    && Distinct(w.done)
    && (forall x :: x in w.done ==> x in cells)
    && (w.torn.Some? ==> w.torn.value.0 in cells && w.torn.value.0 !in w.done)
  }

  function TornRow(env: Env, torn: Option<(Cell, nat)>): Option<(RunRow, nat)> {
    if torn.Some? then Some((RowOf(env, torn.value.0), torn.value.1)) else None
  }

  /** The file holds `start`, then what was written. */
  ghost predicate Holds(c: Codec<RunRow>, env: Env, start: Text, w: Written, text: File) {
    && text == Some(start + Bytes(c, Shape(RowsOf(env, w.done), TornRow(env, w.torn))))
    && (w.torn.Some? ==> w.torn.value.1 <= |c.show(RowOf(env, w.torn.value.0))|)
  }

  lemma HoldsClean(c: Codec<RunRow>, env: Env, start: Text, done: seq<Cell>, text: File)
    ensures Holds(c, env, start, Written(done, None), text) <==> text == Some(start + Render(c, RowsOf(env, done)))
  {
    var shape := Shape(RowsOf(env, done), None);
    assert Bytes(c, shape) == Render(c, shape.rows);
  }

  lemma NothingWritten(c: Codec<RunRow>, env: Env, start: Text)
    ensures Holds(c, env, start, Written([], None), Some(start))
  {
    HoldsClean(c, env, start, [], Some(start));
    assert start + Render(c, RowsOf(env, [])) == start;
  }

  /** The outcome of a sweep over `cells` with `remaining` calls left. */
  ghost predicate SweepOutcome(cells: seq<Cell>, remaining: nat, used: int, w: Written, status: SweepEnd) {
    && (status == Died <==> w.torn.Some?)
    && (status == Completed ==> w.done == cells && |cells| <= remaining)
    && (status == Aborted ==> |w.done| == remaining < |cells|)
    && (status != Died ==> used == |w.done|)
  }

  /** One row: the call's answer is written, or the process dies in the append. */
  method WriteRow(file: RowFile, c: Codec<RunRow>, env: Env, cell: Cell, done: seq<Cell>, base: nat,
                  death: Option<Death>, ghost start: Text)
    returns (w: Written)
    requires Holds(c, env, start, Written(done, None), file.text)
    modifies file
    ensures Holds(c, env, start, w, file.text)
    ensures w == Written(done + [cell], None) || (w.done == done && w.torn.Some? && w.torn.value.0 == cell)
    ensures death.None? ==> w.torn.None?
  {
    var row := RowOf(env, cell);
    HoldsClean(c, env, start, done, file.text);
    var cut := if death.Some? && death.value.InAppend? && death.value.appends == base + |done|
               then Some(death.value.chars) else None;
    file.Append(c, row, cut);
    if cut.None? {
      w := Written(done + [cell], None);
      RowsOfLast(env, done, cell);
      RenderConcat(c, RowsOf(env, done), [row]);
      HoldsClean(c, env, start, done + [cell], file.text);
      ConcatThree(start, Render(c, RowsOf(env, done)), Render(c, [row]));
    } else {
      var n := Min(cut.value, |c.show(row)|);
      w := Written(done, Some((cell, n)));
      var shape := Shape(RowsOf(env, done), Some((row, n)));
      assert Bytes(c, shape) == Render(c, shape.rows) + c.show(row)[..n];
      ConcatThree(start, Render(c, shape.rows), c.show(row)[..n]);
    }
  }

  /** `_sweep_local` and `_sweep_gemini`: one call at a time, budget taken before each. */
  method SweepSequential(file: RowFile, c: Codec<RunRow>, env: Env, cells: seq<Cell>, budget: CallBudget,
                         base: nat, death: Option<Death>, ghost start: Text)
    returns (w: Written, status: SweepEnd)
    requires budget.Valid()
    requires file.text == Some(start)
    modifies file, budget
    ensures budget.Valid() && Holds(c, env, start, w, file.text)
    ensures SweepOutcome(cells, old(budget.Remaining()), budget.used - old(budget.used), w, status)
    ensures Tried(w) <= cells
    ensures death.None? ==> status != Died
  {
    w := Written([], None);
    NothingWritten(c, env, start);
    var i := 0;
    while i < |cells|
      invariant i <= |cells| && w == Written(cells[..i], None)
      invariant budget.Valid() && budget.used == old(budget.used) + i
      invariant Holds(c, env, start, w, file.text)
    {
      var ok := budget.Consume();
      if !ok {
        return w, Aborted;
      }
      assert cells[..i + 1] == cells[..i] + [cells[i]];
      w := WriteRow(file, c, env, cells[i], w.done, base, death, start);
      if w.torn.Some? {
        return w, Died;
      }
      i := i + 1;
    }
    assert cells[..i] == cells;
    return w, Completed;
  }

  function CountSome<T>(s: seq<Option<T>>): (n: nat)
    ensures n <= |s|
  {
    if s == [] then 0
    else CountSome(s[..|s| - 1]) + if s[|s| - 1].Some? then 1 else 0
  }

  lemma {:induction false} CountSomeUpdate<T>(s: seq<Option<T>>, i: nat, v: T)
    requires i < |s| && s[i].None?
    ensures CountSome(s[i := Some(v)]) == CountSome(s) + 1
    decreases |s|
  {
    var t := s[i := Some(v)];
    if i == |s| - 1 {
      assert t[..|s| - 1] == s[..|s| - 1];
    } else {
      assert t[..|s| - 1] == s[..|s| - 1][i := Some(v)];
      CountSomeUpdate(s[..|s| - 1], i, v);
    }
  }

  lemma {:induction false} CountNone<T>(s: seq<Option<T>>)
    requires forall i :: 0 <= i < |s| ==> s[i].None?
    ensures CountSome(s) == 0
    decreases |s|
  {
    if s != [] { CountNone(s[..|s| - 1]); }
  }

  lemma {:induction false} CountAll<T>(s: seq<Option<T>>)
    ensures CountSome(s) == |s| <==> forall i :: 0 <= i < |s| ==> s[i].Some?
    decreases |s|
  {
    if s != [] {
      CountAll(s[..|s| - 1]);
      assert s == s[..|s| - 1] + [s[|s| - 1]];
    }
  }

  lemma AnyOf<T>(s: set<T>) returns (x: T)
    requires |s| > 0
    ensures x in s
  {
    x :| x in s;
  }

  /** `claude_call_batch`: the workers reach the budget in any order; a worker that gets a call
      answers, the others leave a refusal. */
  method CallBatch(cells: seq<Cell>, env: Env, budget: CallBudget)
    returns (results: seq<Option<CallResult>>)
    requires budget.Valid()
    modifies budget
    ensures budget.Valid() && |results| == |cells|
    ensures CountSome(results) == Min(|cells|, old(budget.Remaining())) == budget.used - old(budget.used)
    ensures forall i :: 0 <= i < |cells| && results[i].Some? ==> results[i].value == env.calls(cells[i])
  {
    results := seq(|cells|, _ => None);
    CountNone(results);
    var slots: seq<int> := seq(|cells|, i => i);
    var waiting := ToSet(slots);
    DistinctCardinality(slots);
    while |waiting| > 0
      invariant |results| == |cells|
      invariant forall i :: i in waiting ==> 0 <= i < |cells| && results[i].None?
      invariant forall i :: 0 <= i < |cells| && results[i].Some? ==> results[i].value == env.calls(cells[i])
      invariant budget.Valid() && |waiting| <= |cells|
      invariant CountSome(results) == budget.used - old(budget.used)
      invariant CountSome(results) == Min(|cells| - |waiting|, old(budget.Remaining()))
      decreases |waiting|
    {
      ghost var next := AnyOf(waiting);
      var i :| i in waiting;
      var ok := budget.Consume();
      if ok {
        CountSomeUpdate(results, i, env.calls(cells[i]));
        results := results[i := Some(env.calls(cells[i]))];
      }
      waiting := waiting - {i};
    }
  }

  /** The row of one slot, when it was answered. */
  method WriteSlot(file: RowFile, c: Codec<RunRow>, env: Env, chunk: seq<Cell>, results: seq<Option<CallResult>>,
                   j: nat, done: seq<Cell>, base: nat, death: Option<Death>, ghost start: Text)
    returns (w: Written)
    requires |results| == |chunk| && j < |chunk|
    requires results[j].Some? ==> results[j].value == env.calls(chunk[j])
    requires Holds(c, env, start, Written(done + Answered(chunk[..j], results[..j]), None), file.text)
    modifies file
    ensures Holds(c, env, start, w, file.text)
    ensures done <= w.done && Tried(w) == done + Answered(chunk[..j + 1], results[..j + 1])
    ensures death.None? ==> w.torn.None?
  {
    var before := done + Answered(chunk[..j], results[..j]);
    OneMoreSlot(chunk, results, j);
    if results[j].Some? {
      w := WriteRow(file, c, env, chunk[j], before, base, death, start);
      ConcatThree(done, Answered(chunk[..j], results[..j]), [chunk[j]]);
    } else {
      w := Written(before, None);
    }
  }

  /** The rows of one answered wave, in input order; refused cells are left pending. */
  method WriteWave(file: RowFile, c: Codec<RunRow>, env: Env, chunk: seq<Cell>, results: seq<Option<CallResult>>,
                   done: seq<Cell>, base: nat, death: Option<Death>, ghost start: Text)
    returns (w: Written)
    requires |results| == |chunk|
    requires forall i :: 0 <= i < |chunk| && results[i].Some? ==> results[i].value == env.calls(chunk[i])
    requires Holds(c, env, start, Written(done, None), file.text)
    modifies file
    ensures Holds(c, env, start, w, file.text)
    ensures done <= w.done && Tried(w) <= done + Answered(chunk, results)
    ensures w.torn.None? ==> w.done == done + Answered(chunk, results)
    ensures death.None? ==> w.torn.None?
  {
    w := Written(done, None);
    for j := 0 to |chunk|
      invariant Holds(c, env, start, w, file.text)
      invariant w == Written(done + Answered(chunk[..j], results[..j]), None)
    {
      w := WriteSlot(file, c, env, chunk, results, j, done, base, death, start);
      if w.torn.Some? {
        AnsweredPrefix(chunk, results, j + 1);
        return;
      }
    }
    assert results[..|chunk|] == results && chunk[..|chunk|] == chunk;
  }

  /** The cells of a wave that got an answer, in input order. */
  function Answered<T>(chunk: seq<T>, results: seq<Option<CallResult>>): seq<T>
    requires |results| == |chunk|
  {
    if chunk == [] then []
    else
      var n := |chunk| - 1;
      Answered(chunk[..n], results[..n]) + if results[n].Some? then [chunk[n]] else []
  }

  lemma OneMoreSlot<T>(chunk: seq<T>, results: seq<Option<CallResult>>, j: nat)
    requires |results| == |chunk| && j < |results|
    ensures Answered(chunk[..j + 1], results[..j + 1])
         == Answered(chunk[..j], results[..j]) + if results[j].Some? then [chunk[j]] else []
  {
    assert results[..j + 1][..j] == results[..j] && chunk[..j + 1][..j] == chunk[..j];
  }

  lemma {:induction false} AnsweredPrefix<T>(chunk: seq<T>, results: seq<Option<CallResult>>, j: nat)
    requires |results| == |chunk| && j <= |chunk|
    ensures Answered(chunk[..j], results[..j]) <= Answered(chunk, results)
    decreases |chunk| - j
  {
    if j < |chunk| {
      OneMoreSlot(chunk, results, j);
      AnsweredPrefix(chunk, results, j + 1);
    } else {
      assert chunk[..j] == chunk && results[..j] == results;
    }
  }

  /** The answered cells keep their order, and are all of them when every slot was answered. */
  lemma {:induction false} AnsweredInOrder<T>(chunk: seq<T>, results: seq<Option<CallResult>>)
    requires |results| == |chunk|
    ensures InOrder(chunk, Answered(chunk, results)) && |Answered(chunk, results)| == CountSome(results)
    ensures CountSome(results) == |results| ==> Answered(chunk, results) == chunk
    decreases |chunk|
  {
    if chunk != [] {
      var n := |chunk| - 1;
      var front := Answered(chunk[..n], results[..n]);
      AnsweredInOrder(chunk[..n], results[..n]);
      assert chunk == chunk[..n] + [chunk[n]];
      if results[n].Some? {
        InOrderTake(chunk[..n], front, chunk[n]);
      } else {
        InOrderSkip(chunk[..n], front, chunk[n]);
        assert front + [] == front;
      }
    }
  }

  /** One wave of the pool: the calls of `chunk`, then their rows. */
  method Wave(file: RowFile, c: Codec<RunRow>, env: Env, chunk: seq<Cell>, done: seq<Cell>, budget: CallBudget,
              base: nat, death: Option<Death>, ghost start: Text)
    returns (w: Written, answered: nat)
    requires budget.Valid()
    requires Holds(c, env, start, Written(done, None), file.text)
    modifies file, budget
    ensures budget.Valid() && Holds(c, env, start, w, file.text)
    ensures answered == Min(|chunk|, old(budget.Remaining())) == budget.used - old(budget.used)
    ensures w.torn.None? ==> |w.done| == |done| + answered
    ensures FollowsWave(done, chunk, w) && (answered == |chunk| ==> Tried(w) <= done + chunk)
    ensures death.None? ==> w.torn.None?
  {
    var results := CallBatch(chunk, env, budget);
    answered := CountSome(results);
    w := WriteWave(file, c, env, chunk, results, done, base, death, start);
    AnsweredInOrder(chunk, results);
    PartOfAnswered(chunk, results, done, w);
  }

  /** After `done` come cells of `chunk`, in their order. */
  ghost predicate FollowsWave(done: seq<Cell>, chunk: seq<Cell>, w: Written) {
    done <= w.done && InOrder(chunk, Tried(w)[|done|..])
  }

  lemma PartOfAnswered(chunk: seq<Cell>, results: seq<Option<CallResult>>, done: seq<Cell>, w: Written)
    requires |results| == |chunk| && done <= w.done && Tried(w) <= done + Answered(chunk, results)
    ensures FollowsWave(done, chunk, w)
  {
    var answered, part := Answered(chunk, results), Tried(w)[|done|..];
    AnsweredInOrder(chunk, results);
    InOrderPrefix(chunk, answered, |part|);
    assert part == (done + answered)[..|Tried(w)|][|done|..] == answered[..|part|];
  }

  /** The wave that starts at `i`; `whole` says that every slot of it was answered. */
  method NextWave(file: RowFile, c: Codec<RunRow>, env: Env, cells: seq<Cell>, pool: nat, i: nat, budget: CallBudget,
                  base: nat, death: Option<Death>, ghost start: Text)
    returns (w: Written, next: nat, whole: bool)
    requires budget.Valid() && i <= |cells|
    requires Holds(c, env, start, Written(cells[..i], None), file.text)
    modifies file, budget
    ensures budget.Valid() && Holds(c, env, start, w, file.text)
    ensures next == Min(i + pool, |cells|) && InWaves(cells, Tried(w), pool)
    ensures budget.used - old(budget.used) == Min(next - i, old(budget.Remaining()))
    ensures whole <==> next - i <= old(budget.Remaining())
    ensures w.torn.None? ==> |w.done| == i + budget.used - old(budget.used) && (whole ==> w.done == cells[..next])
    ensures death.None? ==> w.torn.None?
  {
    next := Min(i + pool, |cells|);
    var answered: nat;
    w, answered := Wave(file, c, env, cells[i..next], cells[..i], budget, base, death, start);
    whole := answered == next - i;
    WaveReached(cells, i, pool, w);
    assert cells[..next] == cells[..i] + cells[i..next];
  }

  /** `_sweep_claude`: waves of at most `pool` concurrent calls. */
  method SweepPooled(file: RowFile, c: Codec<RunRow>, env: Env, cells: seq<Cell>, pool: nat, budget: CallBudget,
                     base: nat, death: Option<Death>, ghost start: Text)
    returns (w: Written, status: SweepEnd)
    requires budget.Valid() && pool >= 1
    requires file.text == Some(start)
    modifies file, budget
    ensures budget.Valid() && Holds(c, env, start, w, file.text)
    ensures SweepOutcome(cells, old(budget.Remaining()), budget.used - old(budget.used), w, status)
    ensures InWaves(cells, Tried(w), pool)
    ensures death.None? ==> status != Died
  {
    w := Written([], None);
    NothingWritten(c, env, start);
    var i := 0;
    while i < |cells|
      invariant i <= |cells| && w == Written(cells[..i], None)
      invariant budget.Valid() && budget.used == old(budget.used) + i
      invariant Holds(c, env, start, w, file.text)
    {
      if budget.used >= budget.maxCalls {
        WholeWaves(cells, Tried(w), pool);
        return w, Aborted;
      }
      var next, whole;
      w, next, whole := NextWave(file, c, env, cells, pool, i, budget, base, death, start);
      if w.torn.Some? {
        return w, Died;
      }
      if !whole {
        return w, Aborted;
      }
      i := next;
    }
    assert cells[..i] == cells && Tried(w) == cells;
    WholeWaves(cells, Tried(w), pool);
    return w, Completed;
  }

  lemma WaveReached(cells: seq<Cell>, i: nat, pool: nat, w: Written)
    requires i <= |cells| && FollowsWave(cells[..i], cells[i..Min(i + pool, |cells|)], w)
    ensures InWaves(cells, Tried(w), pool)
  {
    assert Tried(w)[..i] == w.done[..i] == cells[..i];
    assert WaveAt(cells, Tried(w), pool, i);
  }

  /** What is written wave after wave are different cells. */
  lemma PicksInWaves(cells: seq<Cell>, w: Written, width: nat)
    requires Distinct(cells) && InWaves(cells, Tried(w), width)
    ensures Picks(cells, w)
  {
    InWavesInOrder(cells, Tried(w), width);
    InOrderDistinct(cells, Tried(w));
    forall x | x in Tried(w) ensures x in cells { InOrderMembers(cells, Tried(w), x); }
    assert forall i :: 0 <= i < |w.done| ==> Tried(w)[i] == w.done[i];
    assert w.torn.Some? ==> Tried(w)[|w.done|] == w.torn.value.0;
  }

  // ----- The whole run ------------------------------------------------------------------------------

  /** A run's arguments: the roster as given, the suite, samples, and which models are pooled.
      `ready` stands for everything checked before the store is touched, which may look at the cells
      that have a row: names, bindings, the manifest and its receipt, the doctor, the credential. */
  datatype Config = Config(roster: seq<Text>, items: seq<Item>, samples: int, pooled: Text -> bool, pool: nat,
                           ready: set<Key> -> bool)

  datatype RunOutcome =
    | Finished(cellsTotal: nat, cellsCompleted: nat, cellsThisRun: nat, budgetUsed: nat, aborted: bool)
    | Refused
    | Crashed

  function RowKeys(rows: seq<RunRow>): set<Key> { set row | row in rows :: row.CellKey() }

  /** The keys a run's rows may carry. */
  function KeysFor(config: Config): set<Key>
    requires config.samples >= 0
  {
    SweepKeys(Dedup(config.roster), config.items, config.samples)
  }

  function PendingFor(config: Config, existing: seq<RunRow>): seq<Cell>
    requires config.samples >= 0
  {
    PendingAll(Dedup(config.roster), config.items, config.samples, RowKeys(existing))
  }

  predicate Accepts(config: Config, maxCalls: int) {
    config.roster != [] && config.samples >= 1 && maxCalls >= 1
  }

  /** The text a run appends to: the rows it found when it had to repair a torn tail. */
  function StartText(c: Codec<RunRow>, found: ReadResult<RunRow>, before: File): Text
    requires found.Rows?
  {
    if found.torn then Render(c, found.rows) else if before.Some? then before.value else []
  }

  /** What a run that got as far as opening the file leaves behind. */
  ghost predicate Leaves(c: Codec<RunRow>, config: Config, env: Env, w: Written, before: File, after: File)
    requires config.samples >= 0
  {
    && Read(c, before).Rows?
    && Picks(PendingFor(config, Read(c, before).rows), w)
    && Holds(c, env, StartText(c, Read(c, before), before), w, after)
  }

  lemma WritesConcat(c: Codec<RunRow>, env: Env, start: Text, a: seq<Cell>, w: Written, text: File)
    requires Holds(c, env, start + Render(c, RowsOf(env, a)), w, text)
    ensures Holds(c, env, start, Written(a + w.done, w.torn), text)
  {
    var ra, rb := RowsOf(env, a), RowsOf(env, w.done);
    assert RowsOf(env, a + w.done) == ra + rb;
    BytesConcat(c, ra, Shape(rb, TornRow(env, w.torn)));
    ConcatThree(start, Render(c, ra), Bytes(c, Shape(rb, TornRow(env, w.torn))));
  }

  lemma BytesConcat(c: Codec<RunRow>, rows: seq<RunRow>, shape: Shape<RunRow>)
    ensures Bytes(c, Shape(rows + shape.rows, shape.torn)) == Render(c, rows) + Bytes(c, shape)
  {
    RenderConcat(c, rows, shape.rows);
    var whole := Shape(rows + shape.rows, shape.torn);
    assert Tail(c, whole) == Tail(c, shape);
    ConcatThree(Render(c, rows), Render(c, shape.rows), Tail(c, shape));
  }

  lemma DistinctKeysAreDistinct(cells: seq<Cell>)
    requires DistinctKeys(cells)
    ensures Distinct(cells)
  {
  }

  lemma {:induction false} PendingPrefix(roster: seq<Text>, items: seq<Item>, samples: nat, done: set<Key>, m: nat)
    requires m <= |roster|
    ensures PendingAll(roster[..m], items, samples, done) <= PendingAll(roster, items, samples, done)
    decreases |roster|
  {
    if m < |roster| {
      PendingPrefix(roster[..|roster| - 1], items, samples, done, m);
      assert roster[..|roster| - 1][..m] == roster[..m];
    } else {
      assert roster[..m] == roster;
    }
  }

  /** How many calls a model's sweep makes at a time. */
  function WidthOf(config: Config, model: Text): nat { if config.pooled(model) then config.pool else 1 }

  /** How many calls a run makes at a time. */
  function Width(config: Config, roster: seq<Text>): nat {
    if exists model :: model in roster && config.pooled(model) then config.pool else 1
  }

  /** One model's cells, by its provider. */
  method SweepProvider(file: RowFile, c: Codec<RunRow>, config: Config, env: Env, model: Text, cells: seq<Cell>,
                       budget: CallBudget, base: nat, death: Option<Death>, ghost start: Text)
    returns (w: Written, status: SweepEnd)
    requires budget.Valid() && config.pool >= 1
    requires file.text == Some(start)
    modifies file, budget
    ensures budget.Valid() && Holds(c, env, start, w, file.text)
    ensures SweepOutcome(cells, old(budget.Remaining()), budget.used - old(budget.used), w, status)
    ensures InWaves(cells, Tried(w), WidthOf(config, model))
    ensures death.None? ==> status != Died
  {
    if config.pooled(model) {
      w, status := SweepPooled(file, c, env, cells, config.pool, budget, base, death, start);
    } else {
      w, status := SweepSequential(file, c, env, cells, budget, base, death, start);
      WavesOfOne(cells, Tried(w));
    }
  }

  /** The model at `m`, after the cells of the models before it. */
  method SweepModel(file: RowFile, c: Codec<RunRow>, config: Config, env: Env, roster: seq<Text>, m: nat,
                    doneKeys: set<Key>, w0: Written, budget: CallBudget, death: Option<Death>, ghost start: Text)
    returns (w: Written, status: SweepEnd)
    requires budget.Valid() && config.pool >= 1 && config.samples >= 0 && m < |roster|
    requires Holds(c, env, start, w0, file.text)
    requires Reached(config, roster, doneKeys, m, budget.maxCalls, budget.used, w0, Completed)
    modifies file, budget
    ensures budget.Valid() && Holds(c, env, start, w, file.text)
    ensures Reached(config, roster, doneKeys, m + 1, budget.maxCalls, budget.used, w, status)
    ensures death.None? ==> status != Died
  {
    var cells := Pending(roster[m], config.items, config.samples, doneKeys);
    HoldsClean(c, env, start, w0.done, file.text);
    var part: Written;
    part, status := SweepProvider(file, c, config, env, roster[m], cells, budget, |w0.done|, death, file.text.value);
    WritesConcat(c, env, start, w0.done, part, file.text);
    w := Written(w0.done + part.done, part.torn);
    PendingNext(roster, config.items, config.samples, doneKeys, m);
    WavesConcat(w0.done, cells, part, WidthOf(config, roster[m]));
    InWavesWider(w0.done + cells, Tried(w), WidthOf(config, roster[m]), Width(config, roster));
  }

  /** Where the sweep is after the first `m` models. */
  ghost predicate Reached(config: Config, roster: seq<Text>, doneKeys: set<Key>, m: nat, maxCalls: nat, used: int,
                          w: Written, status: SweepEnd)
    requires config.samples >= 0 && m <= |roster|
  {
    var sofar := PendingAll(roster[..m], config.items, config.samples, doneKeys);
    SweepOutcome(sofar, maxCalls, used, w, status) && InWaves(sofar, Tried(w), Width(config, roster))
  }

  lemma WavesConcat(sofar: seq<Cell>, cells: seq<Cell>, part: Written, width: nat)
    requires InWaves(cells, Tried(part), width)
    ensures InWaves(sofar + cells, Tried(Written(sofar + part.done, part.torn)), width)
  {
    InWavesAfter(sofar, cells, Tried(part), width);
    assert Tried(Written(sofar + part.done, part.torn)) == sofar + Tried(part);
  }

  /** The roster in order, until a model's sweep stops. */
  method SweepRoster(file: RowFile, c: Codec<RunRow>, config: Config, env: Env, roster: seq<Text>, doneKeys: set<Key>,
                     maxCalls: nat, death: Option<Death>, ghost start: Text)
    returns (w: Written, status: SweepEnd, used: nat)
    requires config.pool >= 1 && config.samples >= 0 && maxCalls >= 1
    requires file.text == Some(start)
    modifies file
    ensures Holds(c, env, start, w, file.text)
    ensures SweepOutcome(PendingAll(roster, config.items, config.samples, doneKeys), maxCalls, used, w, status)
    ensures InWaves(PendingAll(roster, config.items, config.samples, doneKeys), Tried(w), Width(config, roster))
    ensures death.None? ==> status != Died
  {
    var budget := new CallBudget(maxCalls);
    w, status := Written([], None), Completed;
    NothingWritten(c, env, start);
    WholeWaves([], Tried(w), Width(config, roster));
    var m := 0;
    while m < |roster| && status == Completed
      invariant m <= |roster| && budget.Valid() && budget.maxCalls == maxCalls && fresh(budget)
      invariant death.None? ==> status != Died
      invariant Holds(c, env, start, w, file.text)
      invariant Reached(config, roster, doneKeys, m, maxCalls, budget.used, w, status)
      decreases |roster| - m
    {
      w, status := SweepModel(file, c, config, env, roster, m, doneKeys, w, budget, death, start);
      m := m + 1;
    }
    used := budget.used;
    ReachedWhole(config, roster, doneKeys, m, maxCalls, used, w, status);
  }

  /** A sweep that stopped early, or went through everything, has that outcome on the whole. */
  lemma ReachedWhole(config: Config, roster: seq<Text>, doneKeys: set<Key>, m: nat, maxCalls: nat, used: int,
                     w: Written, status: SweepEnd)
    requires config.samples >= 0 && m <= |roster| && (status == Completed ==> m == |roster|)
    requires Reached(config, roster, doneKeys, m, maxCalls, used, w, status)
    ensures Reached(config, roster, doneKeys, |roster|, maxCalls, used, w, status) && roster[..|roster|] == roster
  {
    var sofar := PendingAll(roster[..m], config.items, config.samples, doneKeys);
    assert roster[..|roster|] == roster;
    PendingPrefix(roster, config.items, config.samples, doneKeys, m);
    InWavesLonger(sofar, PendingAll(roster, config.items, config.samples, doneKeys), Tried(w), Width(config, roster));
  }

  lemma PendingNext(roster: seq<Text>, items: seq<Item>, samples: nat, done: set<Key>, m: nat)
    requires m < |roster|
    ensures PendingAll(roster[..m + 1], items, samples, done)
         == PendingAll(roster[..m], items, samples, done) + Pending(roster[m], items, samples, done)
  {
    assert roster[..m + 1][..m] == roster[..m];
  }

  /** `run`, fresh or resumed, up to its return or to the death of the process. */
  method Run(file: RowFile, c: Codec<RunRow>, config: Config, env: Env, maxCalls: int, death: Option<Death>)
    returns (out: RunOutcome, w: Written)
    requires DistinctIds(config.items) && config.pool >= 1
    modifies file
    ensures out.Refused? <==>
      || config.roster == [] || config.samples < 1 || maxCalls < 1 || Read(c, old(file.text)).Corrupt?
      || !config.ready(RowKeys(Read(c, old(file.text)).rows))
    ensures out.Finished? <==> !out.Refused? && death.None?
    ensures out.Refused? || death == Some(AtOpen) ==> file.text == old(file.text)
    ensures !out.Refused? && death != Some(AtOpen) ==> Leaves(c, config, env, w, old(file.text), file.text)
    ensures !out.Refused? && death != Some(AtOpen) ==>
      InWaves(PendingFor(config, Read(c, old(file.text)).rows), Tried(w), Width(config, config.roster))
    ensures !out.Refused? && (forall model :: model in config.roster ==> !config.pooled(model)) ==>
      Tried(w) <= PendingFor(config, Read(c, old(file.text)).rows)
    ensures out.Finished? ==>
      var existing := Read(c, old(file.text)).rows;
      var pending := PendingFor(config, existing);
      && w.torn.None?
      && out.cellsThisRun == out.budgetUsed == |w.done| == Min(maxCalls, |pending|)
      && (out.aborted <==> |pending| > maxCalls)
      && (!out.aborted ==> w.done == pending)
      && out.cellsTotal == |Dedup(config.roster)| * |config.items| * config.samples
      && out.cellsCompleted == |RowKeys(existing)| + |w.done|
  {
    w := Written([], None);
    if !Accepts(config, maxCalls) {
      return Refused, w;
    }
    var found := ReadRows(c, file.text);
    if found.Corrupt? || !config.ready(RowKeys(found.rows)) {
      return Refused, w;
    }
    if death == Some(AtOpen) {
      return Crashed, w;
    }
    if found.torn {
      file.Rewrite(c, found.rows);
    }
    file.OpenForAppend();
    var roster := Dedup(config.roster);
    var doneKeys := RowKeys(found.rows);
    ghost var pending := PendingFor(config, found.rows);
    DedupIsDistinct(config.roster);
    PendingAllDistinct(roster, config.items, config.samples, doneKeys);
    DistinctKeysAreDistinct(pending);
    var status, used;
    w, status, used := SweepRoster(file, c, config, env, roster, doneKeys, maxCalls, death, file.text.value);
    WavesOfOne(pending, Tried(w));
    PicksInWaves(pending, w, Width(config, roster));
    if death.Some? {
      return Crashed, w;
    }
    out := Finished(CellCount(|roster|, |config.items|, config.samples), |doneKeys| + |w.done|, |w.done|, used,
                    status == Aborted);
  }

  function CellCount(a: nat, b: nat, n: nat): (p: nat)
    ensures p == a * b * n
  {
    NonNegative(a, b);
    NonNegative(a * b, n);
    a * b * n
  }

  lemma NonNegative(a: nat, b: nat)
    ensures a * b >= 0
  {
  }

  // ----- A run is a step of the store's history -----------------------------------------------------

  /** The rows this run may write are printable. */
  ghost predicate WritesGoodRows(c: Codec<RunRow>, config: Config, env: Env)
    requires config.samples >= 0
  {
    forall cell :: InSweep(Dedup(config.roster), config.items, config.samples, cell) ==> c.good(RowOf(env, cell))
  }

  /** A sound store without a torn tail is exactly its rows. */
  lemma StartIsRendered(c: Codec<RunRow>, keys: set<Key>, before: File)
    requires Faithful(c) && Sound(c, keys, before)
    ensures Read(c, before).Rows?
    ensures StartText(c, Read(c, before), before) == Render(c, Read(c, before).rows)
  {
    SoundReads(c, keys, before);
    if before.Some? {
      var shape :| TidyShape(c, keys, shape) && before == Some(Bytes(c, shape));
      TidyShapeReads(c, keys, shape);
      if Tail(c, shape) == [] {
        assert Bytes(c, shape) == Render(c, shape.rows);
        TornTailIsNotARow(c, shape);
      }
    }
  }

  lemma TornTailIsNotARow(c: Codec<RunRow>, shape: Shape<RunRow>)
    requires Faithful(c) && WellShaped(c, shape) && Tail(c, shape) == []
    ensures Durable(c, shape) == shape.rows
  {
    if shape.torn.Some? { assert Survives(c, shape.torn.value.0); }
  }

  lemma TidyExtends(c: Codec<RunRow>, config: Config, env: Env, existing: seq<RunRow>, cells: seq<Cell>)
    requires config.samples >= 0 && WritesGoodRows(c, config, env)
    requires Tidy(c, KeysFor(config), existing)
    requires Distinct(cells) && forall x :: x in cells ==> x in PendingFor(config, existing)
    requires DistinctIds(config.items)
    ensures Tidy(c, KeysFor(config), existing + RowsOf(env, cells))
  {
    var roster, items, samples, done := Dedup(config.roster), config.items, config.samples, RowKeys(existing);
    DedupIsDistinct(config.roster);
    PendingAllAre(roster, items, samples, done);
    PendingKeys(roster, items, samples, done);
    PendingAllDistinct(roster, items, samples, done);
    var pending := PendingFor(config, existing);
    var rows := existing + RowsOf(env, cells);
    forall i | |existing| <= i < |rows|
      ensures c.good(rows[i]) && rows[i].CellKey() in KeysFor(config) && rows[i].CellKey() !in done
    {
      var cell := cells[i - |existing|];
      assert cell in pending && KeyOf(cell) in KeysOf(pending);
    }
    forall i, j | 0 <= i < j < |rows|
      ensures rows[i].CellKey() != rows[j].CellKey()
    {
      if i < |existing| <= j {
        assert rows[i] in existing;
      } else if |existing| <= i {
        DifferentKeys(pending, cells[i - |existing|], cells[j - |existing|]);
      }
    }
  }

  lemma DifferentKeys(pending: seq<Cell>, x: Cell, y: Cell)
    requires DistinctKeys(pending) && x in pending && y in pending && x != y
    ensures KeyOf(x) != KeyOf(y)
  {
    var a :| 0 <= a < |pending| && pending[a] == x;
    var b :| 0 <= b < |pending| && pending[b] == y;
    assert KeyOf(pending[if a < b then a else b]) != KeyOf(pending[if a < b then b else a]);
  }

  /** What a run leaves in a sound store, as one shape. */
  lemma LeavesAShape(c: Codec<RunRow>, config: Config, env: Env, w: Written, before: File, after: File)
    requires Faithful(c) && config.samples >= 0 && Sound(c, KeysFor(config), before)
    requires Leaves(c, config, env, w, before, after)
    ensures after == Some(Bytes(c, Shape(Read(c, before).rows + RowsOf(env, w.done), TornRow(env, w.torn))))
  {
    StartIsRendered(c, KeysFor(config), before);
    BytesConcat(c, Read(c, before).rows, Shape(RowsOf(env, w.done), TornRow(env, w.torn)));
  }

  lemma LeavesTidyRows(c: Codec<RunRow>, config: Config, env: Env, w: Written, existing: seq<RunRow>)
    requires config.samples >= 0 && DistinctIds(config.items) && WritesGoodRows(c, config, env)
    requires Tidy(c, KeysFor(config), existing) && Picks(PendingFor(config, existing), w)
    requires w.torn.Some? ==> w.torn.value.1 <= |c.show(RowOf(env, w.torn.value.0))|
    ensures TidyShape(c, KeysFor(config), Shape(existing + RowsOf(env, w.done), TornRow(env, w.torn)))
  {
    var shape := Shape(existing + RowsOf(env, w.done), TornRow(env, w.torn));
    if w.torn.Some? {
      var last := w.torn.value.0;
      TidyExtends(c, config, env, existing, w.done + [last]);
      RowsOfLast(env, w.done, last);
      assert WithTorn(shape) == existing + RowsOf(env, w.done + [last]);
      assert forall i :: 0 <= i < |shape.rows| ==> shape.rows[i] == WithTorn(shape)[i];
      assert WithTorn(shape)[|shape.rows|] == RowOf(env, last);
    } else {
      TidyExtends(c, config, env, existing, w.done);
    }
  }

  /** Every invocation that opens a sound store is a step of its history, and one that returns
      normally is a completed run. */
  lemma RunIsAStep(c: Codec<RunRow>, config: Config, env: Env, w: Written, before: File, after: File, maxCalls: nat)
    requires Faithful(c) && config.samples >= 0 && DistinctIds(config.items) && WritesGoodRows(c, config, env)
    requires Sound(c, KeysFor(config), before) && Leaves(c, config, env, w, before, after)
    ensures RunStep(c, KeysFor(config), before, after)
    ensures w.torn.None? && |w.done| == Min(maxCalls, |PendingFor(config, Read(c, before).rows)|) ==>
      CompletedRun(c, KeysFor(config), maxCalls, before, after)
  {
    var keys, existing := KeysFor(config), Read(c, before).rows;
    SoundReads(c, keys, before);
    LeavesAShape(c, config, env, w, before, after);
    LeavesTidyRows(c, config, env, w, existing);
    assert RunWrites(c, keys, existing, RowsOf(env, w.done), TornRow(env, w.torn), after);
    CountPending(c, config, existing);
    if w.torn.None? && |w.done| == Min(maxCalls, |PendingFor(config, existing)|) {
      assert Completes(c, keys, maxCalls, existing, RowsOf(env, w.done), after);
    }
  }

  lemma CountPending(c: Codec<RunRow>, config: Config, existing: seq<RunRow>)
    requires config.samples >= 0 && DistinctIds(config.items) && Tidy(c, KeysFor(config), existing)
    ensures |PendingFor(config, existing)| == |KeysFor(config)| - |existing|
  {
    DedupIsDistinct(config.roster);
    PendingCount(Dedup(config.roster), config.items, config.samples, RowKeys(existing));
    var ks := seq(|existing|, i requires 0 <= i < |existing| => existing[i].CellKey());
    DistinctCardinality(ks);
    assert RowKeys(existing) == ToSet(ks) by {
      forall k | k in RowKeys(existing)
        ensures k in ks
      {
        var row :| row in existing && row.CellKey() == k;
        var i :| 0 <= i < |existing| && existing[i] == row;
        assert ks[i] == k;
      }
    }
  }

  /** Printable surroundings make printable rows. */
  lemma BuiltRowIsGood(runId: Text, cell: Cell, result: CallResult, scorer: Scorer)
    requires !HasSplitPair(runId) && !HasSplitPair(cell.model) && !HasSplitPair(cell.item.id)
    requires !HasSplitPair(result.responseRaw) && !HasSplitPair(result.resolvedModel) && IsNumberToken(result.elapsed)
    requires result.reason.Some? ==> !HasSplitPair(result.reason.value)
    requires var o := scorer(cell.item, result.responseRaw);
      && (o.parsed.Some? ==> !HasSplitPair(o.parsed.value))
      && (o.score.Some? ==> IsNumberToken(o.score.value))
      && (o.scorer.Some? ==> !HasSplitPair(o.scorer.value))
    ensures BuildRow(runId, cell, result, scorer).Good()
  {
    DecimalIsNumber(cell.sampleK);
    assert IsNumberToken(ZERO) by {
      assert ZERO[0] == 0x30 && ZERO[1] == 0x2E && ZERO[2] == 0x30 && |ZERO| == 3;
      AllDigitsEnd(ZERO, 2);
    }
    assert !HasSplitPair(NO_RESPONSE_SCORER);
  }
}
