/** The cells of a sweep, the rows built for them, and which cells are still pending
    (measure_twice/runner.py). */
module Cells {
  import opened Seqs
  import opened Json
  import opened JsonProofs
  import opened LineStore
  import opened RunRows

  datatype Item = Item(id: Text, prompt: Text, expected: Text)

  datatype Cell = Cell(model: Text, item: Item, sampleK: nat)

  /** What an adapter returns: text, no response (the reserved text) or an error class. */
  datatype CallResult = CallResult(responseRaw: Text, resolvedModel: Text, elapsed: Text, reason: Option<Text>)

  const NO_RESPONSE: Text := [0xFDD0] + Lit("MEASURE_TWICE_NO_RESPONSE") + [0xFDD0]
  const NO_RESPONSE_SCORER: Text := Lit("no_response")
  const ZERO: Text := Lit("0.0")

  datatype ScoreOutcome = ScoreOutcome(parsed: Option<Text>, score: Option<Text>, scorer: Option<Text>)

  type Scorer = (Item, Text) -> ScoreOutcome

  /** `collect_only_scorer`. */
  function CollectOnly(item: Item, raw: Text): ScoreOutcome { ScoreOutcome(None, None, None) }

  function OptStr(t: Option<Text>): Json { if t.Some? then Str(t.value) else Null }

  function OptNum(t: Option<Text>): Json { if t.Some? then Num(t.value) else Null }

  // ----- Sample numbers -----------------------------------------------------------------------------

  /** A natural number in decimal. */
  function Decimal(n: nat): (t: Text)
    ensures t != []
  {
    if n < 10 then [0x30 + n] else Decimal(n / 10) + [0x30 + n % 10]
  }

  lemma {:induction false} DecimalDigits(n: nat)
    ensures forall i :: 0 <= i < |Decimal(n)| ==> IsDigit(Decimal(n)[i])
    ensures n >= 1 ==> Decimal(n)[0] != 0x30
    ensures n < 10 <==> |Decimal(n)| == 1
    decreases n
  {
    if n >= 10 { DecimalDigits(n / 10); }
  }

  lemma {:induction false} DecimalIsInjective(a: nat, b: nat)
    requires Decimal(a) == Decimal(b)
    ensures a == b
    decreases a
  {
    var t := Decimal(a);
    assert t[|t| - 1] == 0x30 + a % 10 && t[|t| - 1] == 0x30 + b % 10;
    DecimalDigits(a);
    DecimalDigits(b);
    if a >= 10 {
      assert Decimal(a / 10) == t[..|t| - 1] && Decimal(b / 10) == t[..|t| - 1];
      DecimalIsInjective(a / 10, b / 10);
    }
  }

  /** The number a run of digits stands for. */
  function DigitsValue(t: Text): int { if t == [] then 0 else 10 * DigitsValue(t[..|t| - 1]) + (t[|t| - 1] as int - 0x30) }

  lemma {:induction false} DecimalValue(n: nat)
    ensures DigitsValue(Decimal(n)) == n
    decreases n
  {
    var t := Decimal(n);
    if n >= 10 {
      assert t[..|t| - 1] == Decimal(n / 10);
      DecimalValue(n / 10);
    } else {
      assert t[..0] == [];
    }
  }

  lemma {:induction false} AllDigitsEnd(t: Text, i: nat)
    requires i <= |t| && forall k :: i <= k < |t| ==> IsDigit(t[k])
    ensures DigitsEnd(t, i) == |t|
    decreases |t| - i
  {
    if i < |t| { AllDigitsEnd(t, i + 1); }
  }

  lemma DecimalIsNumber(n: nat)
    ensures IsNumberToken(Decimal(n))
  {
    DecimalDigits(n);
    var t := Decimal(n);
    AllDigitsEnd(t, 1);
    assert NumberLength(t) == |t|;
  }

  // ----- Rows ---------------------------------------------------------------------------------------

  function KeyOf(cell: Cell): Key { (Str(cell.model), Str(cell.item.id), Num(Decimal(cell.sampleK))) }

  lemma KeyIsInjective(a: Cell, b: Cell)
    requires KeyOf(a) == KeyOf(b)
    ensures a.model == b.model && a.item.id == b.item.id && a.sampleK == b.sampleK
  {
    DecimalIsInjective(a.sampleK, b.sampleK);
  }

  /** `_build_row`: an error first, then the forced zero of no response, then the scorer. */
  function BuildRow(runId: Text, cell: Cell, result: CallResult, scorer: Scorer): (row: RunRow)
    ensures row.CellKey() == KeyOf(cell)
  {
    var blank := RunRow(Str(runId), Str(cell.model), Str(result.resolvedModel), Str(cell.item.id),
                        Num(Decimal(cell.sampleK)), Str([]), Null, Null, Null, Null, Num(result.elapsed), Null);
    if result.reason.Some? then blank.(error := Str(result.reason.value))
    else if result.responseRaw == NO_RESPONSE then blank.(score := Num(ZERO), scorer := Str(NO_RESPONSE_SCORER))
    else
      var outcome := scorer(cell.item, result.responseRaw);
      blank.(responseRaw := Str(result.responseRaw), parsed := OptStr(outcome.parsed),
             score := OptNum(outcome.score), scorer := OptStr(outcome.scorer))
  }

  /** The terminal shapes of a row: an error decides first, then no response, and only then the scorer. */
  lemma RowShape(runId: Text, cell: Cell, result: CallResult, scorer: Scorer)
    ensures var row, outcome := BuildRow(runId, cell, result, scorer), scorer(cell.item, result.responseRaw);
      var shape := (row.responseRaw, row.parsed, row.score, row.scorer, row.error);
      && (row.runId, row.modelIdResolved, row.elapsedS, row.judgeScores)
         == (Str(runId), Str(result.resolvedModel), Num(result.elapsed), Null)
      && shape == match result.reason
         case Some(reason) => (Str([]), Null, Null, Null, Str(reason))
         case None =>
           if result.responseRaw == [0xFDD0] + Lit("MEASURE_TWICE_NO_RESPONSE") + [0xFDD0]
           then (Str([]), Null, Num(Lit("0.0")), Str(Lit("no_response")), Null)
           else (Str(result.responseRaw), OptStr(outcome.parsed), OptNum(outcome.score), OptStr(outcome.scorer), Null)
  {
  }

  /** The scorer matters exactly for a real response. */
  lemma ScorerMattersExactly(runId: Text, cell: Cell, result: CallResult)
    ensures (forall a: Scorer, b: Scorer :: BuildRow(runId, cell, result, a) == BuildRow(runId, cell, result, b))
      <==> result.reason.Some? || result.responseRaw == NO_RESPONSE
  {
    if result.reason.None? && result.responseRaw != NO_RESPONSE {
      var plain: Scorer := (item, raw) => ScoreOutcome(None, None, None);
      var named: Scorer := (item, raw) => ScoreOutcome(None, None, Some([]));
      assert BuildRow(runId, cell, result, plain).scorer == Null;
      assert BuildRow(runId, cell, result, named).scorer == Str([]);
    }
  }

  /** One invocation's fixed surroundings: what each call would answer, and the scorer. */
  datatype Env = Env(runId: Text, calls: Cell -> CallResult, scorer: Scorer)

  function RowOf(env: Env, cell: Cell): (row: RunRow)
    ensures row.CellKey() == KeyOf(cell)
  {
    BuildRow(env.runId, cell, env.calls(cell), env.scorer)
  }

  function RowsOf(env: Env, cells: seq<Cell>): (rows: seq<RunRow>)
    ensures |rows| == |cells|
    ensures forall i :: 0 <= i < |cells| ==> rows[i] == RowOf(env, cells[i])
  {
    seq(|cells|, i requires 0 <= i < |cells| => RowOf(env, cells[i]))
  }

  lemma RowsOfLast(env: Env, cells: seq<Cell>, cell: Cell)
    ensures RowsOf(env, cells + [cell]) == RowsOf(env, cells) + [RowOf(env, cell)]
  {
  }

  // ----- The sweep's cells --------------------------------------------------------------------------

  datatype Plan = Plan(items: seq<Item>, samples: nat)

  /** A suite rejects repeated item ids when it is loaded. */
  ghost predicate DistinctIds(items: seq<Item>) { forall i, j :: 0 <= i < j < |items| ==> items[i].id != items[j].id }

  function ItemCells(model: Text, item: Item, samples: nat, done: set<Key>): seq<Cell> {
    if samples == 0 then []
    else
      var cell := Cell(model, item, samples - 1);
      ItemCells(model, item, samples - 1, done) + if KeyOf(cell) in done then [] else [cell]
  }

  /** `_pending_cells`: the cells of one model without a row, in item then sample order. */
  function Pending(model: Text, items: seq<Item>, samples: nat, done: set<Key>): seq<Cell> {
    if items == [] then []
    else Pending(model, items[..|items| - 1], samples, done) + ItemCells(model, items[|items| - 1], samples, done)
  }

  function PendingAll(roster: seq<Text>, items: seq<Item>, samples: nat, done: set<Key>): seq<Cell> {
    if roster == [] then []
    else PendingAll(roster[..|roster| - 1], items, samples, done) + Pending(roster[|roster| - 1], items, samples, done)
  }

  predicate InSweep(roster: seq<Text>, items: seq<Item>, samples: nat, cell: Cell) {
    cell.model in roster && cell.item in items && cell.sampleK < samples
  }

  /** Cells with pairwise different keys. */
  ghost predicate DistinctKeys(cells: seq<Cell>) {
    forall i, j :: 0 <= i < j < |cells| ==> KeyOf(cells[i]) != KeyOf(cells[j])
  }

  lemma DistinctKeysConcat(a: seq<Cell>, b: seq<Cell>)
    requires DistinctKeys(a) && DistinctKeys(b)
    requires forall x, y :: x in a && y in b ==> KeyOf(x) != KeyOf(y)
    ensures DistinctKeys(a + b)
  {
    var s := a + b;
    forall i, j | 0 <= i < j < |s|
      ensures KeyOf(s[i]) != KeyOf(s[j])
    {
      if i < |a| <= j { assert s[i] in a && s[j] in b; }
    }
  }

  lemma {:induction false} ItemCellsAre(model: Text, item: Item, samples: nat, done: set<Key>)
    ensures forall cell :: cell in ItemCells(model, item, samples, done) <==>
      cell.model == model && cell.item == item && cell.sampleK < samples && KeyOf(cell) !in done
    decreases samples
  {
    if samples > 0 { ItemCellsAre(model, item, samples - 1, done); }
  }

  lemma {:induction false} ItemCellsDistinct(model: Text, item: Item, samples: nat, done: set<Key>)
    ensures DistinctKeys(ItemCells(model, item, samples, done))
    ensures done == {} ==> |ItemCells(model, item, samples, done)| == samples
    decreases samples
  {
    if samples > 0 {
      ItemCellsDistinct(model, item, samples - 1, done);
      ItemCellsAre(model, item, samples - 1, done);
      var front, last := ItemCells(model, item, samples - 1, done), Cell(model, item, samples - 1);
      forall cell | cell in front
        ensures KeyOf(cell) != KeyOf(last)
      {
        if KeyOf(cell) == KeyOf(last) { KeyIsInjective(cell, last); }
      }
      DistinctKeysConcat(front, if KeyOf(last) in done then [] else [last]);
    }
  }

  lemma InSnoc<T>(front: seq<T>, last: T, s: seq<T>)
    requires s == front + [last]
    ensures forall x :: x in s <==> x in front || x == last
  {
  }

  lemma {:induction false} PendingAre(model: Text, items: seq<Item>, samples: nat, done: set<Key>)
    ensures forall cell :: cell in Pending(model, items, samples, done) <==>
      cell.model == model && cell.item in items && cell.sampleK < samples && KeyOf(cell) !in done
    decreases |items|
  {
    if items != [] {
      var front, last := items[..|items| - 1], items[|items| - 1];
      PendingAre(model, front, samples, done);
      ItemCellsAre(model, last, samples, done);
      InSnoc(front, last, items);
    }
  }

  lemma {:induction false} PendingDistinct(model: Text, items: seq<Item>, samples: nat, done: set<Key>)
    requires DistinctIds(items)
    ensures DistinctKeys(Pending(model, items, samples, done))
    ensures done == {} ==> |Pending(model, items, samples, done)| == |items| * samples
    decreases |items|
  {
    if items != [] {
      var front, last := items[..|items| - 1], items[|items| - 1];
      PendingDistinct(model, front, samples, done);
      ItemCellsDistinct(model, last, samples, done);
      PendingAre(model, front, samples, done);
      ItemCellsAre(model, last, samples, done);
      var a, b := Pending(model, front, samples, done), ItemCells(model, last, samples, done);
      forall x, y | x in a && y in b
        ensures KeyOf(x) != KeyOf(y)
      {
        var i :| 0 <= i < |front| && front[i] == x.item;
        assert items[i].id != last.id;
        if KeyOf(x) == KeyOf(y) { KeyIsInjective(x, y); }
      }
      DistinctKeysConcat(a, b);
      Product(|front|, samples, 1);
    }
  }

  /** The pending cells: exactly those of the sweep without a row. */
  lemma {:induction false} PendingAllAre(roster: seq<Text>, items: seq<Item>, samples: nat, done: set<Key>)
    ensures forall cell :: cell in PendingAll(roster, items, samples, done) <==>
      InSweep(roster, items, samples, cell) && KeyOf(cell) !in done
    decreases |roster|
  {
    if roster != [] {
      var front, last := roster[..|roster| - 1], roster[|roster| - 1];
      PendingAllAre(front, items, samples, done);
      PendingAre(last, items, samples, done);
      InSnoc(front, last, roster);
    }
  }

  lemma {:induction false} PendingAllDistinct(roster: seq<Text>, items: seq<Item>, samples: nat, done: set<Key>)
    requires Distinct(roster) && DistinctIds(items)
    ensures DistinctKeys(PendingAll(roster, items, samples, done))
    decreases |roster|
  {
    if roster != [] {
      var front, last := roster[..|roster| - 1], roster[|roster| - 1];
      PendingAllDistinct(front, items, samples, done);
      PendingDistinct(last, items, samples, done);
      PendingAllAre(front, items, samples, done);
      PendingAre(last, items, samples, done);
      assert roster == front + [last];
      ApartByModel(PendingAll(front, items, samples, done), Pending(last, items, samples, done), front, last);
    }
  }

  lemma {:induction false} PendingAllCount(roster: seq<Text>, items: seq<Item>, samples: nat)
    requires DistinctIds(items)
    ensures |PendingAll(roster, items, samples, {})| == |roster| * |items| * samples
    decreases |roster|
  {
    if roster != [] {
      var front, last := roster[..|roster| - 1], roster[|roster| - 1];
      PendingAllCount(front, items, samples);
      PendingDistinct(last, items, samples, {});
      Product(|front|, |items|, samples);
    }
  }

  lemma ApartByModel(a: seq<Cell>, b: seq<Cell>, front: seq<Text>, last: Text)
    requires DistinctKeys(a) && DistinctKeys(b) && Distinct(front + [last])
    requires (forall x :: x in a ==> x.model in front) && forall y :: y in b ==> y.model == last
    ensures DistinctKeys(a + b)
  {
    forall x, y | x in a && y in b
      ensures KeyOf(x) != KeyOf(y)
    {
      var i :| 0 <= i < |front| && front[i] == x.model;
      assert (front + [last])[i] != (front + [last])[|front|];
      if KeyOf(x) == KeyOf(y) { KeyIsInjective(x, y); }
    }
    DistinctKeysConcat(a, b);
  }

  lemma Product(m: nat, n: nat, k: nat)
    ensures (m + 1) * n * k == m * n * k + n * k
  {
    assert (m + 1) * n == m * n + n;
  }

  // ----- Their order --------------------------------------------------------------------------------

  /** Whether `x` is swept before `y`: by the model's place in the roster, then by the item's place in
      the suite, then by sample. */
  predicate SweptBefore(roster: seq<Text>, items: seq<Item>, x: Cell, y: Cell)
    requires x.model in roster && y.model in roster && x.item in items && y.item in items
  {
    var m, n, p, q := Place(roster, x.model), Place(roster, y.model), Place(items, x.item), Place(items, y.item);
    m < n || (m == n && (p < q || (p == q && x.sampleK < y.sampleK)))
  }

  ghost predicate InSweepOrder(roster: seq<Text>, items: seq<Item>, cells: seq<Cell>) {
    && (forall i :: 0 <= i < |cells| ==> cells[i].model in roster && cells[i].item in items)
    && (forall i, j :: 0 <= i < j < |cells| ==> SweptBefore(roster, items, cells[i], cells[j]))
  }

  lemma OrderConcat(roster: seq<Text>, items: seq<Item>, a: seq<Cell>, b: seq<Cell>)
    requires InSweepOrder(roster, items, a) && InSweepOrder(roster, items, b)
    requires forall x, y :: x in a && y in b ==> SweptBefore(roster, items, x, y)
    ensures InSweepOrder(roster, items, a + b)
  {
    var s := a + b;
    forall i, j | 0 <= i < j < |s|
      ensures SweptBefore(roster, items, s[i], s[j])
    {
      if i < |a| <= j { assert s[i] in a && s[j] in b; }
    }
  }

  /** More models or items after the ones at hand do not change the order. */
  lemma OrderWider(roster: seq<Text>, items: seq<Item>, model: seq<Text>, item: seq<Item>, cells: seq<Cell>)
    requires InSweepOrder(roster, items, cells) && |model| <= 1 && |item| <= 1
    ensures InSweepOrder(roster + model, items + item, cells)
  {
    assert |model| == 1 ==> (roster + model)[..|roster|] == roster;
    assert |item| == 1 ==> (items + item)[..|items|] == items;
    assert |model| == 0 ==> roster + model == roster;
    assert |item| == 0 ==> items + item == items;
    forall i, j | 0 <= i < j < |cells|
      ensures SweptBefore(roster + model, items + item, cells[i], cells[j])
    {
      assert SweptBefore(roster, items, cells[i], cells[j]);
    }
  }

  lemma {:induction false} ItemCellsOrdered(model: Text, items: seq<Item>, item: Item, samples: nat, done: set<Key>)
    requires item in items
    ensures InSweepOrder([model], items, ItemCells(model, item, samples, done))
    decreases samples
  {
    if samples > 0 {
      var cell := Cell(model, item, samples - 1);
      ItemCellsOrdered(model, items, item, samples - 1, done);
      ItemCellsAre(model, item, samples - 1, done);
      OrderConcat([model], items, ItemCells(model, item, samples - 1, done), if KeyOf(cell) in done then [] else [cell]);
    }
  }

  lemma {:induction false} PendingOrdered(model: Text, items: seq<Item>, samples: nat, done: set<Key>)
    requires DistinctIds(items)
    ensures InSweepOrder([model], items, Pending(model, items, samples, done))
    decreases |items|
  {
    if items != [] {
      var n := |items| - 1;
      var front, rest := Pending(model, items[..n], samples, done), ItemCells(model, items[n], samples, done);
      PendingOrdered(model, items[..n], samples, done);
      OrderWider([model], items[..n], [], [items[n]], front);
      assert items[..n] + [items[n]] == items && [model] + [] == [model];
      ItemCellsOrdered(model, items, items[n], samples, done);
      PendingAre(model, items[..n], samples, done);
      ItemCellsAre(model, items[n], samples, done);
      forall x, y | x in front && y in rest
        ensures SweptBefore([model], items, x, y)
      {
        FrontFirst(items, x.item);
      }
      OrderConcat([model], items, front, rest);
    }
  }

  lemma FrontFirst(items: seq<Item>, x: Item)
    requires DistinctIds(items) && items != [] && x in items[..|items| - 1]
    ensures Place(items, x) < Place(items, items[|items| - 1])
  {
  }

  /** The whole sweep goes by the model's place in the roster, then by item, then by sample. */
  lemma {:induction false} PendingAllOrdered(roster: seq<Text>, items: seq<Item>, samples: nat, done: set<Key>)
    requires Distinct(roster) && DistinctIds(items)
    ensures InSweepOrder(roster, items, PendingAll(roster, items, samples, done))
    decreases |roster|
  {
    if roster != [] {
      var n := |roster| - 1;
      var front, rest := PendingAll(roster[..n], items, samples, done), Pending(roster[n], items, samples, done);
      PendingAllOrdered(roster[..n], items, samples, done);
      OrderWider(roster[..n], items, [roster[n]], [], front);
      assert roster[..n] + [roster[n]] == roster && items + [] == items;
      PendingOrdered(roster[n], items, samples, done);
      PendingAllAre(roster[..n], items, samples, done);
      PendingAre(roster[n], items, samples, done);
      SameModelOrder(roster, items, roster[n], rest);
      OrderConcat(roster, items, front, rest);
    }
  }

  lemma SameModelOrder(roster: seq<Text>, items: seq<Item>, model: Text, cells: seq<Cell>)
    requires model in roster && InSweepOrder([model], items, cells)
    ensures InSweepOrder(roster, items, cells)
  {
    assert forall i :: 0 <= i < |cells| ==> cells[i].model == model;
    forall i, j | 0 <= i < j < |cells|
      ensures SweptBefore(roster, items, cells[i], cells[j])
    {
      assert SweptBefore([model], items, cells[i], cells[j]);
    }
  }

  function KeysOf(cells: seq<Cell>): set<Key> { set cell | cell in cells :: KeyOf(cell) }

  /** Every key of the sweep. */
  function SweepKeys(roster: seq<Text>, items: seq<Item>, samples: nat): set<Key> {
    KeysOf(PendingAll(roster, items, samples, {}))
  }

  lemma {:induction false} KeysOfCount(cells: seq<Cell>)
    requires DistinctKeys(cells)
    ensures |KeysOf(cells)| == |cells|
    decreases |cells|
  {
    if cells != [] {
      var front, last := cells[..|cells| - 1], cells[|cells| - 1];
      KeysOfCount(front);
      assert cells == front + [last];
      assert KeysOf(cells) == KeysOf(front) + {KeyOf(last)};
      assert KeyOf(last) !in KeysOf(front);
    }
  }

  /** roster x items x samples. */
  lemma SweepKeysCount(roster: seq<Text>, items: seq<Item>, samples: nat)
    requires Distinct(roster) && DistinctIds(items)
    ensures |SweepKeys(roster, items, samples)| == |roster| * |items| * samples
  {
    PendingAllDistinct(roster, items, samples, {});
    PendingAllCount(roster, items, samples);
    KeysOfCount(PendingAll(roster, items, samples, {}));
  }

  lemma PendingKeys(roster: seq<Text>, items: seq<Item>, samples: nat, done: set<Key>)
    ensures KeysOf(PendingAll(roster, items, samples, done)) == SweepKeys(roster, items, samples) - done
  {
    var every, pending := PendingAll(roster, items, samples, {}), PendingAll(roster, items, samples, done);
    PendingAllAre(roster, items, samples, done);
    PendingAllAre(roster, items, samples, {});
    forall k
      ensures k in KeysOf(pending) <==> k in KeysOf(every) && k !in done
    {
      if k in KeysOf(every) && k !in done {
        var cell :| cell in every && KeyOf(cell) == k;
        assert cell in pending;
      }
      if k in KeysOf(pending) {
        var cell :| cell in pending && KeyOf(cell) == k;
        assert cell in every;
      }
    }
  }

  /** When every row found is for a cell of the sweep, the rest are pending. */
  lemma PendingCount(roster: seq<Text>, items: seq<Item>, samples: nat, done: set<Key>)
    requires Distinct(roster) && DistinctIds(items) && done <= SweepKeys(roster, items, samples)
    ensures |PendingAll(roster, items, samples, done)| == |SweepKeys(roster, items, samples)| - |done|
  {
    var all := SweepKeys(roster, items, samples);
    PendingKeys(roster, items, samples, done);
    PendingAllDistinct(roster, items, samples, done);
    KeysOfCount(PendingAll(roster, items, samples, done));
    assert all == (all - done) + done;
  }
}
