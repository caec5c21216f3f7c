/** The report's search for the earliest recognized label: a binary search over prefixes, for any
    recognizer (measure_twice/report_html.py). */
module PrefixSearch {
  import opened Seqs
  import opened Json

  /** Does the extractor recognize this label in this text? */
  type Recognizer = (Text, Text) -> bool

  function CutsFrom(alnum: CodePoint -> bool, text: Text, i: nat): (cuts: seq<nat>)
    requires i <= |text|
    ensures cuts != [] && forall k :: 0 <= k < |cuts| ==> i <= cuts[k] <= |text|
    decreases |text| - i
  {
    if i == |text| then [i]
    else if alnum(text[i]) then CutsFrom(alnum, text, i + 1)
    else [i] + CutsFrom(alnum, text, i + 1)
  }

  /** Where a prefix may end: before every character that is not alphanumeric, and at the end. */
  function Cuts(alnum: CodePoint -> bool, text: Text): (cuts: seq<nat>)
    ensures cuts != [] && forall k :: 0 <= k < |cuts| ==> cuts[k] <= |text|
  {
    CutsFrom(alnum, text, 0)
  }

  /** The cuts, in ascending order, are exactly the end and the places before a character that is not
      alphanumeric. */
  lemma {:induction false} CutsAre(alnum: CodePoint -> bool, text: Text, i: nat)
    requires i <= |text|
    ensures var cuts := CutsFrom(alnum, text, i);
      && cuts[|cuts| - 1] == |text|
      && (forall j, k :: 0 <= j < k < |cuts| ==> cuts[j] < cuts[k])
      && forall p :: p in cuts <==> i <= p <= |text| && (p < |text| ==> !alnum(text[p]))
    decreases |text| - i
  {
    if i < |text| {
      CutsAre(alnum, text, i + 1);
      if !alnum(text[i]) { OneMoreCut(CutsFrom(alnum, text, i + 1), i, |text|); }
    }
  }

  /** A smaller cut in front keeps the order and adds itself. */
  lemma OneMoreCut(rest: seq<nat>, i: nat, n: nat)
    requires rest != [] && rest[|rest| - 1] == n && (forall k :: 0 <= k < |rest| ==> i < rest[k])
    requires forall j, k :: 0 <= j < k < |rest| ==> rest[j] < rest[k]
    ensures var cuts := [i] + rest;
      && cuts[|cuts| - 1] == n
      && (forall j, k :: 0 <= j < k < |cuts| ==> cuts[j] < cuts[k])
      && forall p :: p in cuts <==> p == i || p in rest
  {
  }

  function Search(rec: Recognizer, text: Text, l: Text, cuts: seq<nat>, low: nat, high: nat): (k: nat)
    requires low <= high < |cuts| && forall i :: 0 <= i < |cuts| ==> cuts[i] <= |text|
    ensures low <= k <= high
    decreases high - low
  {
    if low >= high then low
    else
      var mid := (low + high) / 2;
      if rec(text[..cuts[mid]], l) then Search(rec, text, l, cuts, low, mid)
      else Search(rec, text, l, cuts, mid + 1, high)
  }

  /** The cut the search settles on for one label. */
  function CutOf(rec: Recognizer, alnum: CodePoint -> bool, text: Text, l: Text): nat {
    var cuts := Cuts(alnum, text);
    cuts[Search(rec, text, l, cuts, 0, |cuts| - 1)]
  }

  datatype First = First(cut: nat, found: Text)

  function CutFinder(rec: Recognizer, alnum: CodePoint -> bool, text: Text): Text -> nat {
    (l: Text) => CutOf(rec, alnum, text, l)
  }

  lemma FinderFinds(rec: Recognizer, alnum: CodePoint -> bool, text: Text, l: Text)
    ensures var cuts := Cuts(alnum, text);
      CutFinder(rec, alnum, text)(l) == cuts[Search(rec, text, l, cuts, 0, |cuts| - 1)]
  {
  }

  /** `first` is the `at`th label: recognized, with the smallest cut of the first `n` labels, and a
      smaller one than every recognized label before it. */
  ghost predicate Earliest(rec: Recognizer, cutOf: Text -> nat, text: Text, labels: seq<Text>, n: nat, first: First, at: nat)
    requires n <= |labels|
  {
    && at < n && labels[at] == first.found && rec(text, first.found)
    && first.cut == cutOf(first.found)
    && (forall j :: 0 <= j < n && rec(text, labels[j]) ==> first.cut <= cutOf(labels[j]))
    && (forall j :: 0 <= j < at && rec(text, labels[j]) ==> first.cut < cutOf(labels[j]))
  }

  /** The search loop for one label. */
  method BinarySearch(rec: Recognizer, text: Text, l: Text, cuts: seq<nat>) returns (low: nat)
    requires cuts != [] && forall i :: 0 <= i < |cuts| ==> cuts[i] <= |text|
    ensures low == Search(rec, text, l, cuts, 0, |cuts| - 1)
  {
    low := 0;
    var high := |cuts| - 1;
    while low < high
      invariant 0 <= low <= high < |cuts|
      invariant Search(rec, text, l, cuts, low, high) == Search(rec, text, l, cuts, 0, |cuts| - 1)
      decreases high - low
    {
      var mid := (low + high) / 2;
      if rec(text[..cuts[mid]], l) {
        high := mid;
      } else {
        low := mid + 1;
      }
    }
  }

  /** One recognized label: it replaces the earliest so far when its cut is smaller. */
  method KeepEarlier(rec: Recognizer, alnum: CodePoint -> bool, text: Text, labels: seq<Text>, n: nat, cuts: seq<nat>,
                     best: Option<First>, ghost at: nat)
    returns (best': Option<First>, ghost at': nat)
    requires n < |labels| && rec(text, labels[n]) && cuts == Cuts(alnum, text)
    requires best.None? ==> forall j :: 0 <= j < n ==> !rec(text, labels[j])
    requires best.Some? ==> Earliest(rec, CutFinder(rec, alnum, text), text, labels, n, best.value, at)
    ensures best'.Some? && Earliest(rec, CutFinder(rec, alnum, text), text, labels, n + 1, best'.value, at')
  {
    var low := BinarySearch(rec, text, labels[n], cuts);
    FinderFinds(rec, alnum, text, labels[n]);
    EarliestSoFar(rec, CutFinder(rec, alnum, text), text, labels, n, best, at);
    best', at' := best, at;
    if best.None? || cuts[low] < best.value.cut {
      best', at' := Some(First(cuts[low], labels[n])), n;
    }
  }

  /** `_first_recognized_label`, with the cut it settled on and the position of the label. */
  method FirstRecognizedLabel(rec: Recognizer, alnum: CodePoint -> bool, text: Text, labels: seq<Text>)
    returns (best: Option<First>, ghost at: nat)
    ensures best.None? <==> forall j :: 0 <= j < |labels| ==> !rec(text, labels[j])
    ensures best.Some? ==> Earliest(rec, CutFinder(rec, alnum, text), text, labels, |labels|, best.value, at)
  {
    var cuts := Cuts(alnum, text);
    best, at := None, 0;
    for n := 0 to |labels|
      invariant best.None? ==> forall j :: 0 <= j < n ==> !rec(text, labels[j])
      invariant best.Some? ==> Earliest(rec, CutFinder(rec, alnum, text), text, labels, n, best.value, at)
    {
      if rec(text, labels[n]) {
        best, at := KeepEarlier(rec, alnum, text, labels, n, cuts, best, at);
      }
    }
  }

  /** What one more recognized label makes of the earliest one so far. */
  lemma EarliestSoFar(rec: Recognizer, cutOf: Text -> nat, text: Text, labels: seq<Text>, n: nat, best: Option<First>,
                      at: nat)
    requires n < |labels| && rec(text, labels[n])
    requires best.None? ==> forall j :: 0 <= j < n ==> !rec(text, labels[j])
    requires best.Some? ==> Earliest(rec, cutOf, text, labels, n, best.value, at)
    ensures var cut := cutOf(labels[n]);
      if best.None? || cut < best.value.cut then Earliest(rec, cutOf, text, labels, n + 1, First(cut, labels[n]), n)
      else Earliest(rec, cutOf, text, labels, n + 1, best.value, at)
  {
  }

  lemma {:induction false} SearchEndsRecognized(rec: Recognizer, text: Text, l: Text, cuts: seq<nat>, low: nat, high: nat)
    requires low <= high < |cuts| && forall i :: 0 <= i < |cuts| ==> cuts[i] <= |text|
    requires rec(text[..cuts[high]], l)
    ensures rec(text[..cuts[Search(rec, text, l, cuts, low, high)]], l)
    decreases high - low
  {
    if low < high {
      var mid := (low + high) / 2;
      if rec(text[..cuts[mid]], l) { SearchEndsRecognized(rec, text, l, cuts, low, mid); }
      else { SearchEndsRecognized(rec, text, l, cuts, mid + 1, high); }
    }
  }

  /** Whatever the text, the search ends at a cut where the label is recognized. */
  lemma CutIsRecognized(rec: Recognizer, alnum: CodePoint -> bool, text: Text, l: Text)
    requires rec(text, l)
    ensures CutOf(rec, alnum, text, l) in Cuts(alnum, text)
    ensures CutOf(rec, alnum, text, l) <= |text| && rec(text[..CutOf(rec, alnum, text, l)], l)
  {
    var cuts := Cuts(alnum, text);
    CutsAre(alnum, text, 0);
    assert text[..|text|] == text;
    SearchEndsRecognized(rec, text, l, cuts, 0, |cuts| - 1);
  }

  /** Recognition of `l` only grows from cut to cut. */
  ghost predicate Monotone(rec: Recognizer, alnum: CodePoint -> bool, text: Text, l: Text) {
    var cuts := Cuts(alnum, text);
    forall j, k :: 0 <= j <= k < |cuts| && rec(text[..cuts[j]], l) ==> rec(text[..cuts[k]], l)
  }

  lemma MonotoneAt(rec: Recognizer, alnum: CodePoint -> bool, text: Text, l: Text, j: nat, k: nat)
    requires Monotone(rec, alnum, text, l) && j <= k < |Cuts(alnum, text)|
    ensures rec(text[..Cuts(alnum, text)[j]], l) ==> rec(text[..Cuts(alnum, text)[k]], l)
  {
  }

  lemma {:induction false} SearchFindsLeast(rec: Recognizer, alnum: CodePoint -> bool, text: Text, l: Text, cuts: seq<nat>,
                                            low: nat, high: nat)
    requires Monotone(rec, alnum, text, l) && cuts == Cuts(alnum, text)
    requires low <= high < |cuts|
    requires forall k :: 0 <= k < low ==> !rec(text[..cuts[k]], l)
    ensures forall k :: 0 <= k < Search(rec, text, l, cuts, low, high) ==> !rec(text[..cuts[k]], l)
    decreases high - low
  {
    if low < high {
      var mid := (low + high) / 2;
      if rec(text[..cuts[mid]], l) {
        SearchFindsLeast(rec, alnum, text, l, cuts, low, mid);
      } else {
        forall k | 0 <= k <= mid
          ensures !rec(text[..cuts[k]], l)
        {
          MonotoneAt(rec, alnum, text, l, k, mid);
        }
        SearchFindsLeast(rec, alnum, text, l, cuts, mid + 1, high);
      }
    }
  }

  /** When recognition is monotone over the cuts, the search finds the least cut that recognizes. */
  lemma CutIsLeast(rec: Recognizer, alnum: CodePoint -> bool, text: Text, l: Text, c: nat)
    requires Monotone(rec, alnum, text, l)
    requires c in Cuts(alnum, text) && c < CutOf(rec, alnum, text, l)
    ensures c <= |text| && !rec(text[..c], l)
  {
    var cuts := Cuts(alnum, text);
    var k := SmallerCut(alnum, text, Search(rec, text, l, cuts, 0, |cuts| - 1), c);
    SearchFindsLeast(rec, alnum, text, l, cuts, 0, |cuts| - 1);
  }

  lemma SmallerCut(alnum: CodePoint -> bool, text: Text, s: nat, c: nat) returns (k: nat)
    requires s < |Cuts(alnum, text)| && c in Cuts(alnum, text) && c < Cuts(alnum, text)[s]
    ensures k < s && Cuts(alnum, text)[k] == c
  {
    k :| 0 <= k < |Cuts(alnum, text)| && Cuts(alnum, text)[k] == c;
    CutsAscend(alnum, text, s, k);
  }

  lemma CutsAscend(alnum: CodePoint -> bool, text: Text, j: nat, k: nat)
    ensures j < k < |Cuts(alnum, text)| ==> Cuts(alnum, text)[j] < Cuts(alnum, text)[k]
  {
    CutsAre(alnum, text, 0);
  }
}
