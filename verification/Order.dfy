/** Subsequences in order: what a sweep that writes cells one by one, or wave by wave, has written. */
module Order {
  import opened Seqs

  /** `s` can be read off `cells` from left to right. */
  ghost predicate InOrder<T>(cells: seq<T>, s: seq<T>)
    decreases |cells|
  {
    s == [] || (cells != [] &&
      var front, last := cells[..|cells| - 1], cells[|cells| - 1];
      InOrder(front, s) || (s[|s| - 1] == last && InOrder(front, s[..|s| - 1])))
  }

  lemma InOrderSkip<T>(cells: seq<T>, s: seq<T>, x: T)
    requires InOrder(cells, s)
    ensures InOrder(cells + [x], s)
  {
    assert (cells + [x])[..|cells|] == cells;
  }

  lemma InOrderTake<T>(cells: seq<T>, s: seq<T>, x: T)
    requires InOrder(cells, s)
    ensures InOrder(cells + [x], s + [x])
  {
    assert (cells + [x])[..|cells|] == cells && (s + [x])[..|s|] == s;
  }

  lemma {:induction false} InOrderLonger<T>(cells: seq<T>, more: seq<T>, s: seq<T>)
    requires InOrder(cells, s)
    ensures InOrder(cells + more, s)
    decreases |more|
  {
    if more == [] {
      assert cells + more == cells;
    } else {
      var front, last := more[..|more| - 1], more[|more| - 1];
      InOrderLonger(cells, front, s);
      InOrderSkip(cells + front, s, last);
      assert cells + front + [last] == cells + more;
    }
  }

  lemma {:induction false} InOrderPrefix<T>(cells: seq<T>, s: seq<T>, k: nat)
    requires InOrder(cells, s) && k <= |s|
    ensures InOrder(cells, s[..k])
    decreases |cells|
  {
    if k == |s| {
      assert s[..k] == s;
    } else {
      var front := cells[..|cells| - 1];
      if InOrder(front, s) {
        InOrderPrefix(front, s, k);
      } else {
        assert s[..|s| - 1][..k] == s[..k];
        InOrderPrefix(front, s[..|s| - 1], k);
      }
    }
  }

  lemma {:induction false} InOrderAll<T>(cells: seq<T>)
    ensures InOrder(cells, cells)
    decreases |cells|
  {
    if cells != [] { InOrderAll(cells[..|cells| - 1]); }
  }

  lemma {:induction false} InOrderConcat<T>(a: seq<T>, b: seq<T>, s: seq<T>)
    requires InOrder(b, s)
    ensures InOrder(a + b, a + s)
    decreases |b|
  {
    if s == [] {
      InOrderAll(a);
      InOrderLonger(a, b, a);
      assert a + s == a;
    } else {
      var front, last := b[..|b| - 1], b[|b| - 1];
      assert a + b == a + front + [last];
      if InOrder(front, s) {
        InOrderConcat(a, front, s);
        InOrderSkip(a + front, a + s, last);
      } else {
        InOrderConcat(a, front, s[..|s| - 1]);
        InOrderTake(a + front, a + s[..|s| - 1], last);
        assert a + s[..|s| - 1] + [last] == a + s;
      }
    }
  }

  lemma {:induction false} InOrderMembers<T>(cells: seq<T>, s: seq<T>, x: T)
    requires InOrder(cells, s) && x in s
    ensures x in cells
    decreases |cells|
  {
    var front := cells[..|cells| - 1];
    if InOrder(front, s) {
      InOrderMembers(front, s, x);
    } else if x != s[|s| - 1] {
      assert x in s[..|s| - 1];
      InOrderMembers(front, s[..|s| - 1], x);
    }
  }

  /** In a list without repeats, what comes earlier in `s` comes earlier in the list. */
  lemma {:induction false} InOrderPositions<T(!new)>(cells: seq<T>, s: seq<T>, i: nat, j: nat, a: nat, b: nat)
    requires InOrder(cells, s) && Distinct(cells) && i < j < |s| && a < |cells| && b < |cells|
    requires cells[a] == s[i] && cells[b] == s[j]
    ensures a < b
    decreases |cells|
  {
    var front, n := cells[..|cells| - 1], |cells| - 1;
    if InOrder(front, s) {
      InOrderMembers(front, s, s[i]);
      InOrderMembers(front, s, s[j]);
      assert a != n && b != n;
      InOrderPositions(front, s, i, j, a, b);
    } else {
      var rest := s[..|s| - 1];
      assert rest[i] == s[i] && rest[i] in rest;
      InOrderMembers(front, rest, s[i]);
      assert a != n;
      if j < |rest| {
        assert rest[j] == s[j] && rest[j] in rest;
        InOrderMembers(front, rest, s[j]);
        assert b != n;
        InOrderPositions(front, rest, i, j, a, b);
      }
    }
  }

  lemma {:induction false} InOrderDistinct<T(!new)>(cells: seq<T>, s: seq<T>)
    requires InOrder(cells, s) && Distinct(cells)
    ensures Distinct(s)
    decreases |cells|
  {
    if s != [] {
      var front, rest := cells[..|cells| - 1], s[..|s| - 1];
      if InOrder(front, s) {
        InOrderDistinct(front, s);
      } else {
        InOrderDistinct(front, rest);
        forall i | 0 <= i < |rest| ensures rest[i] in front { InOrderMembers(front, rest, rest[i]); }
      }
    }
  }

  lemma InOrderFew<T>(cells: seq<T>, s: seq<T>)
    requires InOrder(cells, s) && |cells| <= 1
    ensures s == [] || s == cells
  {
    if s != [] {
      var front, rest := cells[..|cells| - 1], s[..|s| - 1];
      assert front == [] && !InOrder(front, s);
      assert rest == [];
    }
  }

  // ----- Waves -----------------------------------------------------------------------------------

  /** Everything up to `i`, and of the next `width` cells some, in order. */
  ghost predicate WaveAt<T>(cells: seq<T>, s: seq<T>, width: nat, i: nat) {
    && i <= |s| && i <= |cells| && s[..i] == cells[..i]
    && InOrder(cells[i..Min(i + width, |cells|)], s[i..])
  }

  ghost predicate InWaves<T>(cells: seq<T>, s: seq<T>, width: nat) { exists i: nat :: WaveAt(cells, s, width, i) }

  lemma WholeWaves<T>(cells: seq<T>, s: seq<T>, width: nat)
    requires s <= cells
    ensures InWaves(cells, s, width)
  {
    assert WaveAt(cells, s, width, |s|);
  }

  lemma InWavesWider<T>(cells: seq<T>, s: seq<T>, width: nat, wider: nat)
    requires InWaves(cells, s, width) && width <= wider
    ensures InWaves(cells, s, wider)
  {
    var i: nat :| WaveAt(cells, s, width, i);
    var near, far := Min(i + width, |cells|), Min(i + wider, |cells|);
    InOrderLonger(cells[i..near], cells[near..far], s[i..]);
    assert cells[i..near] + cells[near..far] == cells[i..far];
    assert WaveAt(cells, s, wider, i);
  }

  lemma InWavesLonger<T>(cells: seq<T>, all: seq<T>, s: seq<T>, width: nat)
    requires InWaves(cells, s, width) && cells <= all
    ensures InWaves(all, s, width)
  {
    var i: nat :| WaveAt(cells, s, width, i);
    var near, far := Min(i + width, |cells|), Min(i + width, |all|);
    InOrderLonger(cells[i..near], all[near..far], s[i..]);
    assert cells[i..near] + all[near..far] == all[i..far];
    assert WaveAt(all, s, width, i);
  }

  lemma InWavesAfter<T>(a: seq<T>, b: seq<T>, s: seq<T>, width: nat)
    requires InWaves(b, s, width)
    ensures InWaves(a + b, a + s, width)
  {
    var i: nat :| WaveAt(b, s, width, i);
    var n := |a| + i;
    assert (a + s)[..n] == a + s[..i] && (a + b)[..n] == a + b[..i];
    assert (a + s)[n..] == s[i..] && (a + b)[n..Min(n + width, |a + b|)] == b[i..Min(i + width, |b|)];
    assert WaveAt(a + b, a + s, width, n);
  }

  /** With waves of one, it is a prefix. */
  lemma WavesOfOne<T>(cells: seq<T>, s: seq<T>)
    ensures InWaves(cells, s, 1) <==> s <= cells
  {
    if s <= cells { WholeWaves(cells, s, 1); }
    if InWaves(cells, s, 1) {
      var i: nat :| WaveAt(cells, s, 1, i);
      var window := cells[i..Min(i + 1, |cells|)];
      var tail := s[i..];
      InOrderFew(window, tail);
      if tail != [] {
        assert tail == [cells[i]];
        assert s == s[..i] + s[i..] && cells[..i + 1] == cells[..i] + [cells[i]];
      } else {
        assert s == s[..i];
      }
    }
  }

  lemma InWavesInOrder<T>(cells: seq<T>, s: seq<T>, width: nat)
    requires InWaves(cells, s, width)
    ensures InOrder(cells, s)
  {
    var i: nat :| WaveAt(cells, s, width, i);
    var far := Min(i + width, |cells|);
    InOrderConcat(cells[..i], cells[i..far], s[i..]);
    InOrderLonger(cells[..i] + cells[i..far], cells[far..], cells[..i] + s[i..]);
    assert cells[..i] + cells[i..far] + cells[far..] == cells && cells[..i] + s[i..] == s;
  }
}
