/** The aggregator of the histogram: `value_counts().sort_index()` on the
    `Oscars Won` column of the Oscars view. */
module Aggregator {
  import opened Movies
  import opened Seqs

  /** (value, number of occurrences) pairs. */
  type Histogram = seq<(int, nat)>

  /** The `Oscars Won` column of a view. */
  function OscarsColumn(view: seq<Movie>): seq<int> {
    seq(|view|, i requires 0 <= i < |view| => view[i].oscars)
  }

  /** The index of a histogram: its values. */
  function Keys(h: Histogram): seq<int> {
    seq(|h|, i requires 0 <= i < |h| => h[i].0)
  }

  /** The values of a histogram: its counts. */
  function Counts(h: Histogram): seq<nat> {
    seq(|h|, i requires 0 <= i < |h| => h[i].1)
  }

  function Sum(s: seq<nat>): nat {
    if s == [] then 0 else s[0] + Sum(s[1..])
  }

  /** The count recorded for `k`, 0 when `k` is not a key. */
  function Lookup(h: Histogram, k: int): nat {
    if h == [] then 0 else if h[0].0 == k then h[0].1 else Lookup(h[1..], k)
  }

  ghost predicate AscendingKeys(h: Histogram) {
    forall i, j :: 0 <= i < j < |h| ==> h[i].0 < h[j].0
  }

  ghost predicate PositiveCounts(h: Histogram) {
    forall i :: 0 <= i < |h| ==> h[i].1 >= 1
  }

  /** Counts one more occurrence of `k` in a histogram ordered by key. */
  function Bump(h: Histogram, k: int): Histogram {
    if h == [] then [(k, 1)]
    else if h[0].0 == k then [(k, h[0].1 + 1)] + h[1..]
    else if k < h[0].0 then [(k, 1)] + h
    else [h[0]] + Bump(h[1..], k)
  }

  /** `value_counts().sort_index()`: the number of occurrences of every
      distinct value of the column, ordered by value. */
  function ValueCounts(col: seq<int>): Histogram {
    if col == [] then [] else Bump(ValueCounts(col[1..]), col[0])
  }

  /** The histogram of the Oscars view. */
  function OscarHistogram(view: seq<Movie>): Histogram {
    ValueCounts(OscarsColumn(view))
  }

  // ---------------------------------------------------------------------------

  lemma {:induction false} LookupBelowFirst(h: Histogram, k: int)
    requires AscendingKeys(h)
    requires h == [] || k < h[0].0
    ensures Lookup(h, k) == 0
  {
    if h != [] {
      assert AscendingKeys(h[1..]);
      if |h| > 1 {
        assert h[1..][0] == h[1];
      }
      LookupBelowFirst(h[1..], k);
    }
  }

  lemma {:induction false} LookupAt(h: Histogram, i: nat)
    requires AscendingKeys(h) && i < |h|
    ensures Lookup(h, h[i].0) == h[i].1
  {
    if i > 0 {
      assert AscendingKeys(h[1..]);
      assert h[1..][i - 1] == h[i];
      LookupAt(h[1..], i - 1);
    }
  }

  lemma {:induction false} LookupPositiveIsKey(h: Histogram, k: int)
    requires PositiveCounts(h)
    ensures Lookup(h, k) > 0 <==> k in Keys(h)
  {
    if h != [] {
      assert PositiveCounts(h[1..]);
      LookupPositiveIsKey(h[1..], k);
      if h[0].0 != k {
        if k in Keys(h) {
          var i :| 0 <= i < |h| && Keys(h)[i] == k;
          assert Keys(h[1..])[i - 1] == k;
        }
        if k in Keys(h[1..]) {
          var i :| 0 <= i < |h[1..]| && Keys(h[1..])[i] == k;
          assert Keys(h)[i + 1] == k;
        }
      } else {
        assert Keys(h)[0] == k;
      }
    }
  }

  /** The sum of the counts of a non-empty histogram: its first count plus
      the sum of the counts of the rest. */
  lemma SumOfCounts(h: Histogram)
    requires h != []
    ensures Sum(Counts(h)) == h[0].1 + Sum(Counts(h[1..]))
  {
    assert Counts(h)[1..] == Counts(h[1..]);
  }

  /** Bump adds one to the count of `k` and leaves every other count alone. */
  lemma {:induction false} BumpLookup(h: Histogram, k: int)
    requires AscendingKeys(h)
    ensures forall j :: Lookup(Bump(h, k), j) == Lookup(h, j) + (if j == k then 1 else 0)
  {
    if h == [] {
    } else if h[0].0 == k {
      assert Bump(h, k)[1..] == h[1..];
    } else if k < h[0].0 {
      assert Bump(h, k)[1..] == h;
      LookupBelowFirst(h, k);
    } else {
      assert AscendingKeys(h[1..]);
      BumpLookup(h[1..], k);
      assert Bump(h, k)[1..] == Bump(h[1..], k);
    }
  }

  /** Bump keeps the keys ascending and the counts positive, adds one to the
      count of `k` and leaves every other count alone. */
  lemma {:induction false} BumpCorrect(h: Histogram, k: int)
    requires AscendingKeys(h) && PositiveCounts(h)
    ensures AscendingKeys(Bump(h, k)) && PositiveCounts(Bump(h, k))
    ensures Bump(h, k) != [] && Bump(h, k)[0].0 == (if h == [] || k < h[0].0 then k else h[0].0)
    ensures forall j :: Lookup(Bump(h, k), j) == Lookup(h, j) + (if j == k then 1 else 0)
  {
    BumpLookup(h, k);
    if h == [] {
    } else if h[0].0 == k {
      assert Bump(h, k)[1..] == h[1..];
    } else if k < h[0].0 {
      assert Bump(h, k)[1..] == h;
    } else {
      var t := h[1..];
      assert AscendingKeys(t) && PositiveCounts(t);
      BumpCorrect(t, k);
      var b := Bump(t, k);
      assert Bump(h, k) == [h[0]] + b;
      if t != [] {
        assert t[0] == h[1];
      }
      forall i, j | 0 <= i < j < |[h[0]] + b| ensures ([h[0]] + b)[i].0 < ([h[0]] + b)[j].0 {
        if i == 0 {
          assert ([h[0]] + b)[j] == b[j - 1];
          assert b[0].0 <= b[j - 1].0;
        } else {
          assert ([h[0]] + b)[i] == b[i - 1];
          assert ([h[0]] + b)[j] == b[j - 1];
        }
      }
    }
  }

  /** Bump adds one to the sum of the counts. */
  lemma {:induction false} BumpSum(h: Histogram, k: int)
    ensures Sum(Counts(Bump(h, k))) == Sum(Counts(h)) + 1
  {
    SumOfCounts(Bump(h, k));
    if h != [] {
      SumOfCounts(h);
      if h[0].0 == k {
        assert Bump(h, k)[1..] == h[1..];
      } else if k < h[0].0 {
        assert Bump(h, k)[1..] == h;
      } else {
        assert Bump(h, k)[1..] == Bump(h[1..], k);
        BumpSum(h[1..], k);
      }
    }
  }

  /** The inductive invariant of ValueCounts. */
  lemma {:induction false} ValueCountsInvariant(col: seq<int>)
    ensures AscendingKeys(ValueCounts(col)) && PositiveCounts(ValueCounts(col))
    ensures forall k :: Lookup(ValueCounts(col), k) == multiset(col)[k]
    ensures Sum(Counts(ValueCounts(col))) == |col|
  {
    if col != [] {
      ValueCountsInvariant(col[1..]);
      BumpCorrect(ValueCounts(col[1..]), col[0]);
      BumpSum(ValueCounts(col[1..]), col[0]);
      assert col == [col[0]] + col[1..];
      assert multiset(col) == multiset{col[0]} + multiset(col[1..]);
    }
  }

  /** What `value_counts().sort_index()` promises: the keys are strictly
      ascending and are exactly the distinct values of the column; each count
      is the number of occurrences of its key, hence at least 1; the counts
      sum to the length of the column, and an empty column has an empty
      histogram. */
  lemma ValueCountsCorrect(col: seq<int>)
    ensures StrictlyAscending(Keys(ValueCounts(col)))
    ensures forall k :: k in Keys(ValueCounts(col)) <==> k in col
    ensures forall i :: 0 <= i < |ValueCounts(col)| ==>
              ValueCounts(col)[i].1 == multiset(col)[ValueCounts(col)[i].0] >= 1
    ensures Sum(Counts(ValueCounts(col))) == |col|
    ensures ValueCounts(col) == [] <==> col == []
  {
    var h := ValueCounts(col);
    ValueCountsInvariant(col);
    forall i | 0 <= i < |h| ensures h[i].1 == multiset(col)[h[i].0] {
      LookupAt(h, i);
    }
    forall k ensures k in Keys(h) <==> k in col {
      LookupPositiveIsKey(h, k);
    }
  }

  /** The same facts for the Oscars view itself: the keys are the distinct
      `Oscars Won` values of its records, and the counts sum to its size. */
  lemma OscarHistogramCorrect(view: seq<Movie>)
    ensures StrictlyAscending(Keys(OscarHistogram(view)))
    ensures forall k :: k in Keys(OscarHistogram(view)) <==> exists m :: m in view && m.oscars == k
    ensures forall i :: 0 <= i < |OscarHistogram(view)| ==>
              OscarHistogram(view)[i].1 == multiset(OscarsColumn(view))[OscarHistogram(view)[i].0] >= 1
    ensures Sum(Counts(OscarHistogram(view))) == |view|
    ensures OscarHistogram(view) == [] <==> view == []
  {
    var col := OscarsColumn(view);
    ValueCountsCorrect(col);
    forall k ensures k in col <==> exists m :: m in view && m.oscars == k {
      if k in col {
        var i :| 0 <= i < |col| && col[i] == k;
        assert view[i] in view;
      }
      if exists m :: m in view && m.oscars == k {
        var m :| m in view && m.oscars == k;
        var i :| 0 <= i < |view| && view[i] == m;
        assert col[i] == k;
      }
    }
  }
}
