/** Arithmetic summaries shared by the device models: sum, extremes and the
    arithmetic mean of a non-empty list of readings. */
module Stats {

  function Sum(xs: seq<real>): real {
    if |xs| == 0 then 0.0 else Sum(xs[..|xs| - 1]) + xs[|xs| - 1]
  }

  /** The smallest reading; it occurs in the list and bounds every element. */
  function Min(xs: seq<real>): (m: real)
    requires |xs| > 0
    ensures m in xs
    ensures forall k :: 0 <= k < |xs| ==> m <= xs[k]
  {
    if |xs| == 1 then xs[0]
    else
      var m := Min(xs[..|xs| - 1]);
      assert forall k :: 0 <= k < |xs| - 1 ==> xs[..|xs| - 1][k] == xs[k];
      if xs[|xs| - 1] < m then xs[|xs| - 1] else m
  }

  /** The largest reading; it occurs in the list and bounds every element. */
  function Max(xs: seq<real>): (m: real)
    requires |xs| > 0
    ensures m in xs
    ensures forall k :: 0 <= k < |xs| ==> xs[k] <= m
  {
    if |xs| == 1 then xs[0]
    else
      var m := Max(xs[..|xs| - 1]);
      assert forall k :: 0 <= k < |xs| - 1 ==> xs[..|xs| - 1][k] == xs[k];
      if xs[|xs| - 1] > m then xs[|xs| - 1] else m
  }

  /** A sum of `n` readings each within `[lo, hi]` lies within `[n*lo, n*hi]`. */
  lemma {:induction false} SumBounds(xs: seq<real>, lo: real, hi: real)
    requires forall k :: 0 <= k < |xs| ==> lo <= xs[k] <= hi
    ensures |xs| as real * lo <= Sum(xs) <= |xs| as real * hi
  {
    if |xs| > 0 {
      var init := xs[..|xs| - 1];
      assert forall k :: 0 <= k < |init| ==> init[k] == xs[k];
      SumBounds(init, lo, hi);
    }
  }

  lemma DivBounds(s: real, n: real, lo: real, hi: real)
    requires n > 0.0 && n * lo <= s <= n * hi
    ensures lo <= s / n <= hi
  {
    var q := s / n;
    assert q * n == s;
  }

  /** `sum(xs) / len(xs)`: lies between the smallest and the largest reading. */
  function Mean(xs: seq<real>): (m: real)
    requires |xs| > 0
    ensures Min(xs) <= m <= Max(xs)
  {
    SumBounds(xs, Min(xs), Max(xs));
    DivBounds(Sum(xs), |xs| as real, Min(xs), Max(xs));
    Sum(xs) / |xs| as real
  }

  /** The mean of a list of equal readings is that reading. */
  lemma MeanConstant(xs: seq<real>, c: real)
    requires |xs| > 0 && forall k :: 0 <= k < |xs| ==> xs[k] == c
    ensures Mean(xs) == c
  {
    SumBounds(xs, c, c);
  }

  /** Each reading is at most the next one. */
  predicate Ascending(s: seq<real>) {
    forall i :: 0 <= i < |s| - 1 ==> s[i] <= s[i + 1]
  }

  /** Insert a reading into an ascending list, keeping it ascending. */
  function InsertAsc(x: real, s: seq<real>): (r: seq<real>)
    requires Ascending(s)
    ensures Ascending(r)
    ensures multiset(r) == multiset(s) + multiset{x}
    ensures |r| == |s| + 1 && (r[0] == x || (|s| > 0 && r[0] == s[0]))
  {
    if |s| == 0 || x <= s[0] then [x] + s
    else
      var t := InsertAsc(x, s[1..]);
      assert s == [s[0]] + s[1..];
      [s[0]] + t
  }

  /** `sorted(xs)`: the readings in ascending order. */
  function SortAsc(xs: seq<real>): (r: seq<real>)
    ensures Ascending(r)
    ensures multiset(r) == multiset(xs)
  {
    if |xs| == 0 then []
    else
      assert xs == xs[..|xs| - 1] + [xs[|xs| - 1]];
      InsertAsc(xs[|xs| - 1], SortAsc(xs[..|xs| - 1]))
  }

  /** `statistics.median(xs)`: the middle of the sorted readings, or the mean
      of the two middle ones when their number is even. It lies between the
      smallest and the largest reading, and for an odd number of readings it
      is one of them. */
  function Median(xs: seq<real>): (m: real)
    requires |xs| > 0
    ensures Min(xs) <= m <= Max(xs)
    ensures |xs| % 2 == 1 ==> m in xs
  {
    var s := SortAsc(xs);
    var n := |s|;
    assert |s| == |multiset(s)| == |xs|;
    assert s[n / 2] in multiset(xs);
    if n % 2 == 1 then s[n / 2]
    else
      assert s[n / 2 - 1] in multiset(xs);
      (s[n / 2 - 1] + s[n / 2]) / 2.0
  }

  /** The median of one reading is that reading. */
  lemma MedianSingle(x: real)
    ensures Median([x]) == x
  {
    assert Median([x]) in [x];
  }

  /** The median of two readings is their mean. */
  lemma MedianPair(a: real, b: real)
    requires a <= b
    ensures Median([a, b]) == (a + b) / 2.0
  {
    assert SortAsc([a, b]) == [a, b] by {
      assert [a, b][..1] == [a];
      assert SortAsc([a]) == [a];
      InsertAfter(a, b);
    }
  }

  /** Inserting a reading no smaller than the only one appends it. */
  lemma InsertAfter(a: real, b: real)
    requires a <= b
    ensures InsertAsc(b, [a]) == [a, b]
  {
    assert [a][1..] == [];
  }
}
