/** Column statistics used by the mean and median fills (pandas' `mean()` and
    `median()` over the present values of a column), on exact reals. */
module Stats {

  function Sum(s: seq<real>): real {
    if |s| == 0 then 0.0 else s[0] + Sum(s[1..])
  }

  lemma {:induction false} SumAbove(s: seq<real>, v: real)
    requires |s| > 0
    requires forall i :: 0 <= i < |s| ==> s[i] > v
    ensures Sum(s) > |s| as real * v
  {
    if |s| > 1 {
      SumAbove(s[1..], v);
    }
  }

  lemma {:induction false} SumBelow(s: seq<real>, v: real)
    requires |s| > 0
    requires forall i :: 0 <= i < |s| ==> s[i] < v
    ensures Sum(s) < |s| as real * v
  {
    if |s| > 1 {
      SumBelow(s[1..], v);
    }
  }

  /** The arithmetic mean: the value whose `|s|` copies add up to the sum, and
      which lies between the smallest and the largest value. */
  function Mean(s: seq<real>): (r: real)
    requires |s| > 0
    ensures r * |s| as real == Sum(s)
    ensures exists i :: 0 <= i < |s| && s[i] <= r
    ensures exists i :: 0 <= i < |s| && r <= s[i]
  {
    var m := Sum(s) / |s| as real;
    if forall i :: 0 <= i < |s| ==> s[i] > m then
      SumAbove(s, m);
      m
    else if forall i :: 0 <= i < |s| ==> s[i] < m then
      SumBelow(s, m);
      m
    else
      m
  }

  predicate Sorted(s: seq<real>) {
    forall i, j :: 0 <= i < j < |s| ==> s[i] <= s[j]
  }

  /** Inserts `x` into an ascending sequence. */
  function Insert(x: real, s: seq<real>): (r: seq<real>)
    requires Sorted(s)
    ensures Sorted(r)
    ensures multiset(r) == multiset(s) + multiset{x}
    ensures |r| == |s| + 1 && (r[0] == x || (|s| > 0 && r[0] == s[0]))
  {
    if |s| == 0 then [x]
    else if x <= s[0] then [x] + s
    else
      var t := Insert(x, s[1..]);
      assert multiset(s) == multiset{s[0]} + multiset(s[1..]) by {
        assert s == [s[0]] + s[1..];
      }
      [s[0]] + t
  }

  /** Ascending sort: a sorted permutation of `s`. */
  function Sort(s: seq<real>): (r: seq<real>)
    ensures Sorted(r)
    ensures multiset(r) == multiset(s)
  {
    if |s| == 0 then []
    else
      assert s == [s[0]] + s[1..];
      Insert(s[0], Sort(s[1..]))
  }

  /** How many values lie strictly below / strictly above `m`. */
  function CountBelow(s: seq<real>, m: real): nat {
    if |s| == 0 then 0 else (if s[0] < m then 1 else 0) + CountBelow(s[1..], m)
  }

  function CountAbove(s: seq<real>, m: real): nat {
    if |s| == 0 then 0 else (if s[0] > m then 1 else 0) + CountAbove(s[1..], m)
  }

  lemma {:induction false} CountsAppend(a: seq<real>, b: seq<real>, m: real)
    ensures CountBelow(a + b, m) == CountBelow(a, m) + CountBelow(b, m)
    ensures CountAbove(a + b, m) == CountAbove(a, m) + CountAbove(b, m)
  {
    if |a| > 0 {
      CountsAppend(a[1..], b, m);
      assert (a + b)[1..] == a[1..] + b;
    } else {
      assert a + b == b;
    }
  }

  lemma {:induction false} CountsBounded(s: seq<real>, m: real)
    ensures CountBelow(s, m) <= |s| && CountAbove(s, m) <= |s|
  {
    if |s| > 0 {
      CountsBounded(s[1..], m);
    }
  }

  lemma {:induction false} CountsNone(s: seq<real>, m: real)
    ensures (forall i :: 0 <= i < |s| ==> s[i] >= m) ==> CountBelow(s, m) == 0
    ensures (forall i :: 0 <= i < |s| ==> s[i] <= m) ==> CountAbove(s, m) == 0
  {
    if |s| > 0 {
      CountsNone(s[1..], m);
    }
  }

  /** Taking one value out of a sequence takes it out of its counts. */
  lemma CountsRemove(b: seq<real>, k: nat, m: real)
    requires k < |b|
    ensures CountBelow(b, m) == CountBelow(b[..k] + b[k + 1..], m) + (if b[k] < m then 1 else 0)
    ensures CountAbove(b, m) == CountAbove(b[..k] + b[k + 1..], m) + (if b[k] > m then 1 else 0)
  {
    assert b == b[..k] + b[k..];
    assert b[k..][1..] == b[k + 1..];
    CountsAppend(b[..k], b[k..], m);
    CountsAppend(b[..k], b[k + 1..], m);
  }

  /** Taking one value out of a sequence takes it out of its multiset. */
  lemma MultisetRemove(b: seq<real>, k: nat)
    requires k < |b|
    ensures multiset(b[..k] + b[k + 1..]) == multiset(b) - multiset{b[k]}
  {
    assert b == b[..k] + [b[k]] + b[k + 1..];
  }

  /** The counts depend only on the multiset of values, not on their order. */
  lemma {:induction false} CountsPermutation(a: seq<real>, b: seq<real>, m: real)
    requires multiset(a) == multiset(b)
    ensures CountBelow(a, m) == CountBelow(b, m)
    ensures CountAbove(a, m) == CountAbove(b, m)
  {
    if |a| > 0 {
      assert a[0] in multiset(b);
      var k :| 0 <= k < |b| && b[k] == a[0];
      MultisetRemove(b, k);
      assert multiset(a[1..]) == multiset(a) - multiset{a[0]} by {
        assert a == [a[0]] + a[1..];
      }
      CountsPermutation(a[1..], b[..k] + b[k + 1..], m);
      CountsRemove(b, k, m);
    } else {
      assert b == [];
    }
  }

  /** The median of an ascending sequence. */
  function SortedMedian(r: seq<real>): real
    requires |r| > 0
  {
    if |r| % 2 == 1 then r[|r| / 2] else (r[|r| / 2 - 1] + r[|r| / 2]) / 2.0
  }

  /** If every value from position `k` on is at least `m`, at most `k`
      values lie below `m`. */
  lemma CountBelowPrefix(r: seq<real>, k: nat, m: real)
    requires k <= |r|
    requires forall i :: k <= i < |r| ==> r[i] >= m
    ensures CountBelow(r, m) <= k
  {
    assert r == r[..k] + r[k..];
    CountsAppend(r[..k], r[k..], m);
    CountsNone(r[k..], m);
    CountsBounded(r[..k], m);
  }

  /** If every value before position `k` is at most `m`, at most `|r| - k`
      values lie above `m`. */
  lemma CountAboveSuffix(r: seq<real>, k: nat, m: real)
    requires k <= |r|
    requires forall i :: 0 <= i < k ==> r[i] <= m
    ensures CountAbove(r, m) <= |r| - k
  {
    assert r == r[..k] + r[k..];
    CountsAppend(r[..k], r[k..], m);
    CountsNone(r[..k], m);
    CountsBounded(r[k..], m);
  }

  /** In a sorted sequence, at most half the values lie strictly below the
      median and at most half strictly above. */
  lemma MedianSplitsSorted(r: seq<real>)
    requires |r| > 0 && Sorted(r)
    ensures 2 * CountBelow(r, SortedMedian(r)) <= |r|
    ensures 2 * CountAbove(r, SortedMedian(r)) <= |r|
  {
    var m := SortedMedian(r);
    var h := |r| / 2;
    if |r| % 2 == 1 {
      assert m == r[h];
      CountBelowPrefix(r, h, m);
      CountAboveSuffix(r, h + 1, m);
    } else {
      assert r[h - 1] <= m <= r[h];
      forall i | h <= i < |r| ensures r[i] >= m {
        assert r[h] <= r[i];
      }
      forall i | 0 <= i < h ensures r[i] <= m {
        assert r[i] <= r[h - 1];
      }
      CountBelowPrefix(r, h, m);
      CountAboveSuffix(r, h, m);
    }
  }

  /** The median of the sorted values splits the values in halves and lies
      between two of them. */
  lemma SortedMedianOfSort(s: seq<real>)
    requires |s| > 0
    ensures 2 * CountBelow(s, SortedMedian(Sort(s))) <= |s|
    ensures 2 * CountAbove(s, SortedMedian(Sort(s))) <= |s|
    ensures exists i :: 0 <= i < |s| && s[i] <= SortedMedian(Sort(s))
    ensures exists i :: 0 <= i < |s| && SortedMedian(Sort(s)) <= s[i]
  {
    var r := Sort(s);
    assert |r| == |multiset(r)| == |s|;
    var m := SortedMedian(r);
    MedianSplitsSorted(r);
    CountsPermutation(r, s, m);
    assert r[0] <= m <= r[|r| - 1];
    assert r[0] in multiset(s);
    assert r[|r| - 1] in multiset(s);
  }

  /** `a` is the lower of the two middle values: fewer than half the values
      lie below it and at most half above. */
  predicate LowerMiddle(s: seq<real>, a: real) {
    2 * CountBelow(s, a) < |s| && 2 * CountAbove(s, a) <= |s|
  }

  /** `b` is the upper of the two middle values: at most half the values lie
      below it and fewer than half above. */
  predicate UpperMiddle(s: seq<real>, b: real) {
    2 * CountBelow(s, b) <= |s| && 2 * CountAbove(s, b) < |s|
  }

  /** For an even count, the two middle values of the sorted sequence are the
      lower and the upper middle, and the median is their average. */
  lemma EvenMedianOfSort(s: seq<real>)
    requires |s| > 0 && |s| % 2 == 0
    ensures |Sort(s)| == |s|
    ensures LowerMiddle(s, Sort(s)[|s| / 2 - 1]) && UpperMiddle(s, Sort(s)[|s| / 2])
    ensures SortedMedian(Sort(s)) == (Sort(s)[|s| / 2 - 1] + Sort(s)[|s| / 2]) / 2.0
  {
    var r := Sort(s);
    assert |r| == |multiset(r)| == |s|;
    var h := |r| / 2;
    var a, b := r[h - 1], r[h];
    forall i | h - 1 <= i < |r| ensures r[i] >= a {
      if i > h - 1 {
        assert r[h - 1] <= r[i];
      }
    }
    forall i | 0 <= i < h ensures r[i] <= a {
      if i < h - 1 {
        assert r[i] <= r[h - 1];
      }
    }
    CountBelowPrefix(r, h - 1, a);
    CountAboveSuffix(r, h, a);
    forall i | h <= i < |r| ensures r[i] >= b {
      if i > h {
        assert r[h] <= r[i];
      }
    }
    forall i | 0 <= i < h + 1 ensures r[i] <= b {
      if i < h {
        assert r[i] <= r[h];
      }
    }
    CountBelowPrefix(r, h, b);
    CountAboveSuffix(r, h + 1, b);
    CountsPermutation(r, s, a);
    CountsPermutation(r, s, b);
  }

  /** Every value lies below `b` or above `a` when `a < b`. */
  lemma {:induction false} CountsCover(s: seq<real>, a: real, b: real)
    requires a < b
    ensures CountBelow(s, b) + CountAbove(s, a) >= |s|
  {
    if |s| > 0 {
      CountsCover(s[1..], a, b);
    }
  }

  /** Only one value is the lower middle, and only one the upper middle, so
      the even-count median is pinned down. */
  lemma MiddlesUnique(s: seq<real>, a: real, a': real, b: real, b': real)
    requires LowerMiddle(s, a) && LowerMiddle(s, a')
    requires UpperMiddle(s, b) && UpperMiddle(s, b')
    ensures a == a' && b == b'
  {
    if a < a' { CountsCover(s, a, a'); }
    if a' < a { CountsCover(s, a', a); }
    if b < b' { CountsCover(s, b, b'); }
    if b' < b { CountsCover(s, b', b); }
  }

  /** For an odd count only one value has at most half the values below it
      and at most half above, so the odd-count median is pinned down. */
  lemma OddMiddleUnique(s: seq<real>, m: real, m': real)
    requires |s| % 2 == 1
    requires 2 * CountBelow(s, m) <= |s| && 2 * CountAbove(s, m) <= |s|
    requires 2 * CountBelow(s, m') <= |s| && 2 * CountAbove(s, m') <= |s|
    ensures m == m'
  {
    if m < m' { CountsCover(s, m, m'); }
    if m' < m { CountsCover(s, m', m); }
  }

  /** pandas' median: the middle value of the sorted values, or the average
      of the two middle ones. At most half the values lie strictly below it
      and at most half strictly above; for an even count it is the average
      of the lower and the upper middle value. */
  function Median(s: seq<real>): (m: real)
    requires |s| > 0
    ensures 2 * CountBelow(s, m) <= |s| && 2 * CountAbove(s, m) <= |s|
    ensures exists i :: 0 <= i < |s| && s[i] <= m
    ensures exists i :: 0 <= i < |s| && m <= s[i]
    ensures |s| % 2 == 0 ==>
      exists a, b :: LowerMiddle(s, a) && UpperMiddle(s, b) && m == (a + b) / 2.0
  {
    SortedMedianOfSort(s);
    if |s| % 2 == 0 then
      EvenMedianOfSort(s);
      SortedMedian(Sort(s))
    else
      SortedMedian(Sort(s))
  }
}
