/**
 * The column aggregates the script relies on: `median()` (per platform and
 * over the whole column) and `max()`, both skipping NaN, over the present
 * values of a float column.
 */
module Stats {

  import opened Frame

  predicate Sorted(s: seq<real>)
  {
    forall i, j :: 0 <= i < j < |s| ==> s[i] <= s[j]
  }

  /** Place `x` into the sorted sequence `s`. */
  function Insert(x: real, s: seq<real>): (r: seq<real>)
    requires Sorted(s)
    ensures |r| == |s| + 1
    ensures Sorted(r)
    ensures multiset(r) == multiset(s) + multiset{x}
    ensures r[0] == x || (|s| > 0 && r[0] == s[0])
  {
    if s == [] || x <= s[0] then [x] + s
    else
      assert Sorted(s[1..]);
      var rest := Insert(x, s[1..]);
      assert s == [s[0]] + s[1..];
      SortedCons(s[0], rest);
      [s[0]] + rest
  }

  /** A value at most the head of a sorted sequence can go in front of it. */
  lemma SortedCons(y: real, u: seq<real>)
    requires Sorted(u) && u != [] && y <= u[0]
    ensures Sorted([y] + u)
  {
    var r := [y] + u;
    forall i, j | 0 <= i < j < |r|
      ensures r[i] <= r[j]
    {
      assert r[j] == u[j - 1];
      if i > 0 {
        assert r[i] == u[i - 1];
      }
    }
  }

  /** The values of `s` in ascending order. */
  function Sort(s: seq<real>): (r: seq<real>)
    ensures Sorted(r)
    ensures multiset(r) == multiset(s)
    ensures |r| == |s|
  {
    if s == [] then []
    else
      assert s == [s[0]] + s[1..];
      Insert(s[0], Sort(s[1..]))
  }

  /**
   * The median pandas computes: the middle value of the sorted values, or
   * the mean of the two middle values when their number is even.
   */
  function Median(s: seq<real>): real
    requires |s| > 0
  {
    Middle(Sort(s))
  }

  /** The middle value of `u`, or the mean of its two middle values when their number is even. */
  function Middle(u: seq<real>): real
    requires |u| > 0
  {
    var h := |u| / 2;
    if |u| % 2 == 1 then u[h] else (u[h - 1] + u[h]) / 2.0
  }

  /** `median(skipna=True)`: NaN when no value is present. */
  function MedianOf(s: seq<real>): (m: Option<real>)
    ensures m.None? <==> |s| == 0
  {
    if |s| == 0 then None else Some(Median(s))
  }

  function Max(s: seq<real>): (m: real)
    requires |s| > 0
    ensures m in s
    ensures forall k :: 0 <= k < |s| ==> s[k] <= m
  {
    if |s| == 1 then s[0]
    else
      var m' := Max(s[1..]);
      assert forall k :: 1 <= k < |s| ==> s[k] == s[1..][k - 1];
      if s[0] >= m' then s[0] else m'
  }

  function Min(s: seq<real>): (m: real)
    requires |s| > 0
    ensures m in s
    ensures forall k :: 0 <= k < |s| ==> m <= s[k]
  {
    if |s| == 1 then s[0]
    else
      var m' := Min(s[1..]);
      assert forall k :: 1 <= k < |s| ==> s[k] == s[1..][k - 1];
      if s[0] <= m' then s[0] else m'
  }

  /** `max(skipna=True)`: NaN when no value is present. */
  function MaxOf(s: seq<real>): (m: Option<real>)
    ensures m.None? <==> |s| == 0
    ensures m.Some? ==> m.value in s && forall k :: 0 <= k < |s| ==> s[k] <= m.value
  {
    if |s| == 0 then None else Some(Max(s))
  }

  /** How many values of `s` satisfy `p`. */
  function CountIf(s: seq<real>, p: real -> bool): nat
  {
    if s == [] then 0 else (if p(s[0]) then 1 else 0) + CountIf(s[1..], p)
  }

  function AtMost(m: real): real -> bool
  {
    x => x <= m
  }

  function AtLeast(m: real): real -> bool
  {
    x => x >= m
  }

  lemma {:induction false} CountIfAppend(a: seq<real>, b: seq<real>, p: real -> bool)
    ensures CountIf(a + b, p) == CountIf(a, p) + CountIf(b, p)
  {
    if a != [] {
      assert (a + b)[1..] == a[1..] + b;
      CountIfAppend(a[1..], b, p);
    } else {
      assert a + b == b;
    }
  }

  /** Removing the value at position `j` removes one occurrence of it. */
  lemma MultisetRemove(b: seq<real>, j: nat)
    requires j < |b|
    ensures multiset(b[..j] + b[j + 1..]) == multiset(b) - multiset{b[j]}
  {
    assert b == b[..j] + [b[j]] + b[j + 1..];
    assert multiset(b) == multiset(b[..j]) + multiset{b[j]} + multiset(b[j + 1..]);
  }

  /** Removing the value at position `j` lowers the count by one exactly when it satisfies `p`. */
  lemma CountIfRemove(b: seq<real>, j: nat, p: real -> bool)
    requires j < |b|
    ensures CountIf(b, p) == CountIf(b[..j] + b[j + 1..], p) + (if p(b[j]) then 1 else 0)
  {
    var left, right := b[..j], b[j + 1..];
    var tail := [b[j]] + right;
    assert b == left + tail;
    CountIfAppend(left, tail, p);
    CountIfAppend(left, right, p);
    assert tail[1..] == right;
  }

  /** A count depends only on the multiset of values, not on their order. */
  lemma {:induction false} CountIfPermutation(a: seq<real>, b: seq<real>, p: real -> bool)
    requires multiset(a) == multiset(b)
    ensures CountIf(a, p) == CountIf(b, p)
  {
    if a != [] {
      var x := a[0];
      assert x in multiset(b);
      var j :| 0 <= j < |b| && b[j] == x;
      assert a == [x] + a[1..];
      assert multiset(a[1..]) == multiset(a) - multiset{x};
      MultisetRemove(b, j);
      CountIfPermutation(a[1..], b[..j] + b[j + 1..], p);
      CountIfRemove(b, j, p);
    } else {
      assert |multiset(b)| == 0;
    }
  }

  /** When every value of `s` satisfies `p`, the count is the length. */
  lemma {:induction false} CountIfAll(s: seq<real>, p: real -> bool)
    requires forall k :: 0 <= k < |s| ==> p(s[k])
    ensures CountIf(s, p) == |s|
  {
    if s != [] {
      CountIfAll(s[1..], p);
    }
  }

  /** Dropping the first value removes one occurrence of it. */
  lemma MultisetTail(a: seq<real>)
    requires a != []
    ensures multiset(a[1..]) == multiset(a) - multiset{a[0]}
  {
    assert a == [a[0]] + a[1..];
  }

  /** The first value of a non-empty sorted sequence is at most every value in it. */
  lemma SortedFirstLeast(a: seq<real>, x: real)
    requires Sorted(a) && x in multiset(a)
    ensures a[0] <= x
  {
    var j :| 0 <= j < |a| && a[j] == x;
  }

  /** Two sorted sequences with the same values start alike and continue with the same values. */
  lemma SortedSameHead(a: seq<real>, b: seq<real>)
    requires Sorted(a) && Sorted(b) && a != []
    requires multiset(a) == multiset(b)
    ensures b != [] && a[0] == b[0]
    ensures Sorted(a[1..]) && Sorted(b[1..]) && multiset(a[1..]) == multiset(b[1..])
  {
    assert |b| == |multiset(b)| == |a|;
    assert a[0] in multiset(a) && b[0] in multiset(b);
    SortedFirstLeast(b, a[0]);
    SortedFirstLeast(a, b[0]);
    MultisetTail(a);
    MultisetTail(b);
  }

  /** Sequences with the same head and the same tail are equal. */
  lemma SameHeadSameTail(a: seq<real>, b: seq<real>)
    requires a != [] && b != [] && a[0] == b[0] && a[1..] == b[1..]
    ensures a == b
  {
    assert a == [a[0]] + a[1..];
    assert b == [b[0]] + b[1..];
  }

  /** Two sorted sequences with the same values are equal. */
  lemma {:induction false} SortedUnique(a: seq<real>, b: seq<real>)
    requires Sorted(a) && Sorted(b)
    requires multiset(a) == multiset(b)
    ensures a == b
  {
    if a != [] {
      SortedSameHead(a, b);
      SortedUnique(a[1..], b[1..]);
      SameHeadSameTail(a, b);
    } else {
      assert |multiset(b)| == 0;
    }
  }

  /** The median of a set of years does not depend on the order of the rows. */
  lemma MedianPermutation(a: seq<real>, b: seq<real>)
    requires |a| > 0
    requires multiset(a) == multiset(b)
    ensures |b| > 0 && Median(a) == Median(b)
  {
    assert |b| == |multiset(b)| == |a|;
    SortedUnique(Sort(a), Sort(b));
  }

  /** Sorting keeps every value within the range of the input. */
  lemma SortedValueInRange(s: seq<real>, k: nat)
    requires k < |s|
    ensures Min(s) <= Sort(s)[k] <= Max(s)
  {
    var u := Sort(s);
    assert u[k] in multiset(u);
    assert u[k] in multiset(s);
    var j :| 0 <= j < |s| && s[j] == u[k];
  }

  /** The middle value of values between `lo` and `hi` is between them too. */
  lemma MiddleBetween(u: seq<real>, lo: real, hi: real)
    requires |u| > 0 && forall k :: 0 <= k < |u| ==> lo <= u[k] <= hi
    ensures lo <= Middle(u) <= hi
  {
  }

  /** The median lies between the smallest and the largest value. */
  lemma MedianBetween(s: seq<real>)
    requires |s| > 0
    ensures Min(s) <= Median(s) <= Max(s)
  {
    forall k | 0 <= k < |s|
      ensures Min(s) <= Sort(s)[k] <= Max(s)
    {
      SortedValueInRange(s, k);
    }
    MiddleBetween(Sort(s), Min(s), Max(s));
  }

  /** In a sorted sequence, the values before `lo` are at most `u[lo - 1]`. */
  lemma SortedPrefixAtMost(u: seq<real>, lo: nat, m: real)
    requires Sorted(u) && 0 < lo <= |u| && u[lo - 1] <= m
    ensures CountIf(u, AtMost(m)) >= lo
  {
    assert u == u[..lo] + u[lo..];
    CountIfAppend(u[..lo], u[lo..], AtMost(m));
    CountIfAll(u[..lo], AtMost(m));
  }

  /** In a sorted sequence, the values from `h` on are at least `u[h]`. */
  lemma SortedSuffixAtLeast(u: seq<real>, h: nat, m: real)
    requires Sorted(u) && h < |u| && m <= u[h]
    ensures CountIf(u, AtLeast(m)) >= |u| - h
  {
    assert u == u[..h] + u[h..];
    CountIfAppend(u[..h], u[h..], AtLeast(m));
    CountIfAll(u[h..], AtLeast(m));
  }

  /**
   * The defining property of a median: at least half of the values are at
   * most the median, and at least half are at least the median.
   */
  lemma MedianSplitsInHalf(s: seq<real>)
    requires |s| > 0
    ensures 2 * CountIf(s, AtMost(Median(s))) >= |s|
    ensures 2 * CountIf(s, AtLeast(Median(s))) >= |s|
  {
    var u := Sort(s);
    MiddleSplitsInHalf(u);
    CountIfPermutation(s, u, AtMost(Middle(u)));
    CountIfPermutation(s, u, AtLeast(Middle(u)));
  }

  /** The same split for the middle of a sorted sequence. */
  lemma MiddleSplitsInHalf(u: seq<real>)
    requires Sorted(u) && |u| > 0
    ensures 2 * CountIf(u, AtMost(Middle(u))) >= |u|
    ensures 2 * CountIf(u, AtLeast(Middle(u))) >= |u|
  {
    var m := Middle(u);
    var h := |u| / 2;
    if |u| % 2 == 1 {
      SortedPrefixAtMost(u, h + 1, m);
    } else {
      assert u[h - 1] <= u[h];
      SortedPrefixAtMost(u, h, m);
    }
    SortedSuffixAtLeast(u, h, m);
  }

  /** The median of a single value is that value. */
  lemma MedianSingleton(y: real)
    ensures Median([y]) == y
  {
    assert Sort([y]) == Insert(y, Sort([]));
  }
}
