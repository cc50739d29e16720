/**
 * Sequence operations that stand for the pandas idioms the analysed code is
 * built from: boolean-mask selection (`Filter`), `idxmax` (`FirstArgMax`),
 * `sort_values` (`Sort`), `iloc` with Python's negative indices (`PyIndex`)
 * and `Index.map` of a function that may raise (`MapOrFail`).
 */
module Seqs {
  import opened Results

  /** `a` can be obtained from `b` by deleting elements: an order-preserving subsequence. */
  predicate IsSubsequence<T(==)>(a: seq<T>, b: seq<T>)
    decreases |b|
  {
    |a| == 0 ||
    (|b| > 0 &&
     ((a[0] == b[0] && IsSubsequence(a[1..], b[1..])) || IsSubsequence(a, b[1..])))
  }

  /**
   * Boolean-mask selection `df[mask]`: the elements of `s` that satisfy
   * `keep`, each with its multiplicity, in their original order.
   */
  function Filter<T(==,!new)>(s: seq<T>, keep: T -> bool): (r: seq<T>)
    ensures |r| <= |s|
    ensures forall x :: x in r <==> x in s && keep(x)
    ensures forall x :: multiset(r)[x] == if keep(x) then multiset(s)[x] else 0
    ensures IsSubsequence(r, s)
  {
    if |s| == 0 then []
    else
      assert s == [s[0]] + s[1..];
      if keep(s[0]) then [s[0]] + Filter(s[1..], keep) else Filter(s[1..], keep)
  }

  /** Selecting with a mask that every element passes changes nothing. */
  lemma {:induction false} FilterAllKept<T(!new)>(s: seq<T>, keep: T -> bool)
    requires forall x :: x in s ==> keep(x)
    ensures Filter(s, keep) == s
  {
    if |s| > 0 {
      assert forall x :: x in s[1..] ==> x in s;
      FilterAllKept(s[1..], keep);
      assert keep(s[0]) by {
        assert s[0] in s;
      }
      assert s == [s[0]] + s[1..];
    }
  }

  /** Selecting twice with the same mask is selecting once. */
  lemma FilterIdempotent<T(!new)>(s: seq<T>, keep: T -> bool)
    ensures Filter(Filter(s, keep), keep) == Filter(s, keep)
  {
    FilterAllKept(Filter(s, keep), keep);
  }

  /** Selection distributes over concatenation. */
  lemma {:induction false} FilterConcat<T(!new)>(a: seq<T>, b: seq<T>, keep: T -> bool)
    ensures Filter(a + b, keep) == Filter(a, keep) + Filter(b, keep)
  {
    if |a| > 0 {
      assert (a + b)[0] == a[0];
      assert (a + b)[1..] == a[1..] + b;
      FilterConcat(a[1..], b, keep);
    } else {
      assert a + b == b;
    }
  }

  /** Position of the first element of `s` satisfying `p`, if any. */
  function FirstWhere<T>(s: seq<T>, p: T -> bool): (r: Option<nat>)
    ensures r.None? <==> forall i :: 0 <= i < |s| ==> !p(s[i])
    ensures r.Some? ==> r.value < |s| && p(s[r.value]) && forall j :: 0 <= j < r.value ==> !p(s[j])
  {
    if |s| == 0 then None
    else if p(s[0]) then Some(0)
    else
      assert forall i :: 0 < i < |s| ==> s[i] == s[1..][i - 1];
      match FirstWhere(s[1..], p)
      case None => None
      case Some(k) => Some(k + 1)
  }

  /**
   * `Series.idxmax()`: the position of the FIRST maximum of `xs`.
   */
  function FirstArgMax(xs: seq<real>): (i: nat)
    requires |xs| > 0
    ensures i < |xs|
    ensures forall j :: 0 <= j < |xs| ==> xs[j] <= xs[i]
    ensures forall j :: 0 <= j < i ==> xs[j] < xs[i]
  {
    if |xs| == 1 then 0
    else
      var k := FirstArgMax(xs[..|xs| - 1]);
      if xs[|xs| - 1] > xs[k] then |xs| - 1 else k
  }

  predicate Sorted(s: seq<real>) {
    forall i, j :: 0 <= i < j < |s| ==> s[i] <= s[j]
  }

  /** Number of elements of `s` that are at most `v`. */
  function CountAtMost(s: seq<real>, v: real): nat {
    if |s| == 0 then 0 else (if s[0] <= v then 1 else 0) + CountAtMost(s[1..], v)
  }

  /** Number of elements of `s` that are strictly below `v`. */
  function CountBelow(s: seq<real>, v: real): nat {
    if |s| == 0 then 0 else (if s[0] < v then 1 else 0) + CountBelow(s[1..], v)
  }

  /** Everything at most `lo` is strictly below any `hi` above it. */
  lemma {:induction false} CountsAcrossThreshold(s: seq<real>, lo: real, hi: real)
    requires lo < hi
    ensures CountAtMost(s, lo) <= CountBelow(s, hi)
  {
    if |s| > 0 {
      CountsAcrossThreshold(s[1..], lo, hi);
    }
  }

  /** Insertion of `x` into an ascending sequence. */
  function Insert(x: real, s: seq<real>): (r: seq<real>)
    requires Sorted(s)
    ensures |r| == |s| + 1
    ensures Sorted(r)
    ensures multiset(r) == multiset(s) + multiset{x}
    ensures r[0] == x || (|s| > 0 && r[0] == s[0])
  {
    if |s| == 0 then [x]
    else if x <= s[0] then
      SortedCons(x, s);
      [x] + s
    else
      assert s == [s[0]] + s[1..];
      SortedTail(s);
      var t := Insert(x, s[1..]);
      SortedCons(s[0], t);
      [s[0]] + t
  }

  /** An ascending sequence stays ascending without its head. */
  lemma SortedTail(s: seq<real>)
    requires Sorted(s) && |s| > 0
    ensures Sorted(s[1..])
  {
    assert forall i :: 0 <= i < |s| - 1 ==> s[1..][i] == s[i + 1];
  }

  /** A head no larger than the first entry of an ascending sequence keeps it ascending. */
  lemma SortedCons(h: real, t: seq<real>)
    requires Sorted(t)
    requires |t| > 0 ==> h <= t[0]
    ensures Sorted([h] + t)
  {
    assert forall k :: 0 < k < |t| + 1 ==> ([h] + t)[k] == t[k - 1];
  }

  /** Inserting `x` adds one to the counts of the thresholds `x` lies under. */
  lemma {:induction false} InsertCounts(x: real, s: seq<real>, v: real)
    requires Sorted(s)
    ensures CountAtMost(Insert(x, s), v) == CountAtMost(s, v) + (if x <= v then 1 else 0)
    ensures CountBelow(Insert(x, s), v) == CountBelow(s, v) + (if x < v then 1 else 0)
  {
    if |s| == 0 {
      assert [x][1..] == [];
    } else if x <= s[0] {
      assert ([x] + s)[1..] == s;
    } else {
      var t := Insert(x, s[1..]);
      InsertCounts(x, s[1..], v);
      assert Insert(x, s) == [s[0]] + t;
      assert ([s[0]] + t)[1..] == t;
    }
  }

  /**
   * `Series.sort_values()` on values without NaN: an ascending
   * rearrangement of `s`.
   */
  function Sort(s: seq<real>): (r: seq<real>)
    ensures Sorted(r)
    ensures multiset(r) == multiset(s)
    ensures |r| == |s|
    ensures forall v :: CountAtMost(r, v) == CountAtMost(s, v)
    ensures forall v :: CountBelow(r, v) == CountBelow(s, v)
  {
    if |s| == 0 then []
    else
      assert s == [s[0]] + s[1..];
      var rest := Sort(s[1..]);
      var r := Insert(s[0], rest);
      assert forall v :: CountAtMost(r, v) == CountAtMost(s, v) && CountBelow(r, v) == CountBelow(s, v) by {
        forall v ensures CountAtMost(r, v) == CountAtMost(s, v) && CountBelow(r, v) == CountBelow(s, v) {
          InsertCounts(s[0], rest, v);
        }
      }
      assert |r| == |multiset(r)| == |s|;
      r
  }

  /** Sorting an already sorted sequence leaves it as it is. */
  lemma {:induction false} SortOfSorted(s: seq<real>)
    requires Sorted(s)
    ensures Sort(s) == s
  {
    if |s| > 0 {
      SortOfSorted(s[1..]);
      assert s == [s[0]] + s[1..];
    }
  }

  lemma {:induction false} NothingBelowMinimum(s: seq<real>, v: real)
    requires forall k :: 0 <= k < |s| ==> v <= s[k]
    ensures CountBelow(s, v) == 0
  {
    if |s| > 0 {
      NothingBelowMinimum(s[1..], v);
    }
  }

  /**
   * In an ascending sequence the element at position `j` is an order
   * statistic: fewer than `j + 1` elements lie strictly below it and at
   * least `j + 1` lie at or below it.
   */
  lemma {:induction false} SortedOrderStatistic(s: seq<real>, j: nat)
    requires Sorted(s)
    requires j < |s|
    ensures CountBelow(s, s[j]) <= j
    ensures CountAtMost(s, s[j]) >= j + 1
  {
    if j == 0 {
      NothingBelowMinimum(s, s[0]);
    } else {
      assert s[1..][j - 1] == s[j];
      SortedOrderStatistic(s[1..], j - 1);
    }
  }

  /**
   * `iloc[i]` on a sequence of length `n`: negative positions count from
   * the end as in Python; anything outside `-n .. n-1` raises IndexError.
   */
  function PyIndex(i: int, n: nat): (r: Option<nat>)
    ensures r.Some? <==> -(n as int) <= i < n
    ensures r.Some? ==> r.value < n && (r.value == i || r.value == i + n)
  {
    if 0 <= i < n then Some(i)
    else if -(n as int) <= i < 0 then Some(i + n)
    else None
  }

  /**
   * `Index.map(f)` where `f` may raise: the mapped sequence, or the first
   * exception raised, which aborts the whole map.
   */
  function MapOrFail<A, B>(xs: seq<A>, f: A -> Result<B>): (r: Result<seq<B>>)
    ensures r.Success? <==> forall i :: 0 <= i < |xs| ==> f(xs[i]).Success?
    ensures r.Success? ==> |r.value| == |xs| && forall i :: 0 <= i < |xs| ==> r.value[i] == f(xs[i]).value
    ensures r.Failure? ==> exists i :: 0 <= i < |xs| && f(xs[i]) == Failure(r.error) &&
                                       forall j :: 0 <= j < i ==> f(xs[j]).Success?
  {
    if |xs| == 0 then Success([])
    else
      match f(xs[0])
      case Failure(e) => Failure(e)
      case Success(y) =>
        match MapOrFail(xs[1..], f)
        case Failure(e) =>
          var i :| 0 <= i < |xs[1..]| && f(xs[1..][i]) == Failure(e) &&
                   forall j :: 0 <= j < i ==> f(xs[1..][j]).Success?;
          assert f(xs[i + 1]) == Failure(e);
          Failure(e)
        case Success(ys) => Success([y] + ys)
  }
}
