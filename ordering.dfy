/** Python's `max(xs, key=...)`, `sorted(xs, key=..., reverse=True)` and the
    slice `xs[:n]`, on sequences. */
module Ordering {

  /** `max(s, key=key)` scans left to right and replaces its pick only on a
      strictly greater key, so it returns the FIRST element of greatest key. */
  function ArgMaxIndex<T>(s: seq<T>, key: T -> real): (k: nat)
    requires |s| > 0
    ensures k < |s|
    ensures forall j :: 0 <= j < |s| ==> key(s[j]) <= key(s[k])
    ensures forall j :: 0 <= j < k ==> key(s[j]) < key(s[k])
  {
    if |s| == 1 then 0
    else
      var k := ArgMaxIndex(s[..|s| - 1], key);
      if key(s[|s| - 1]) > key(s[k]) then |s| - 1 else k
  }

  /** Keys never increase from left to right. */
  ghost predicate SortedDesc<T>(s: seq<T>, key: T -> real) {
    forall i, j :: 0 <= i < j < |s| ==> key(s[j]) <= key(s[i])
  }

  /** Place `x` in front of the first element whose key does not exceed its own. */
  function InsertDesc<T>(x: T, s: seq<T>, key: T -> real): (r: seq<T>)
    ensures multiset(r) == multiset(s) + multiset{x}
    ensures SortedDesc(s, key) ==> SortedDesc(r, key)
  {
    if |s| == 0 || key(s[0]) <= key(x) then [x] + s
    else
      var tail := InsertDesc(x, s[1..], key);
      assert s == [s[0]] + s[1..];
      HeadDominates(x, s, tail, key);
      [s[0]] + tail
  }

  /** When `s` is sorted and its head outranks `x`, the head outranks every
      element of a permutation of `s[1..]` plus `x`. */
  lemma HeadDominates<T>(x: T, s: seq<T>, tail: seq<T>, key: T -> real)
    requires |s| > 0 && key(x) < key(s[0])
    requires multiset(tail) == multiset(s[1..]) + multiset{x}
    ensures SortedDesc(s, key) ==> forall j :: 0 <= j < |tail| ==> key(tail[j]) <= key(s[0])
  {
    if SortedDesc(s, key) {
      forall j | 0 <= j < |tail| ensures key(tail[j]) <= key(s[0]) {
        var y := tail[j];
        assert y in multiset(tail);
        if y != x {
          assert y in multiset(s[1..]);
          var k :| 0 <= k < |s[1..]| && s[1..][k] == y;
          assert s[k + 1] == y;
        }
      }
    }
  }

  /** `sorted(s, key=key, reverse=True)`: a permutation of `s` with keys in
      non-increasing order.  Each element is put in front of the equal keys that
      follow it in `s`, so the sort is stable, as Python's is. */
  function SortDesc<T>(s: seq<T>, key: T -> real): (r: seq<T>)
    ensures multiset(r) == multiset(s)
    ensures |r| == |s|
    ensures SortedDesc(r, key)
  {
    if |s| == 0 then []
    else
      assert s == [s[0]] + s[1..];
      InsertDesc(s[0], SortDesc(s[1..], key), key)
  }

  /** Python's `s[:n]`, where a negative `n` counts from the end. */
  function SliceTo<T>(s: seq<T>, n: int): (r: seq<T>)
    ensures n >= 0 ==> |r| == (if n < |s| then n else |s|)
    ensures n < 0 ==> |r| == (if |s| + n > 0 then |s| + n else 0)
    ensures r == s[..|r|]
  {
    if n >= 0 then (if n < |s| then s[..n] else s)
    else if |s| + n > 0 then s[..|s| + n] else []
  }

  /** In a sorted sequence no element after position `k` outranks one before it. */
  lemma SortedSplit<T>(t: seq<T>, key: T -> real, k: nat)
    requires SortedDesc(t, key) && k <= |t|
    ensures SortedDesc(t[..k], key)
    ensures forall y, x :: y in t[k..] && x in t[..k] ==> key(y) <= key(x)
  {
    forall y, x | y in t[k..] && x in t[..k] ensures key(y) <= key(x) {
      var j :| 0 <= j < |t[k..]| && t[k..][j] == y;
      var i :| 0 <= i < k && t[..k][i] == x;
      assert t[i] == x && t[k + j] == y;
    }
  }

  /** Splitting a sequence splits its multiset. */
  lemma MultisetSplit<T>(t: seq<T>, k: nat)
    requires k <= |t|
    ensures multiset(t) - multiset(t[..k]) == multiset(t[k..])
    ensures multiset(t[..k]) <= multiset(t)
  {
    assert t == t[..k] + t[k..];
  }

  /** The first `n` of a descending sort are the top `n`: they stay in order, come
      from `s`, number at most `n`, and no element left out has a greater key
      than an element kept. */
  lemma TopOfSorted<T>(s: seq<T>, key: T -> real, n: int)
    ensures var r := SliceTo(SortDesc(s, key), n);
      && SortedDesc(r, key)
      && multiset(r) <= multiset(s)
      && (n >= 0 ==> |r| <= n)
      && (forall y, x :: y in multiset(s) - multiset(r) && x in r ==> key(y) <= key(x))
  {
    var t := SortDesc(s, key);
    var r := SliceTo(t, n);
    var k := |r|;
    assert r == t[..k];
    SortedSplit(t, key, k);
    MultisetSplit(t, k);
  }

  /** `[x for x in s if p(x)]`. */
  function Filter<T>(s: seq<T>, p: T -> bool): (r: seq<T>)
    ensures |r| <= |s|
    ensures forall i :: 0 <= i < |r| ==> p(r[i]) && r[i] in s
    ensures forall i :: 0 <= i < |s| && p(s[i]) ==> s[i] in r
  {
    if |s| == 0 then [] else Filter(s[..|s| - 1], p) + (if p(s[|s| - 1]) then [s[|s| - 1]] else [])
  }

  /** Filtering distributes over concatenation, so it keeps the order of
      what it keeps. */
  lemma {:induction false} FilterAppend<T>(a: seq<T>, b: seq<T>, p: T -> bool)
    ensures Filter(a + b, p) == Filter(a, p) + Filter(b, p)
  {
    if b == [] {
      assert a + b == a;
    } else {
      var b' := b[..|b| - 1];
      var x := b[|b| - 1];
      assert (a + b)[..|a + b| - 1] == a + b';
      FilterAppend(a, b', p);
    }
  }

  /** Filters that agree on the elements of `s` keep the same elements. */
  lemma {:induction false} FilterAgree<T>(s: seq<T>, p: T -> bool, q: T -> bool)
    requires forall i :: 0 <= i < |s| ==> p(s[i]) == q(s[i])
    ensures Filter(s, p) == Filter(s, q)
  {
    if s != [] {
      FilterAgree(s[..|s| - 1], p, q);
    }
  }

  /** `p` holds only of elements that share one key. */
  ghost predicate OneKey<T(!new)>(p: T -> bool, key: T -> real) {
    forall y, z :: p(y) && p(z) ==> key(y) == key(z)
  }

  /** Inserting `x` puts it in front of every element of equal key. */
  lemma {:induction false} InsertDescStable<T(!new)>(x: T, s: seq<T>, key: T -> real, p: T -> bool)
    requires OneKey(p, key)
    ensures Filter(InsertDesc(x, s, key), p) == Filter([x], p) + Filter(s, p)
  {
    if |s| == 0 || key(s[0]) <= key(x) {
      FilterAppend([x], s, p);
    } else {
      var tail := InsertDesc(x, s[1..], key);
      InsertDescStable(x, s[1..], key, p);
      FilterAppend([s[0]], tail, p);
      FilterAppend([s[0]], s[1..], p);
      assert [s[0]] + s[1..] == s;
      assert !(p(s[0]) && p(x));
      assert Filter([], p) == [];
      assert [x][..0] == [] && [s[0]][..0] == [];
    }
  }

  /** The sort is stable, as Python's `sorted` is also with `reverse=True`:
      the elements of any one key keep their order in `s`. */
  lemma {:induction false} SortDescStable<T(!new)>(s: seq<T>, key: T -> real, p: T -> bool)
    requires OneKey(p, key)
    ensures Filter(SortDesc(s, key), p) == Filter(s, p)
  {
    if |s| > 0 {
      SortDescStable(s[1..], key, p);
      InsertDescStable(s[0], SortDesc(s[1..], key), key, p);
      FilterAppend([s[0]], s[1..], p);
      assert [s[0]] + s[1..] == s;
    }
  }

  /** Position `k` holds the first element of greatest key among those of `s`
      that satisfy `p`. */
  ghost predicate FirstBest<T>(s: seq<T>, p: T -> bool, key: T -> real, k: int) {
    && 0 <= k < |s| && p(s[k])
    && (forall j :: 0 <= j < |s| && p(s[j]) ==> key(s[j]) <= key(s[k]))
    && (forall j :: 0 <= j < k && p(s[j]) ==> key(s[j]) < key(s[k]))
  }

  /** The position in `s` of the first element of greatest key among those
      that satisfy `p`, or -1 when none does. */
  function BestIndex<T>(s: seq<T>, p: T -> bool, key: T -> real): (k: int)
    ensures -1 <= k < |s|
    ensures k == -1 ==> forall j :: 0 <= j < |s| ==> !p(s[j])
    ensures k >= 0 ==> FirstBest(s, p, key, k)
  {
    if |s| == 0 then -1
    else
      var init := s[..|s| - 1];
      var k := BestIndex(init, p, key);
      assert forall j :: 0 <= j < |s| - 1 ==> init[j] == s[j];
      if !p(s[|s| - 1]) then k
      else if k == -1 || key(s[k]) < key(s[|s| - 1]) then |s| - 1
      else k
  }

  /** `max(Filter(s, p), key=key)` is the first element of greatest key among
      the elements of `s` that satisfy `p`. */
  lemma {:induction false} MaxOfFilter<T>(s: seq<T>, p: T -> bool, key: T -> real)
    requires |Filter(s, p)| > 0
    ensures BestIndex(s, p, key) >= 0
    ensures s[BestIndex(s, p, key)] == Filter(s, p)[ArgMaxIndex(Filter(s, p), key)]
  {
    var n := |s|;
    var init := s[..n - 1];
    var f' := Filter(init, p);
    if !p(s[n - 1]) {
      assert Filter(s, p) == f';
      MaxOfFilter(init, p, key);
    } else if |f'| == 0 {
      assert Filter(s, p) == [s[n - 1]];
    } else {
      MaxOfFilter(init, p, key);
      FilterKeepLast(s, p, key, init[BestIndex(init, p, key)]);
    }
  }

  /** Appending an element `p` keeps: `max` picks it only when its key is
      strictly greater than the maximum so far. */
  lemma FilterKeepLast<T>(s: seq<T>, p: T -> bool, key: T -> real, x: T)
    requires |s| > 0 && p(s[|s| - 1])
    requires |Filter(s[..|s| - 1], p)| > 0
    requires x == Filter(s[..|s| - 1], p)[ArgMaxIndex(Filter(s[..|s| - 1], p), key)]
    ensures var f := Filter(s, p);
      f[ArgMaxIndex(f, key)] == if key(s[|s| - 1]) > key(x) then s[|s| - 1] else x
  {
    var f' := Filter(s[..|s| - 1], p);
    var f := Filter(s, p);
    assert f == f' + [s[|s| - 1]];
    assert f[..|f| - 1] == f';
  }

  /** The top `n` hold only elements of `s`, so they share any property all of
      `s` has. */
  lemma TopKeeps<T>(s: seq<T>, key: T -> real, n: int, p: T -> bool)
    requires forall x :: x in s ==> p(x)
    ensures forall x :: x in SliceTo(SortDesc(s, key), n) ==> p(x)
  {
    var t := SortDesc(s, key);
    forall x | x in SliceTo(t, n) ensures p(x) {
      assert x in multiset(t);
    }
  }

  /** An element whose key beats every other one is among the top `n` for
      any positive `n`. */
  lemma UniqueTopKept<T>(s: seq<T>, key: T -> real, n: int, x: T)
    requires x in s && n >= 1
    requires forall y :: y in s && y != x ==> key(y) < key(x)
    ensures x in SliceTo(SortDesc(s, key), n)
  {
    var t := SortDesc(s, key);
    assert x in multiset(t);
    var m :| 0 <= m < |t| && t[m] == x;
    assert key(t[m]) <= key(t[0]);
    assert t[0] in multiset(s);
    assert SliceTo(t, n)[0] == t[0];
  }
}
