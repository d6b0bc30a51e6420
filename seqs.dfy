/**
 * Generic operations on ordered lists, written once and shared by the stores and views:
 * `Array.prototype.filter`, the "includes ? filter : append" toggle idiom and a stable
 * newest-first sort.
 */
module Seqs {
  import opened Wrappers

  /** `findIndex`: the position of the first element satisfying `p`, or -1. */
  function FirstIndex<T>(s: seq<T>, p: T -> bool): (k: int)
    ensures -1 <= k < |s|
    ensures k >= 0 ==> p(s[k]) && forall j :: 0 <= j < k ==> !p(s[j])
    ensures k == -1 ==> forall j :: 0 <= j < |s| ==> !p(s[j])
  {
    if s == [] then -1
    else if p(s[0]) then 0
    else
      var k := FirstIndex(s[1..], p);
      if k == -1 then -1 else k + 1
  }

  /** The first position satisfying `p` is the one `FirstIndex` reports. */
  lemma FirstIndexIsFirst<T>(s: seq<T>, p: T -> bool, k: nat)
    requires k < |s| && p(s[k])
    requires forall j :: 0 <= j < k ==> !p(s[j])
    ensures FirstIndex(s, p) == k
  {
  }

  /** Searching a longer sequence finds the same first match, or else the new last element. */
  lemma FirstIndexSnoc<T>(s: seq<T>, x: T, p: T -> bool)
    ensures FirstIndex(s + [x], p)
         == if FirstIndex(s, p) >= 0 then FirstIndex(s, p) else if p(x) then |s| else -1
  {
    var k := FirstIndex(s, p);
    var sx := s + [x];
    if k >= 0 {
      assert sx[k] == s[k];
      FirstIndexIsFirst(sx, p, k);
    } else if p(x) {
      assert sx[|s|] == x;
      FirstIndexIsFirst(sx, p, |s|);
    } else {
      assert forall j :: 0 <= j < |sx| ==> !p(sx[j]) by {
        forall j | 0 <= j < |sx| ensures !p(sx[j]) {
          if j < |s| { assert sx[j] == s[j]; }
        }
      }
    }
  }

  /** `find`: the first element satisfying `p`, if any. */
  function Find<T>(s: seq<T>, p: T -> bool): (r: Option<T>)
    ensures r.None? <==> forall j :: 0 <= j < |s| ==> !p(s[j])
    ensures r.Some? ==> exists k :: 0 <= k < |s| && s[k] == r.value && p(s[k])
                                   && forall j :: 0 <= j < k ==> !p(s[j])
  {
    var k := FirstIndex(s, p);
    if k >= 0 then Some(s[k]) else None
  }

  lemma FindCons<T>(x: T, s: seq<T>, p: T -> bool)
    ensures Find([x] + s, p) == if p(x) then Some(x) else Find(s, p)
  {
    assert ([x] + s)[1..] == s;
  }

  /** The elements of `s` that satisfy `keep`, in their original order. */
  function Filter<T>(s: seq<T>, keep: T -> bool): (r: seq<T>)
    ensures |r| <= |s|
  {
    if s == [] then []
    else (if keep(s[0]) then [s[0]] else []) + Filter(s[1..], keep)
  }

  /** Filtering keeps exactly the elements the predicate accepts. */
  lemma {:induction false} FilterMembers<T>(s: seq<T>, keep: T -> bool)
    ensures forall i :: 0 <= i < |Filter(s, keep)| ==> Filter(s, keep)[i] in s && keep(Filter(s, keep)[i])
    ensures forall i :: 0 <= i < |s| && keep(s[i]) ==> s[i] in Filter(s, keep)
  {
    if s != [] {
      FilterMembers(s[1..], keep);
      assert s == [s[0]] + s[1..];
    }
  }

  lemma AppendAssoc<T>(a: seq<T>, b: seq<T>, c: seq<T>)
    ensures (a + b) + c == a + (b + c)
  {
  }

  /** Filtering distributes over concatenation: kept elements keep their relative order. */
  lemma {:induction false} FilterConcat<T>(a: seq<T>, b: seq<T>, keep: T -> bool)
    ensures Filter(a + b, keep) == Filter(a, keep) + Filter(b, keep)
  {
    if a == [] {
      assert a + b == b;
    } else {
      assert (a + b)[1..] == a[1..] + b;
      FilterConcat(a[1..], b, keep);
      AppendAssoc(if keep(a[0]) then [a[0]] else [], Filter(a[1..], keep), Filter(b, keep));
    }
  }

  /** Filtering a list none of whose elements is rejected gives back the list itself. */
  lemma {:induction false} FilterKeepsAll<T>(s: seq<T>, keep: T -> bool)
    requires forall i :: 0 <= i < |s| ==> keep(s[i])
    ensures Filter(s, keep) == s
  {
    if s != [] {
      FilterKeepsAll(s[1..], keep);
    }
  }

  /** Filtering a list all of whose elements are rejected gives the empty list. */
  lemma {:induction false} FilterDropsAll<T>(s: seq<T>, keep: T -> bool)
    requires forall i :: 0 <= i < |s| ==> !keep(s[i])
    ensures Filter(s, keep) == []
  {
    if s != [] {
      FilterDropsAll(s[1..], keep);
    }
  }

  /** When exactly the element at `k` is rejected, filtering removes exactly position `k`. */
  lemma {:induction false} FilterRemovesOne<T>(s: seq<T>, keep: T -> bool, k: nat)
    requires k < |s| && !keep(s[k])
    requires forall i :: 0 <= i < |s| && i != k ==> keep(s[i])
    ensures Filter(s, keep) == s[..k] + s[k + 1..]
    ensures |Filter(s, keep)| == |s| - 1
  {
    var tail := s[1..];
    if k == 0 {
      FilterKeepsAll(tail, keep);
    } else {
      FilterRemovesOne(tail, keep, k - 1);
      assert s[..k] == [s[0]] + tail[..k - 1];
      assert s[k + 1..] == tail[k..];
      AppendAssoc([s[0]], tail[..k - 1], tail[k..]);
    }
  }

  /** The predicate "differs from `x`". */
  function Except<T(==)>(x: T): T -> bool
  {
    y => y != x
  }

  /**
   * `includes(x) ? filter(y => y !== x) : [...s, x]`: removes every occurrence of a present
   * element, appends an absent one at the end.
   */
  function Toggle<T(==)>(s: seq<T>, x: T): (r: seq<T>)
    ensures x in s ==> x !in r && |r| < |s|
    ensures x !in s ==> |r| == |s| + 1 && r[..|s|] == s && r[|s|] == x
    ensures forall i :: 0 <= i < |r| && r[i] != x ==> r[i] in s
    ensures forall i :: 0 <= i < |s| && s[i] != x ==> s[i] in r
  {
    if x in s then
      var k :| 0 <= k < |s| && s[k] == x;
      FilterShrinks(s, Except(x), k);
      FilterMembers(s, Except(x));
      Filter(s, Except(x))
    else s + [x]
  }

  lemma {:induction false} FilterShrinks<T>(s: seq<T>, keep: T -> bool, k: nat)
    requires k < |s| && !keep(s[k])
    ensures |Filter(s, keep)| < |s|
  {
    if k > 0 {
      FilterShrinks(s[1..], keep, k - 1);
    }
  }

  /** Toggling an absent element twice restores the original list. */
  lemma ToggleTwiceRestores<T>(s: seq<T>, x: T)
    requires x !in s
    ensures Toggle(Toggle(s, x), x) == s
  {
    FilterConcat(s, [x], Except(x));
    FilterKeepsAll(s, Except(x));
  }

  /** When `x` occurs only at position `k`, toggling it removes exactly that position. */
  lemma ToggleRemovesOne<T>(s: seq<T>, x: T, k: nat)
    requires k < |s| && s[k] == x
    requires forall i :: 0 <= i < |s| && i != k ==> s[i] != x
    ensures Toggle(s, x) == s[..k] + s[k + 1..]
  {
    FilterRemovesOne(s, Except(x), k);
  }

  /** No two elements of `s` share a key. */
  ghost predicate DistinctKeys<T, K>(s: seq<T>, key: T -> K)
  {
    forall i, j :: 0 <= i < j < |s| ==> key(s[i]) != key(s[j])
  }

  /** Filtering keeps keys distinct: it only drops elements. */
  lemma {:induction false} FilterKeepsDistinctKeys<T, K>(s: seq<T>, keep: T -> bool, key: T -> K)
    requires DistinctKeys(s, key)
    ensures DistinctKeys(Filter(s, keep), key)
  {
    if s != [] {
      var tail := s[1..];
      assert DistinctKeys(tail, key) by {
        forall i, j | 0 <= i < j < |tail| ensures key(tail[i]) != key(tail[j]) {
          assert tail[i] == s[i + 1] && tail[j] == s[j + 1];
        }
      }
      FilterKeepsDistinctKeys(tail, keep, key);
      FilterMembers(tail, keep);
      var ft := Filter(tail, keep);
      if keep(s[0]) {
        var r := [s[0]] + ft;
        forall i, j | 0 <= i < j < |r| ensures key(r[i]) != key(r[j]) {
          assert r[j] == ft[j - 1];
          var m :| 0 <= m < |tail| && tail[m] == ft[j - 1];
          assert tail[m] == s[m + 1];
          if i > 0 {
            assert r[i] == ft[i - 1];
          }
        }
      }
    }
  }

  /** The identity, as a key. */
  function Itself<T>(x: T): T
  {
    x
  }

  /** No element occurs twice. */
  ghost predicate NoDuplicates<T>(s: seq<T>)
  {
    forall i, j :: 0 <= i < j < |s| ==> s[i] != s[j]
  }

  /** Toggling keeps a list free of duplicates. */
  lemma ToggleKeepsNoDuplicates<T>(s: seq<T>, x: T)
    requires NoDuplicates(s)
    ensures NoDuplicates(Toggle(s, x))
  {
    var r := Toggle(s, x);
    if x in s {
      assert DistinctKeys(s, Itself) by {
        forall i, j | 0 <= i < j < |s| ensures Itself(s[i]) != Itself(s[j]) {
        }
      }
      FilterKeepsDistinctKeys(s, Except(x), Itself);
      forall i, j | 0 <= i < j < |r| ensures r[i] != r[j] {
        assert Itself(r[i]) != Itself(r[j]);
      }
    } else {
      forall i, j | 0 <= i < j < |r| ensures r[i] != r[j] {
        if j == |s| {
          assert r[i] == s[i];
        } else {
          assert r[i] == s[i] && r[j] == s[j];
        }
      }
    }
  }

  /** Every element of `s` is at least as recent as every element after it. */
  ghost predicate NewestFirst<T>(s: seq<T>, time: T -> int)
  {
    forall i, j :: 0 <= i < j < |s| ==> time(s[i]) >= time(s[j])
  }

  /**
   * Inserts `x` before the first element that is not strictly more recent than it; the
   * elements skipped are exactly the strictly more recent ones.
   */
  function InsertNewest<T>(x: T, s: seq<T>, time: T -> int): (r: seq<T>)
    ensures |r| == |s| + 1
    ensures multiset(r) == multiset(s) + multiset{x}
  {
    if s == [] || time(s[0]) <= time(x) then [x] + s
    else
      assert s == [s[0]] + s[1..];
      [s[0]] + InsertNewest(x, s[1..], time)
  }

  /** Inserting keeps every time at or below a bound that the element and the list respect. */
  lemma {:induction false} InsertNewestBounded<T>(x: T, s: seq<T>, time: T -> int, bound: int)
    requires time(x) <= bound
    requires forall i :: 0 <= i < |s| ==> time(s[i]) <= bound
    ensures forall j :: 0 <= j < |s| + 1 ==> time(InsertNewest(x, s, time)[j]) <= bound
  {
    if s != [] && time(s[0]) > time(x) {
      InsertNewestBounded(x, s[1..], time, bound);
    }
  }

  lemma {:induction false} InsertNewestSorted<T>(x: T, s: seq<T>, time: T -> int)
    requires NewestFirst(s, time)
    ensures NewestFirst(InsertNewest(x, s, time), time)
  {
    if s != [] && time(s[0]) > time(x) {
      InsertNewestSorted(x, s[1..], time);
      InsertNewestBounded(x, s[1..], time, time(s[0]));
    }
  }


  /**
   * The comparator sort `(a, b) => time(b) - time(a)` of a stable sort: most recent first,
   * elements with equal times in their original order.
   */
  function SortNewestFirst<T>(s: seq<T>, time: T -> int): (r: seq<T>)
    ensures |r| == |s|
    ensures multiset(r) == multiset(s)
    ensures NewestFirst(r, time)
  {
    if s == [] then []
    else
      assert s == [s[0]] + s[1..];
      InsertNewestSorted(s[0], SortNewestFirst(s[1..], time), time);
      InsertNewest(s[0], SortNewestFirst(s[1..], time), time)
  }

  /** The predicate "has time `t`". */
  function TimeIs<T>(time: T -> int, t: int): T -> bool
  {
    x => time(x) == t
  }

  /** Putting `h` in front of `x` does not reorder what `p` keeps, when `p` does not keep both. */
  lemma FilterSwapFront<T>(h: T, x: T, tail: seq<T>, rest: seq<T>, p: T -> bool)
    requires Filter(tail, p) == Filter([x], p) + Filter(rest, p)
    requires !(p(h) && p(x))
    ensures Filter([h] + tail, p) == Filter([x], p) + Filter([h] + rest, p)
  {
    FilterConcat([h], tail, p);
    FilterConcat([h], rest, p);
    var fh, fx, fRest := Filter([h], p), Filter([x], p), Filter(rest, p);
    if p(x) {
      assert fh == [];
      assert fh + (fx + fRest) == fx + fRest;
    } else {
      assert fx == [];
      assert fx + fRest == fRest;
      assert fx + (fh + fRest) == fh + fRest;
    }
  }

  lemma {:induction false} InsertNewestStable<T>(x: T, s: seq<T>, time: T -> int, t: int)
    ensures Filter(InsertNewest(x, s, time), TimeIs(time, t))
         == Filter([x], TimeIs(time, t)) + Filter(s, TimeIs(time, t))
  {
    var p := TimeIs(time, t);
    if s == [] || time(s[0]) <= time(x) {
      FilterConcat([x], s, p);
    } else {
      var tail := InsertNewest(x, s[1..], time);
      assert InsertNewest(x, s, time) == [s[0]] + tail;
      InsertNewestStable(x, s[1..], time, t);
      FilterSwapFront(s[0], x, tail, s[1..], p);
      assert [s[0]] + s[1..] == s;
    }
  }

  /** Inserting `x` into a list with the same elements of time `t` as `rest` is as good as prepending it. */
  lemma InsertNewestStableStep<T>(x: T, sorted: seq<T>, rest: seq<T>, time: T -> int, t: int)
    requires Filter(sorted, TimeIs(time, t)) == Filter(rest, TimeIs(time, t))
    ensures Filter(InsertNewest(x, sorted, time), TimeIs(time, t)) == Filter([x] + rest, TimeIs(time, t))
  {
    InsertNewestStable(x, sorted, time, t);
    FilterConcat([x], rest, TimeIs(time, t));
  }

  /** Stability: for every time, the elements with that time appear in their original order. */
  lemma {:induction false} SortNewestFirstStable<T>(s: seq<T>, time: T -> int, t: int)
    ensures Filter(SortNewestFirst(s, time), TimeIs(time, t)) == Filter(s, TimeIs(time, t))
  {
    if s != [] {
      SortNewestFirstStable(s[1..], time, t);
      InsertNewestStableStep(s[0], SortNewestFirst(s[1..], time), s[1..], time, t);
      assert [s[0]] + s[1..] == s;
    }
  }

  /** The pieces `f` gives for each element, concatenated in order. */
  function FlatMap<T, U>(xs: seq<T>, f: T -> seq<U>): seq<U>
  {
    if xs == [] then [] else FlatMap(xs[..|xs| - 1], f) + f(xs[|xs| - 1])
  }

  lemma {:induction false} FlatMapConcat<T, U>(a: seq<T>, b: seq<T>, f: T -> seq<U>)
    ensures FlatMap(a + b, f) == FlatMap(a, f) + FlatMap(b, f)
    decreases |b|
  {
    if b == [] {
      assert a + b == a;
    } else {
      var init := b[..|b| - 1];
      assert (a + b)[..|a + b| - 1] == a + init;
      FlatMapConcat(a, init, f);
    }
  }

  lemma FlatMapStep<T, U>(xs: seq<T>, n: nat, f: T -> seq<U>)
    requires n < |xs|
    ensures FlatMap(xs[..n + 1], f) == FlatMap(xs[..n], f) + f(xs[n])
  {
    assert xs[..n + 1][..n] == xs[..n];
  }

  /** Appending the next element's piece to a prefix followed by the pieces so far extends it by one. */
  lemma FlatMapAppend<T, U>(prefix: seq<U>, done: seq<U>, xs: seq<T>, n: nat, f: T -> seq<U>)
    requires n < |xs| && done == prefix + FlatMap(xs[..n], f)
    ensures done + f(xs[n]) == prefix + FlatMap(xs[..n + 1], f)
  {
    FlatMapStep(xs, n, f);
    AppendAssoc(prefix, FlatMap(xs[..n], f), f(xs[n]));
  }
}
