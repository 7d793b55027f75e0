/**
 * A stable sort by a real-valued key. Both call sites of the engine's
 * `Array.prototype.sort` rely on its stability: the bottleneck selection of
 * the valuation engine and the quality ordering of language negotiation.
 * `Sort` is the reference definition (insertion sort, which is stable),
 * `SortByKey` sorts an array in place and is proved to agree with it.
 */
module StableSort {

  /** `s` is in non-decreasing order of `key`. */
  predicate IsSorted<T>(s: seq<T>, key: T -> real) {
    forall i, j :: 0 <= i < j < |s| ==> key(s[i]) <= key(s[j])
  }

  /** `s[i]` has the least key in `s` and no earlier element has that key. */
  predicate IsFirstMin<T>(s: seq<T>, i: int, key: T -> real) {
    0 <= i < |s| &&
    (forall j :: 0 <= j < |s| ==> key(s[i]) <= key(s[j])) &&
    (forall j :: 0 <= j < i ==> key(s[i]) < key(s[j]))
  }

  /** The elements of `s` that satisfy `p`, in their original order. */
  function Filter<T>(s: seq<T>, p: T -> bool): (r: seq<T>)
    ensures |r| <= |s|
  {
    if s == [] then []
    else if p(s[0]) then [s[0]] + Filter(s[1..], p)
    else Filter(s[1..], p)
  }

  /** `Filter` keeps exactly the elements that satisfy `p`. */
  lemma {:induction false} FilterMembers<T>(s: seq<T>, p: T -> bool)
    ensures forall k :: 0 <= k < |Filter(s, p)| ==> Filter(s, p)[k] in s && p(Filter(s, p)[k])
    ensures forall k :: 0 <= k < |s| && p(s[k]) ==> s[k] in Filter(s, p)
  {
    if s != [] {
      FilterMembers(s[1..], p);
      var r := Filter(s, p);
      var r1 := Filter(s[1..], p);
      assert s == [s[0]] + s[1..];
      forall k | 0 <= k < |s| && p(s[k]) ensures s[k] in r {
        if k > 0 { assert s[k] == s[1..][k - 1]; }
      }
    }
  }

  lemma FilterCons<T>(x: T, s: seq<T>, p: T -> bool)
    ensures p(x) ==> Filter([x] + s, p) == [x] + Filter(s, p)
    ensures !p(x) ==> Filter([x] + s, p) == Filter(s, p)
  {
    assert ([x] + s)[1..] == s;
  }

  lemma {:induction false} FilterNone<T>(s: seq<T>, p: T -> bool)
    requires forall k :: 0 <= k < |s| ==> !p(s[k])
    ensures Filter(s, p) == []
  {
    if s != [] {
      FilterNone(s[1..], p);
    }
  }

  /** Inserts `x` before the first element of `t` whose key is not smaller. */
  function Insert<T>(x: T, t: seq<T>, key: T -> real): (r: seq<T>)
    ensures |r| == |t| + 1
  {
    if t == [] || key(x) <= key(t[0]) then [x] + t
    else [t[0]] + Insert(x, t[1..], key)
  }

  /** `Insert` adds `x` and nothing else. */
  lemma {:induction false} InsertPermutes<T>(x: T, t: seq<T>, key: T -> real)
    ensures multiset(Insert(x, t, key)) == multiset(t) + multiset{x}
  {
    if t != [] && key(x) > key(t[0]) {
      InsertPermutes(x, t[1..], key);
      assert t == [t[0]] + t[1..];
    }
  }

  /** A lower bound on the keys of `t` and of `x` bounds the keys of `Insert(x, t)`. */
  lemma {:induction false} InsertLowerBound<T>(x: T, t: seq<T>, key: T -> real, b: real)
    requires b <= key(x)
    requires forall k :: 0 <= k < |t| ==> b <= key(t[k])
    ensures forall k :: 0 <= k < |t| + 1 ==> b <= key(Insert(x, t, key)[k])
  {
    if t != [] && key(x) > key(t[0]) {
      InsertLowerBound(x, t[1..], key, b);
    }
  }

  lemma {:induction false} InsertSorted<T>(x: T, t: seq<T>, key: T -> real)
    requires IsSorted(t, key)
    ensures IsSorted(Insert(x, t, key), key)
  {
    if t != [] && key(x) > key(t[0]) {
      var t1 := t[1..];
      var rest := Insert(x, t1, key);
      InsertSorted(x, t1, key);
      InsertLowerBound(x, t1, key, key(t[0]));
      var r := [t[0]] + rest;
      assert Insert(x, t, key) == r;
      forall i, j | 0 <= i < j < |r|
        ensures key(r[i]) <= key(r[j])
      {
        assert r[j] == rest[j - 1];
        if i > 0 {
          assert r[i] == rest[i - 1];
        }
      }
    }
  }

  /** Stable insertion sort by `key`: the reference definition of the sort. */
  function Sort<T>(s: seq<T>, key: T -> real): (r: seq<T>)
    ensures |r| == |s|
    ensures IsSorted(r, key)
  {
    if s == [] then []
    else
      InsertSorted(s[0], Sort(s[1..], key), key);
      Insert(s[0], Sort(s[1..], key), key)
  }

  /** Filtering a sorted sequence and then inserting commutes with inserting first. */
  lemma {:induction false} InsertFilter<T>(x: T, t: seq<T>, key: T -> real, p: T -> bool)
    requires IsSorted(t, key)
    ensures Filter(Insert(x, t, key), p) ==
            if p(x) then Insert(x, Filter(t, p), key) else Filter(t, p)
  {
    if t == [] || key(x) <= key(t[0]) {
      assert Insert(x, t, key) == [x] + t;
      FilterCons(x, t, p);
      var ft := Filter(t, p);
      if ft != [] {
        FilterMembers(t, p);
        assert ft[0] in t;
        var k :| 0 <= k < |t| && t[k] == ft[0];
        assert key(t[0]) <= key(ft[0]);
        assert Insert(x, ft, key) == [x] + ft;
      }
    } else {
      var t1 := t[1..];
      assert IsSorted(t1, key);
      assert Insert(x, t, key) == [t[0]] + Insert(x, t1, key);
      InsertFilter(x, t1, key, p);
      FilterCons(t[0], Insert(x, t1, key), p);
      assert t == [t[0]] + t1;
      FilterCons(t[0], t1, p);
      if p(x) && p(t[0]) {
        var ft := Filter(t, p);
        assert ft == [t[0]] + Filter(t1, p);
        assert ft[1..] == Filter(t1, p);
        assert Insert(x, ft, key) == [t[0]] + Insert(x, Filter(t1, p), key);
      }
    }
  }

  /** Sorting rearranges `s` and neither adds nor drops elements. */
  lemma {:induction false} SortPermutes<T>(s: seq<T>, key: T -> real)
    ensures multiset(Sort(s, key)) == multiset(s)
  {
    if s != [] {
      SortPermutes(s[1..], key);
      InsertPermutes(s[0], Sort(s[1..], key), key);
      assert s == [s[0]] + s[1..];
    }
  }

  /**
   * Stability: sorting and then keeping the elements that satisfy `p` gives
   * the same sequence as keeping them first and sorting those. With `p`
   * selecting one key value, this says equal-keyed elements keep their order.
   */
  lemma {:induction false} SortIsStable<T>(s: seq<T>, key: T -> real, p: T -> bool)
    ensures Filter(Sort(s, key), p) == Sort(Filter(s, p), key)
  {
    if s != [] {
      SortIsStable(s[1..], key, p);
      InsertFilter(s[0], Sort(s[1..], key), key, p);
      assert s == [s[0]] + s[1..];
      FilterCons(s[0], s[1..], p);
      if p(s[0]) {
        var fs := Filter(s, p);
        assert fs[0] == s[0] && fs[1..] == Filter(s[1..], p);
      }
    }
  }

  /** A sequence whose elements all have the same key is already sorted: `Sort` leaves it as it is. */
  lemma {:induction false} SortEqualKeys<T>(s: seq<T>, key: T -> real)
    requires forall i, j :: 0 <= i < |s| && 0 <= j < |s| ==> key(s[i]) == key(s[j])
    ensures Sort(s, key) == s
  {
    if s != [] {
      SortEqualKeys(s[1..], key);
      assert s == [s[0]] + s[1..];
    }
  }

  /**
   * Elements with equal keys keep their relative order: the elements that
   * `p` selects, all of key `v`, appear in the sorted sequence in the same
   * order as in `s`.
   */
  lemma SortKeepsEqualKeyOrder<T>(s: seq<T>, key: T -> real, p: T -> bool, v: real)
    requires forall x :: p(x) ==> key(x) == v
    ensures Filter(Sort(s, key), p) == Filter(s, p)
  {
    SortIsStable(s, key, p);
    FilterMembers(s, p);
    SortEqualKeys(Filter(s, p), key);
  }

  /** The head of the sorted sequence is the first element with the least key. */
  lemma {:induction false} SortHead<T>(s: seq<T>, key: T -> real)
    requires |s| > 0
    ensures exists i :: IsFirstMin(s, i, key) && Sort(s, key)[0] == s[i]
  {
    if |s| == 1 {
      assert IsFirstMin(s, 0, key);
    } else {
      var t := s[1..];
      SortHead(t, key);
      var i' :| IsFirstMin(t, i', key) && Sort(t, key)[0] == t[i'];
      if key(s[0]) <= key(t[i']) {
        forall j | 0 <= j < |s| ensures key(s[0]) <= key(s[j]) {
          if j > 0 { assert s[j] == t[j - 1]; }
        }
        assert IsFirstMin(s, 0, key);
      } else {
        forall j | 0 <= j < |s| ensures key(s[i' + 1]) <= key(s[j]) {
          if j > 0 { assert s[j] == t[j - 1]; }
        }
        forall j | 0 <= j < i' + 1 ensures key(s[i' + 1]) < key(s[j]) {
          if j > 0 { assert s[j] == t[j - 1]; }
        }
        assert IsFirstMin(s, i' + 1, key);
      }
    }
  }

  /** When `s[k]` is the first element satisfying `p`, it heads `Filter(s, p)`. */
  lemma {:induction false} FilterHead<T>(s: seq<T>, p: T -> bool, k: int)
    requires 0 <= k < |s| && p(s[k])
    requires forall j :: 0 <= j < k ==> !p(s[j])
    ensures |Filter(s, p)| > 0 && Filter(s, p)[0] == s[k]
  {
    assert s == [s[0]] + s[1..];
    FilterCons(s[0], s[1..], p);
    if k > 0 {
      FilterHead(s[1..], p, k - 1);
    }
  }

  /**
   * The first element of the sorted sequence that satisfies `p` is the first
   * element with the least key among those of `s` that satisfy `p`.
   */
  lemma FirstMatchAfterSort<T>(s: seq<T>, key: T -> real, p: T -> bool, k: int)
    requires 0 <= k < |s| && p(Sort(s, key)[k])
    requires forall j :: 0 <= j < k ==> !p(Sort(s, key)[j])
    ensures exists i :: IsFirstMin(Filter(s, p), i, key) && Sort(s, key)[k] == Filter(s, p)[i]
  {
    FilterHead(Sort(s, key), p, k);
    SortIsStable(s, key, p);
    SortHead(Filter(s, p), key);
  }

  /** When no element of the sorted sequence satisfies `p`, none of `s` does. */
  lemma NoMatchAfterSort<T>(s: seq<T>, key: T -> real, p: T -> bool)
    requires forall j :: 0 <= j < |s| ==> !p(Sort(s, key)[j])
    ensures Filter(s, p) == []
  {
    var r := Sort(s, key);
    SortPermutes(s, key);
    forall k | 0 <= k < |s| ensures !p(s[k]) {
      assert s[k] in multiset(r);
      var j :| 0 <= j < |r| && r[j] == s[k];
    }
    FilterNone(s, p);
  }

  /**
   * `Insert` places `x` right after the leading run of elements whose key is
   * smaller than that of `x`.
   */
  lemma {:induction false} InsertSplit<T>(x: T, t: seq<T>, key: T -> real, m: int)
    requires 0 <= m <= |t|
    requires forall k :: 0 <= k < m ==> key(t[k]) < key(x)
    requires m == |t| || key(x) <= key(t[m])
    ensures Insert(x, t, key) == t[..m] + [x] + t[m..]
  {
    if m == 0 {
      assert t[..0] == [] && t[0..] == t;
    } else {
      var u := t[1..];
      assert forall k :: 0 <= k < m - 1 ==> u[k] == t[k + 1];
      InsertSplit(x, u, key, m - 1);
      calc {
        Insert(x, t, key);
        [t[0]] + Insert(x, u, key);
        [t[0]] + (u[..m - 1] + [x] + u[m - 1..]);
        { assert u[..m - 1] == t[1..m] && u[m - 1..] == t[m..]; }
        [t[0]] + (t[1..m] + [x] + t[m..]);
        { assert [t[0]] + t[1..m] == t[..m]; }
        t[..m] + [x] + t[m..];
      }
    }
  }

  /** `u` from `i` on is `t` with `x` placed at offset `m`. */
  lemma ShiftedShape<T>(u: seq<T>, i: int, m: int, t: seq<T>, x: T)
    requires 0 <= i && 0 <= m <= |t| && |u| == i + |t| + 1
    requires forall k :: i <= k < i + m ==> u[k] == t[k - i]
    requires u[i + m] == x
    requires forall k :: i + m < k < |u| ==> u[k] == t[k - i - 1]
    ensures u[i..] == t[..m] + [x] + t[m..]
  {
    var w := t[..m] + [x] + t[m..];
    assert |u[i..]| == |w|;
    forall k | 0 <= k < |w| ensures u[i..][k] == w[k] {
      if k < m {
        assert w[k] == t[k];
      } else if k > m {
        assert w[k] == t[k - 1];
      }
    }
  }

  /**
   * Moves `a[i]` rightwards past the smaller-keyed elements that follow it,
   * shifting each of them one place left.
   */
  method InsertAt<T>(a: array<T>, i: int, key: T -> real)
    requires 0 <= i < a.Length
    modifies a
    ensures a[..i] == old(a[..i])
    ensures a[i..] == Insert(old(a[i]), old(a[i + 1..]), key)
  {
    ghost var t := a[i + 1..];
    var x := a[i];
    var j := i + 1;
    while j < a.Length && key(a[j]) < key(x)
      invariant i + 1 <= j <= a.Length
      invariant forall k :: 0 <= k < i ==> a[k] == old(a[k])
      invariant forall k :: i <= k < j - 1 ==> a[k] == t[k - i]
      invariant forall k :: j <= k < a.Length ==> a[k] == t[k - i - 1]
      invariant forall k :: 0 <= k < j - i - 1 ==> key(t[k]) < key(x)
    {
      a[j - 1] := a[j];
      j := j + 1;
    }
    a[j - 1] := x;
    InsertSplit(x, t, key, j - i - 1);
    assert a[..i] == old(a[..i]);
    ShiftedShape(a[..], i, j - i - 1, t, x);
  }

  /** Sorts `a` in place, stably, by `key` (insertion sort from the right). */
  method SortByKey<T>(a: array<T>, key: T -> real)
    modifies a
    ensures a[..] == Sort(old(a[..]), key)
  {
    ghost var s := a[..];
    var i := a.Length;
    while i > 0
      invariant 0 <= i <= a.Length
      invariant a[..i] == s[..i]
      invariant a[i..] == Sort(s[i..], key)
    {
      i := i - 1;
      assert s[i..] == [s[i]] + s[i + 1..];
      InsertAt(a, i, key);
    }
  }
}
