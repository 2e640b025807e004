/**
 * Order-preserving filtering and a stable sort by key.
 *
 * Every `orderBy: { field: "asc" }` read of the store and every `Array.prototype.sort`
 * of the client is modelled by `SortBy`: an insertion sort that places each element
 * after every element whose key is not greater, so elements with equal keys keep the
 * order they had (insertion order for a table, list order for an array).
 */
module Sorting {

  /** `le` is total and transitive: the shape of an ascending comparison on keys. */
  ghost predicate TotalPreorder<K(!new)>(le: (K, K) -> bool) {
    && (forall a, b :: le(a, b) || le(b, a))
    && (forall a, b, c :: le(a, b) && le(b, c) ==> le(a, c))
  }

  /** Ascending order on numbers, the comparison behind every `"asc"` on a date or number column. */
  predicate IntLe(a: int, b: int) {
    a <= b
  }

  lemma IntLeIsTotalPreorder()
    ensures TotalPreorder(IntLe)
  {
  }

  /** The elements of `s` are in ascending order of their keys. */
  ghost predicate Sorted<T, K>(s: seq<T>, key: T -> K, le: (K, K) -> bool) {
    forall i, j :: 0 <= i < j < |s| ==> le(key(s[i]), key(s[j]))
  }

  /** The elements of `s` satisfying `p`, in their original order (`Array.prototype.filter`). */
  function Filter<T(!new)>(s: seq<T>, p: T -> bool): (r: seq<T>)
    ensures |r| <= |s|
    ensures forall x :: x in r <==> x in s && p(x)
    ensures forall i :: 0 <= i < |r| ==> p(r[i])
  {
    if s == [] then [] else (if p(s[0]) then [s[0]] else []) + Filter(s[1..], p)
  }

  lemma {:induction false} FilterConcat<T(!new)>(a: seq<T>, b: seq<T>, p: T -> bool)
    ensures Filter(a + b, p) == Filter(a, p) + Filter(b, p)
  {
    if a == [] {
      assert a + b == b;
    } else {
      assert (a + b)[1..] == a[1..] + b;
      FilterConcat(a[1..], b, p);
    }
  }

  /** Filtering a list no element of which is rejected returns it unchanged. */
  lemma {:induction false} FilterAll<T(!new)>(s: seq<T>, p: T -> bool)
    requires forall i :: 0 <= i < |s| ==> p(s[i])
    ensures Filter(s, p) == s
  {
    if s != [] {
      FilterAll(s[1..], p);
    }
  }

  /** Filtering a list of which exactly the element at `k` is rejected cuts out that element. */
  lemma FilterCutsOne<T(!new)>(s: seq<T>, k: nat, p: T -> bool)
    requires k < |s| && !p(s[k])
    requires forall i :: 0 <= i < |s| && i != k ==> p(s[i])
    ensures Filter(s, p) == s[..k] + s[k + 1..]
  {
    var front, back := s[..k], s[k + 1..];
    assert Filter(front, p) == front by {
      forall i | 0 <= i < |front| ensures p(front[i]) {
        assert front[i] == s[i];
      }
      FilterAll(front, p);
    }
    assert Filter(back, p) == back by {
      forall i | 0 <= i < |back| ensures p(back[i]) {
        assert back[i] == s[k + 1 + i];
      }
      FilterAll(back, p);
    }
    assert Filter([s[k]] + back, p) == back by {
      FilterDropsFirst(s[k], back, p);
    }
    SplitAt(s, k);
    FilterConcat(front, [s[k]] + back, p);
  }

  lemma FilterDropsFirst<T(!new)>(x: T, s: seq<T>, p: T -> bool)
    requires !p(x)
    ensures Filter([x] + s, p) == Filter(s, p)
  {
    assert ([x] + s)[1..] == s;
  }

  lemma SplitAt<T>(s: seq<T>, k: nat)
    requires k < |s|
    ensures s == s[..k] + ([s[k]] + s[k + 1..])
  {
  }

  /** `r` is the subsequence of `s` at the strictly increasing positions `idx`. */
  ghost predicate SubsequenceAt<T>(r: seq<T>, s: seq<T>, idx: seq<nat>) {
    && |idx| == |r|
    && (forall j :: 0 <= j < |idx| ==> idx[j] < |s| && r[j] == s[idx[j]])
    && (forall j, k :: 0 <= j < k < |idx| ==> idx[j] < idx[k])
  }

  /**
   * `r` is what `s` keeps under `p`: the elements of `s` at increasing positions, with
   * every position whose element satisfies `p` among them, and no other.
   */
  ghost predicate KeptInOrder<T>(r: seq<T>, s: seq<T>, p: T -> bool) {
    exists idx :: SubsequenceAt(r, s, idx) && forall i :: 0 <= i < |s| ==> (i in idx <==> p(s[i]))
  }

  /** Filtering keeps each element that satisfies the test, once, in its original order, and drops the others. */
  lemma FilterKeptInOrder<T(!new)>(s: seq<T>, p: T -> bool)
    ensures KeptInOrder(Filter(s, p), s, p)
  {
    var idx := FilterPositions(s, p);
  }

  /** The positions `Filter` keeps. */
  lemma {:induction false} FilterPositions<T(!new)>(s: seq<T>, p: T -> bool) returns (idx: seq<nat>)
    ensures SubsequenceAt(Filter(s, p), s, idx)
    ensures forall i :: 0 <= i < |s| ==> (i in idx <==> p(s[i]))
  {
    if s == [] {
      idx := [];
    } else {
      var t := s[1..];
      assert s == [s[0]] + t;
      var rest := FilterPositions(t, p);
      ShiftSubsequence(s[0], t, Filter(t, p), rest);
      ShiftMembers(rest, |t|);
      forall i | 1 <= i < |s| ensures i in Shift(rest) <==> p(s[i]) {
        assert s[i] == t[i - 1];
      }
      if p(s[0]) {
        idx := [0] + Shift(rest);
        assert Filter(s, p) == [s[0]] + Filter(t, p);
        ConsSubsequence(Filter(t, p), s, Shift(rest));
      } else {
        idx := Shift(rest);
        assert Filter(s, p) == Filter(t, p);
      }
    }
  }

  function Shift(idx: seq<nat>): (r: seq<nat>)
    ensures |r| == |idx| && forall j :: 0 <= j < |idx| ==> r[j] == idx[j] + 1
  {
    seq(|idx|, j requires 0 <= j < |idx| => idx[j] + 1)
  }

  /** A subsequence of `t` is one of `[x] + t`, one position further on. */
  lemma ShiftSubsequence<T>(x: T, t: seq<T>, f: seq<T>, idx: seq<nat>)
    requires SubsequenceAt(f, t, idx)
    ensures SubsequenceAt(f, [x] + t, Shift(idx))
  {
    var s := [x] + t;
    forall j | 0 <= j < |idx| ensures Shift(idx)[j] < |s| && f[j] == s[Shift(idx)[j]] {
      assert s[idx[j] + 1] == t[idx[j]];
    }
  }

  /** Shifting positions below `n` moves each up by one and leaves 0 out. */
  lemma ShiftMembers(idx: seq<nat>, n: nat)
    requires forall j :: 0 <= j < |idx| ==> idx[j] < n
    ensures 0 !in Shift(idx)
    ensures forall i :: 1 <= i <= n ==> (i in Shift(idx) <==> i - 1 in idx)
  {
    forall i | 1 <= i <= n ensures i in Shift(idx) <==> i - 1 in idx {
      if i - 1 in idx {
        var j :| 0 <= j < |idx| && idx[j] == i - 1;
        assert Shift(idx)[j] == i;
      }
    }
  }

  /** The first element followed by a subsequence that avoids position 0 is a subsequence. */
  lemma ConsSubsequence<T>(f: seq<T>, s: seq<T>, idx: seq<nat>)
    requires |s| > 0 && SubsequenceAt(f, s, idx) && 0 !in idx
    ensures SubsequenceAt([s[0]] + f, s, [0] + idx)
  {
    var r, k := [s[0]] + f, [0] + idx;
    forall j | 1 <= j < |k| ensures k[j] < |s| && r[j] == s[k[j]] {
      assert k[j] == idx[j - 1] && r[j] == f[j - 1];
    }
    forall j, l | 0 <= j < l < |k| ensures k[j] < k[l] {
      assert k[l] == idx[l - 1] && idx[l - 1] != 0;
      if j > 0 {
        assert k[j] == idx[j - 1];
      }
    }
  }

  /** Filtering keeps a sorted list sorted: what is left is a subsequence. */
  lemma {:induction false} FilterSorted<T(!new), K>(s: seq<T>, p: T -> bool, key: T -> K, le: (K, K) -> bool)
    requires Sorted(s, key, le)
    ensures Sorted(Filter(s, p), key, le)
  {
    if s != [] {
      var t := s[1..];
      forall i, j | 0 <= i < j < |t| ensures le(key(t[i]), key(t[j])) {
        assert t[i] == s[i + 1] && t[j] == s[j + 1];
      }
      FilterSorted(t, p, key, le);
      var f := Filter(t, p);
      if p(s[0]) {
        forall j | 0 <= j < |f| ensures le(key(s[0]), key(f[j])) {
          assert f[j] in t;
          var k :| 0 <= k < |t| && t[k] == f[j];
          assert s[k + 1] == f[j];
        }
        var r := [s[0]] + f;
        forall i, j | 0 <= i < j < |r| ensures le(key(r[i]), key(r[j])) {
          assert r[j] == f[j - 1];
          if i > 0 {
            assert r[i] == f[i - 1];
          }
        }
      }
    }
  }

  /** No element occurs twice. */
  ghost predicate Distinct<T>(s: seq<T>) {
    forall i, j :: 0 <= i < j < |s| ==> s[i] != s[j]
  }

  lemma TailDistinct<T>(s: seq<T>)
    requires s != [] && Distinct(s)
    ensures Distinct(s[1..]) && s[0] !in s[1..]
  {
    var t := s[1..];
    forall i, j | 0 <= i < j < |t| ensures t[i] != t[j] {
      assert t[i] == s[i + 1] && t[j] == s[j + 1];
    }
    forall k | 0 <= k < |t| ensures t[k] != s[0] {
      assert t[k] == s[k + 1];
    }
  }

  lemma ConsDistinct<T>(x: T, f: seq<T>)
    requires Distinct(f) && x !in f
    ensures Distinct([x] + f)
  {
    var r := [x] + f;
    forall i, j | 0 <= i < j < |r| ensures r[i] != r[j] {
      assert r[j] == f[j - 1];
      if i > 0 {
        assert r[i] == f[i - 1];
      }
    }
  }

  /** Filtering a list without repeats gives a list without repeats. */
  lemma {:induction false} FilterDistinct<T(!new)>(s: seq<T>, p: T -> bool)
    requires Distinct(s)
    ensures Distinct(Filter(s, p))
  {
    if s != [] {
      TailDistinct(s);
      FilterDistinct(s[1..], p);
      if p(s[0]) {
        ConsDistinct(s[0], Filter(s[1..], p));
      }
    }
  }

  /**
   * The index of the first element satisfying `p`, or `|s|` when there is none
   * (`Array.prototype.find` / `findIndex`).
   */
  function FindIndex<T>(s: seq<T>, p: T -> bool): (i: nat)
    ensures i <= |s|
    ensures i < |s| ==> p(s[i])
    ensures forall j :: 0 <= j < i ==> !p(s[j])
  {
    if s == [] then 0
    else if p(s[0]) then 0
    else
      var i := FindIndex(s[1..], p);
      assert forall j :: 1 <= j <= i ==> s[j] == s[1..][j - 1];
      i + 1
  }

  /** The elements of `s` whose key is exactly `k`, in their original order. */
  function WithKey<T(!new), K(==)>(s: seq<T>, key: T -> K, k: K): (r: seq<T>)
    ensures forall x :: x in r <==> x in s && key(x) == k
  {
    if s == [] then []
    else WithKey(s[..|s| - 1], key, k) + (if key(s[|s| - 1]) == k then [s[|s| - 1]] else [])
  }

  /** Insert `x` after the last element of `r` whose key is not greater than that of `x`. */
  function Insert<T, K>(r: seq<T>, x: T, key: T -> K, le: (K, K) -> bool): (q: seq<T>)
    ensures |q| == |r| + 1
    ensures multiset(q) == multiset(r) + multiset{x}
  {
    if r == [] || le(key(r[|r| - 1]), key(x)) then r + [x]
    else
      assert r == r[..|r| - 1] + [r[|r| - 1]];
      Insert(r[..|r| - 1], x, key, le) + [r[|r| - 1]]
  }

  /** Stable sort of `s` in ascending key order. */
  function SortBy<T, K>(s: seq<T>, key: T -> K, le: (K, K) -> bool): (r: seq<T>)
    ensures |r| == |s|
    ensures multiset(r) == multiset(s)
  {
    if s == [] then []
    else
      assert s == s[..|s| - 1] + [s[|s| - 1]];
      Insert(SortBy(s[..|s| - 1], key, le), s[|s| - 1], key, le)
  }

  /** The inserted list holds exactly the old elements and `x`. */
  lemma InsertMembers<T(!new), K>(r: seq<T>, x: T, key: T -> K, le: (K, K) -> bool)
    ensures forall y :: y in Insert(r, x, key, le) <==> y in r || y == x
  {
    var q := Insert(r, x, key, le);
    forall y ensures y in q <==> y in r || y == x {
      assert y in q <==> y in multiset(q);
      assert y in r <==> y in multiset(r);
    }
  }

  lemma {:induction false} InsertSorted<T(!new), K(!new)>(r: seq<T>, x: T, key: T -> K, le: (K, K) -> bool)
    requires TotalPreorder(le)
    requires Sorted(r, key, le)
    ensures Sorted(Insert(r, x, key, le), key, le)
  {
    var q := Insert(r, x, key, le);
    if r == [] || le(key(r[|r| - 1]), key(x)) {
      assert q == r + [x];
      forall i | 0 <= i < |r| ensures le(key(r[i]), key(x)) {
        if i < |r| - 1 {
          assert le(key(r[i]), key(r[|r| - 1]));
        }
      }
    } else {
      var r' := r[..|r| - 1];
      var last := r[|r| - 1];
      InsertSorted(r', x, key, le);
      var q' := Insert(r', x, key, le);
      InsertMembers(r', x, key, le);
      assert q == q' + [last];
      assert le(key(x), key(last));
      forall y | y in q' ensures le(key(y), key(last)) {
        if y != x {
          assert y in Insert(r', x, key, le);
          assert y in r';
          var k :| 0 <= k < |r'| && r'[k] == y;
          assert le(key(r[k]), key(r[|r| - 1]));
        }
      }
      forall i | 0 <= i < |q'| ensures le(key(q'[i]), key(last)) {
        assert q'[i] in q';
      }
    }
  }

  /** The sort returns a sorted permutation of its input. */
  lemma {:induction false} SortBySorted<T(!new), K(!new)>(s: seq<T>, key: T -> K, le: (K, K) -> bool)
    requires TotalPreorder(le)
    ensures Sorted(SortBy(s, key, le), key, le)
    ensures forall x :: x in SortBy(s, key, le) <==> x in s
  {
    var r := SortBy(s, key, le);
    forall x ensures x in r <==> x in s {
      assert x in r <==> x in multiset(r);
      assert x in s <==> x in multiset(s);
    }
    if s != [] {
      SortBySorted(s[..|s| - 1], key, le);
      InsertSorted(SortBy(s[..|s| - 1], key, le), s[|s| - 1], key, le);
    }
  }

  /** Inserting `x` appends it to the elements of its own key and moves no other element of any key. */
  lemma {:induction false} InsertStable<T(!new), K(!new)>(r: seq<T>, x: T, key: T -> K, le: (K, K) -> bool, k: K)
    requires TotalPreorder(le)
    ensures WithKey(Insert(r, x, key, le), key, k)
         == WithKey(r, key, k) + (if key(x) == k then [x] else [])
  {
    if r == [] || le(key(r[|r| - 1]), key(x)) {
      assert Insert(r, x, key, le) == r + [x];
      WithKeySnoc(r, x, key, k);
    } else {
      var r', last := r[..|r| - 1], r[|r| - 1];
      InsertStable(r', x, key, le, k);
      InsertPastLast(r, x, key, le, k);
    }
  }

  /** The elements of key `k` in a list with one more element at its end. */
  lemma WithKeySnoc<T(!new), K(!new)>(s: seq<T>, y: T, key: T -> K, k: K)
    ensures WithKey(s + [y], key, k) == WithKey(s, key, k) + (if key(y) == k then [y] else [])
  {
    assert (s + [y])[..|s + [y]| - 1] == s;
  }

  /** The step of `InsertStable` where `x` goes before the last element. */
  lemma InsertPastLast<T(!new), K(!new)>(r: seq<T>, x: T, key: T -> K, le: (K, K) -> bool, k: K)
    requires TotalPreorder(le)
    requires r != [] && !le(key(r[|r| - 1]), key(x))
    requires WithKey(Insert(r[..|r| - 1], x, key, le), key, k)
          == WithKey(r[..|r| - 1], key, k) + (if key(x) == k then [x] else [])
    ensures WithKey(Insert(r, x, key, le), key, k)
         == WithKey(r, key, k) + (if key(x) == k then [x] else [])
  {
    var r', last := r[..|r| - 1], r[|r| - 1];
    var q' := Insert(r', x, key, le);
    var xs := if key(x) == k then [x] else [];
    var ls := if key(last) == k then [last] else [];
    assert le(key(x), key(x));
    SplitLast(r);
    calc {
      WithKey(Insert(r, x, key, le), key, k);
      WithKey(q' + [last], key, k);
      { WithKeySnoc(q', last, key, k); }
      WithKey(q', key, k) + ls;
      WithKey(r', key, k) + xs + ls;
      { SwapEmpty(WithKey(r', key, k), xs, ls); }
      WithKey(r', key, k) + ls + xs;
      { WithKeySnoc(r', last, key, k); }
      WithKey(r' + [last], key, k) + xs;
      WithKey(r, key, k) + xs;
    }
  }

  lemma SplitLast<T>(r: seq<T>)
    requires r != []
    ensures r[..|r| - 1] + [r[|r| - 1]] == r
  {
  }

  lemma SwapEmpty<T>(w: seq<T>, a: seq<T>, b: seq<T>)
    requires a == [] || b == []
    ensures w + a + b == w + b + a
  {
  }

  /**
   * Stability: for every key, the elements carrying that key appear in the sorted
   * result in exactly the order they had in the input.
   */
  lemma {:induction false} SortByStable<T(!new), K(!new)>(s: seq<T>, key: T -> K, le: (K, K) -> bool, k: K)
    requires TotalPreorder(le)
    ensures WithKey(SortBy(s, key, le), key, k) == WithKey(s, key, k)
  {
    if s != [] {
      SortByStable(s[..|s| - 1], key, le, k);
      InsertStable(SortBy(s[..|s| - 1], key, le), s[|s| - 1], key, le, k);
    }
  }

  /** Sorting a list that is already in order changes nothing. */
  lemma {:induction false} SortBySortedIsIdentity<T, K>(s: seq<T>, key: T -> K, le: (K, K) -> bool)
    requires Sorted(s, key, le)
    ensures SortBy(s, key, le) == s
  {
    if s != [] {
      var s' := s[..|s| - 1];
      assert Sorted(s', key, le);
      SortBySortedIsIdentity(s', key, le);
      if |s'| > 0 {
        assert le(key(s[|s'| - 1]), key(s[|s| - 1]));
      }
      assert s' + [s[|s| - 1]] == s;
    }
  }

  /** Appending one element to a sorted list and sorting is inserting that element. */
  lemma AppendThenSort<T, K>(s: seq<T>, x: T, key: T -> K, le: (K, K) -> bool)
    requires Sorted(s, key, le)
    ensures SortBy(s + [x], key, le) == Insert(s, x, key, le)
  {
    assert (s + [x])[..|s + [x]| - 1] == s;
    SortBySortedIsIdentity(s, key, le);
  }
}
