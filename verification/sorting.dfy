/**
 * `Array.prototype.sort` with a comparator. The engine's sort is stable, so
 * its result is fully determined: it is what insertion sort produces when
 * each element is placed after every element already placed that is not
 * greater than it. `le(a, b)` stands for `compare(a, b) <= 0`.
 */
module Sorting {

  /** A comparator that orders every pair consistently (ties allowed). */
  ghost predicate TotalPreorder<T(!new)>(le: (T, T) -> bool) {
    && (forall a, b :: le(a, b) || le(b, a))
    && (forall a, b, c :: le(a, b) && le(b, c) ==> le(a, c))
  }

  predicate Sorted<T>(s: seq<T>, le: (T, T) -> bool) {
    forall i, j :: 0 <= i < j < |s| ==> le(s[i], s[j])
  }

  /** Place `p` into `t` after the last element that is not greater than it. */
  function Insert<T>(t: seq<T>, p: T, le: (T, T) -> bool): seq<T> {
    if t == [] then [p]
    else if le(t[|t| - 1], p) then t + [p]
    else Insert(t[..|t| - 1], p, le) + [t[|t| - 1]]
  }

  /** The stable sort of `s` under `le`. */
  function SortBy<T>(s: seq<T>, le: (T, T) -> bool): seq<T> {
    if s == [] then [] else Insert(SortBy(s[..|s| - 1], le), s[|s| - 1], le)
  }

  /** The elements of `s` tied with `x` (each `le` the other), in their order in `s`. */
  function Tied<T>(s: seq<T>, x: T, le: (T, T) -> bool): seq<T> {
    if s == [] then []
    else Tied(s[..|s| - 1], x, le) + (if le(s[|s| - 1], x) && le(x, s[|s| - 1]) then [s[|s| - 1]] else [])
  }

  lemma {:induction false} InsertPermutation<T>(t: seq<T>, p: T, le: (T, T) -> bool)
    ensures multiset(Insert(t, p, le)) == multiset(t) + multiset{p}
  {
    if t != [] && !le(t[|t| - 1], p) {
      InsertPermutation(t[..|t| - 1], p, le);
      assert t == t[..|t| - 1] + [t[|t| - 1]];
    }
  }

  /** Sorting only reorders: the result is a permutation of the input. */
  lemma {:induction false} SortPermutation<T>(s: seq<T>, le: (T, T) -> bool)
    ensures multiset(SortBy(s, le)) == multiset(s)
    ensures |SortBy(s, le)| == |s|
  {
    if s != [] {
      SortPermutation(s[..|s| - 1], le);
      InsertPermutation(SortBy(s[..|s| - 1], le), s[|s| - 1], le);
      assert s == s[..|s| - 1] + [s[|s| - 1]];
    }
    assert |multiset(SortBy(s, le))| == |multiset(s)|;
  }

  lemma {:induction false} InsertSorted<T(!new)>(t: seq<T>, p: T, le: (T, T) -> bool)
    requires TotalPreorder(le) && Sorted(t, le)
    ensures Sorted(Insert(t, p, le), le)
  {
    if t != [] && !le(t[|t| - 1], p) {
      var last := t[|t| - 1];
      var u := Insert(t[..|t| - 1], p, le);
      InsertSorted(t[..|t| - 1], p, le);
      InsertPermutation(t[..|t| - 1], p, le);
      forall i | 0 <= i < |u| ensures le(u[i], last) {
        assert u[i] in multiset(u);
        if u[i] != p {
          assert u[i] in multiset(t[..|t| - 1]);
          assert u[i] in t[..|t| - 1];
        }
      }
    }
  }

  /** The result of sorting is in order. */
  lemma {:induction false} SortSorted<T(!new)>(s: seq<T>, le: (T, T) -> bool)
    requires TotalPreorder(le)
    ensures Sorted(SortBy(s, le), le)
  {
    if s != [] {
      SortSorted(s[..|s| - 1], le);
      InsertSorted(SortBy(s[..|s| - 1], le), s[|s| - 1], le);
    }
  }

  lemma {:induction false} InsertTied<T(!new)>(t: seq<T>, p: T, x: T, le: (T, T) -> bool)
    requires TotalPreorder(le) && Sorted(t, le)
    ensures Tied(Insert(t, p, le), x, le) == Tied(t, x, le) + Tied([p], x, le)
  {
    if t == [] {
      assert Insert(t, p, le) == [p];
    } else if le(t[|t| - 1], p) {
      assert (t + [p])[..|t|] == t;
    } else {
      var t', last := t[..|t| - 1], t[|t| - 1];
      InsertTied(t', p, x, le);
      var u := Insert(t', p, le);
      assert (u + [last])[..|u|] == u;
      assert t == t' + [last];
      assert !(le(last, x) && le(x, last) && le(p, x) && le(x, p));
    }
  }

  /**
   * Sorting is stable: for every element `x`, the elements tied with `x`
   * come out in the order in which they went in.
   */
  lemma {:induction false} SortStable<T(!new)>(s: seq<T>, x: T, le: (T, T) -> bool)
    requires TotalPreorder(le)
    ensures Tied(SortBy(s, le), x, le) == Tied(s, x, le)
  {
    if s != [] {
      var s', last := s[..|s| - 1], s[|s| - 1];
      SortStable(s', x, le);
      SortSorted(s', le);
      InsertTied(SortBy(s', le), last, x, le);
    }
  }

  /** Sorting what is already sorted changes nothing. */
  lemma {:induction false} SortOfSorted<T>(s: seq<T>, le: (T, T) -> bool)
    requires Sorted(s, le)
    ensures SortBy(s, le) == s
  {
    if s != [] {
      var s' := s[..|s| - 1];
      SortOfSorted(s', le);
      assert s == s' + [s[|s| - 1]];
    }
  }

  /**
   * Where `Insert` puts the new element: after exactly those elements of
   * the sorted `t` that are not greater than it.
   */
  lemma {:induction false} InsertPlacement<T(!new)>(t: seq<T>, p: T, le: (T, T) -> bool) returns (k: nat)
    requires TotalPreorder(le) && Sorted(t, le)
    ensures k <= |t| && Insert(t, p, le) == t[..k] + [p] + t[k..]
    ensures forall i :: 0 <= i < k ==> le(t[i], p)
    ensures forall i :: k <= i < |t| ==> !le(t[i], p)
  {
    if t == [] {
      k := 0;
    } else if le(t[|t| - 1], p) {
      k := |t|;
    } else {
      var t' := t[..|t| - 1];
      k := InsertPlacement(t', p, le);
      assert t[..k] == t'[..k];
      assert t[k..] == t'[k..] + [t[|t| - 1]];
      forall i | k <= i < |t| ensures !le(t[i], p) {
        if i < |t| - 1 {
          assert t[i] == t'[i];
        }
      }
    }
  }

  /** Appending one element to a sorted sequence and sorting inserts that element. */
  lemma AppendThenSort<T>(s: seq<T>, p: T, le: (T, T) -> bool)
    requires Sorted(s, le)
    ensures SortBy(s + [p], le) == Insert(s, p, le)
  {
    assert (s + [p])[..|s|] == s;
    SortOfSorted(s, le);
  }

  /** `i` is the first position holding a least element of `s`. */
  ghost predicate IsFirstLeast<T>(s: seq<T>, i: int, le: (T, T) -> bool) {
    && 0 <= i < |s|
    && (forall j :: 0 <= j < |s| ==> le(s[i], s[j]))
    && (forall j :: 0 <= j < i ==> !le(s[j], s[i]))
  }

  lemma {:induction false} InsertHead<T(!new)>(t: seq<T>, p: T, le: (T, T) -> bool)
    requires TotalPreorder(le) && Sorted(t, le) && t != []
    ensures Insert(t, p, le)[0] == if le(t[0], p) then t[0] else p
  {
    if !le(t[|t| - 1], p) && |t| > 1 {
      InsertHead(t[..|t| - 1], p, le);
    }
  }

  lemma FirstLeastKept<T>(s: seq<T>, p: T, i: nat, le: (T, T) -> bool)
    requires IsFirstLeast(s, i, le) && le(s[i], p)
    ensures IsFirstLeast(s + [p], i, le)
  {
  }

  lemma FirstLeastNew<T(!new)>(s: seq<T>, p: T, i: nat, le: (T, T) -> bool)
    requires TotalPreorder(le) && IsFirstLeast(s, i, le) && !le(s[i], p)
    ensures IsFirstLeast(s + [p], |s|, le)
  {
    var s1 := s + [p];
    forall j | 0 <= j < |s1| ensures le(p, s1[j]) {
      if j < |s| {
        assert le(s[i], s[j]);
      }
    }
    forall j | 0 <= j < |s| ensures !le(s1[j], p) {
      assert le(s[i], s[j]);
    }
  }

  /** The head of the stable sort is the first least element of the input. */
  lemma {:induction false} SortHead<T(!new)>(s: seq<T>, le: (T, T) -> bool) returns (i: nat)
    requires TotalPreorder(le) && s != []
    ensures IsFirstLeast(s, i, le) && SortBy(s, le)[0] == s[i]
  {
    var s', p := s[..|s| - 1], s[|s| - 1];
    assert s == s' + [p];
    if s' == [] {
      i := 0;
    } else {
      var i' := SortHead(s', le);
      SortSorted(s', le);
      SortPermutation(s', le);
      InsertHead(SortBy(s', le), p, le);
      if le(s'[i'], p) {
        i := i';
        FirstLeastKept(s', p, i', le);
      } else {
        i := |s| - 1;
        FirstLeastNew(s', p, i', le);
      }
    }
  }
}
