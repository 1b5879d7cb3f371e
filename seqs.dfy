/** Reference definitions over sequences that the collection utilities are
    specified by: the left fold, order-preserving selection, sorting under a
    total order, and collapsing runs of equal adjacent elements. */
module Seqs {

  /** Left fold: Foldl(f, a, [x1, ..., xn]) == f(...f(f(a, x1), x2)..., xn).
      It peels the last element, which is the order in which a loop builds it. */
  function Foldl<A, X>(f: (A, X) -> A, a: A, s: seq<X>): A
    decreases |s|
  {
    if s == [] then a else f(Foldl(f, a, s[..|s| - 1]), s[|s| - 1])
  }

  /** The fold consumes the first element first. */
  lemma {:induction false} FoldlCons<A, X>(f: (A, X) -> A, a: A, x: X, s: seq<X>)
    ensures Foldl(f, a, [x] + s) == Foldl(f, f(a, x), s)
    decreases |s|
  {
    var xs := [x] + s;
    if s == [] {
      assert xs[..|xs| - 1] == [];
    } else {
      assert xs[..|xs| - 1] == [x] + s[..|s| - 1];
      FoldlCons(f, a, x, s[..|s| - 1]);
    }
  }

  /** Folding a concatenation folds the second part from where the first stopped. */
  lemma {:induction false} FoldlAppend<A, X>(f: (A, X) -> A, a: A, s: seq<X>, t: seq<X>)
    ensures Foldl(f, a, s + t) == Foldl(f, Foldl(f, a, s), t)
    decreases |t|
  {
    if t == [] {
      assert s + t == s;
    } else {
      assert (s + t)[..|s + t| - 1] == s + t[..|t| - 1];
      FoldlAppend(f, a, s, t[..|t| - 1]);
    }
  }

  /** The elements of `s` that satisfy `p`, in their original order. */
  function Select<T>(s: seq<T>, p: T -> bool): (r: seq<T>)
    ensures |r| <= |s|
    ensures forall i :: 0 <= i < |r| ==> r[i] in s && p(r[i])
    ensures forall i :: 0 <= i < |s| && p(s[i]) ==> s[i] in r
    decreases |s|
  {
    if s == [] then []
    else
      var r := Select(s[..|s| - 1], p);
      if p(s[|s| - 1]) then r + [s[|s| - 1]] else r
  }

  /** The positions of `s` whose element satisfies `p`, in increasing order. */
  function SelectedPositions<T>(s: seq<T>, p: T -> bool): (r: seq<nat>)
    ensures forall k :: 0 <= k < |r| ==> r[k] < |s| && p(s[r[k]])
    ensures forall k, l :: 0 <= k < l < |r| ==> r[k] < r[l]
    ensures forall i :: 0 <= i < |s| && p(s[i]) ==> i in r
    decreases |s|
  {
    if s == [] then []
    else
      var r := SelectedPositions(s[..|s| - 1], p);
      if p(s[|s| - 1]) then r + [|s| - 1] else r
  }

  /** Select keeps exactly the elements at the positions where `p` holds,
      in their original order: an order-preserving subsequence. */
  lemma {:induction false} SelectAtPositions<T>(s: seq<T>, p: T -> bool)
    ensures |Select(s, p)| == |SelectedPositions(s, p)|
    ensures forall k :: 0 <= k < |Select(s, p)| ==> Select(s, p)[k] == s[SelectedPositions(s, p)[k]]
    decreases |s|
  {
    if s != [] {
      SelectAtPositions(s[..|s| - 1], p);
    }
  }

  /** Selecting by two complementary tests splits the elements between the two results. */
  lemma {:induction false} SelectPartition<T>(s: seq<T>, p: T -> bool, q: T -> bool)
    requires forall i :: 0 <= i < |s| ==> (p(s[i]) <==> !q(s[i]))
    ensures multiset(Select(s, p)) + multiset(Select(s, q)) == multiset(s)
    decreases |s|
  {
    if s != [] {
      var s' := s[..|s| - 1];
      var x := s[|s| - 1];
      SelectPartition(s', p, q);
      assert s == s' + [x];
      assert multiset(s) == multiset(s') + multiset{x};
      if p(x) {
        assert Select(s, p) == Select(s', p) + [x];
        assert Select(s, q) == Select(s', q);
      } else {
        assert Select(s, p) == Select(s', p);
        assert Select(s, q) == Select(s', q) + [x];
      }
    }
  }

  /** `le` is a total order: reflexive, antisymmetric, transitive and total. */
  ghost predicate TotalOrder<T(!new)>(le: (T, T) -> bool)
  {
    && (forall x :: le(x, x))
    && (forall x, y :: le(x, y) && le(y, x) ==> x == y)
    && (forall x, y, z :: le(x, y) && le(y, z) ==> le(x, z))
    && (forall x, y :: le(x, y) || le(y, x))
  }

  ghost predicate Sorted<T>(s: seq<T>, le: (T, T) -> bool)
  {
    forall i, j :: 0 <= i < j < |s| ==> le(s[i], s[j])
  }

  /** Puts `x` before the first element of `s` that it does not follow. */
  function Insert<T(!new)>(x: T, s: seq<T>, le: (T, T) -> bool): (r: seq<T>)
    requires TotalOrder(le) && Sorted(s, le)
    ensures multiset(r) == multiset(s) + multiset{x}
    ensures Sorted(r, le)
    ensures r != [] && (r[0] == x || (s != [] && r[0] == s[0]))
    decreases |s|
  {
    if s == [] then [x]
    else if le(x, s[0]) then [x] + s
    else
      var t := Insert(x, s[1..], le);
      assert s == [s[0]] + s[1..];
      assert le(s[0], t[0]);
      assert forall j :: 0 <= j < |t| ==> le(t[0], t[j]);
      [s[0]] + t
  }

  /** `s` sorted under `le` (an insertion sort). */
  function SortBy<T(!new)>(s: seq<T>, le: (T, T) -> bool): (r: seq<T>)
    requires TotalOrder(le)
    ensures multiset(r) == multiset(s)
    ensures Sorted(r, le)
    decreases |s|
  {
    if s == [] then []
    else
      assert s == [s[0]] + s[1..];
      Insert(s[0], SortBy(s[1..], le), le)
  }

  /** `s` with every run of equal adjacent elements collapsed to one. */
  function Dedup<T(==)>(s: seq<T>): (r: seq<T>)
    ensures forall i :: 0 <= i < |r| ==> r[i] in s
    ensures forall i :: 0 <= i < |s| ==> s[i] in r
    ensures forall i :: 0 <= i < |r| - 1 ==> r[i] != r[i + 1]
    ensures |r| <= |s|
    ensures s != [] ==> r != [] && r[|r| - 1] == s[|s| - 1]
    decreases |s|
  {
    if s == [] then []
    else
      var s' := s[..|s| - 1];
      var r' := Dedup(s');
      if |s| >= 2 && s[|s| - 1] == s[|s| - 2] then r'
      else r' + [s[|s| - 1]]
  }

  /** Collapsing the runs of a sorted sequence leaves it sorted. */
  lemma {:induction false} DedupSorted<T(!new)>(s: seq<T>, le: (T, T) -> bool)
    requires TotalOrder(le) && Sorted(s, le)
    ensures Sorted(Dedup(s), le)
    decreases |s|
  {
    if s != [] {
      var s' := s[..|s| - 1];
      DedupSorted(s', le);
      var r' := Dedup(s');
      forall i | 0 <= i < |r'|
        ensures le(r'[i], s[|s| - 1])
      {
        assert r'[i] in s';
      }
    }
  }

  /** In a sorted sequence with collapsed runs, no element occurs twice. */
  lemma DedupSortedDistinct<T(!new)>(s: seq<T>, le: (T, T) -> bool)
    requires TotalOrder(le) && Sorted(s, le)
    ensures forall i, j :: 0 <= i < j < |Dedup(s)| ==> Dedup(s)[i] != Dedup(s)[j]
  {
    var r := Dedup(s);
    DedupSorted(s, le);
    forall i, j | 0 <= i < j < |r|
      ensures r[i] != r[j]
    {
      assert le(r[i], r[i + 1]) && r[i] != r[i + 1];
      assert le(r[i + 1], r[j]);
    }
  }
}
