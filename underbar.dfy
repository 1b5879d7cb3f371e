/** The collection utilities of src/underbar.js: accessors, the `each`
    iteration primitive and the operations built on it, sort-then-deduplicate,
    in-place object merging, and the `once` and `memoize` call wrappers.

    Iterators and predicates are pure function values. Every operation that
    the source builds on `each` passes it a callback that updates captured
    local variables; here those locals are the state that the callback
    threads from one visit to the next. */
module Underbar {
  import opened Js
  import opened Seqs

  // ---------------------------------------------------------------------------
  // Accessors
  // ---------------------------------------------------------------------------

  /** `_.identity`: returns whatever it is given. */
  function Identity<T>(val: T): (r: T)
    ensures r == val
  {
    val
  }

  /** `_.first(array)`, with `n` undefined: `array[0]`, undefined on an empty array. */
  function First<T>(xs: seq<T>): (r: Option<T>)
    ensures r.None? <==> xs == []
    ensures r.Some? ==> r.value == xs[0]
  {
    if xs == [] then None else Option.Some(xs[0])
  }

  /** How `Array.prototype.slice` turns an index argument into a position:
      a negative index counts back from the end, and both kinds are clamped
      to the array. */
  function SlicePosition(i: int, len: nat): (r: nat)
    ensures r <= len
    ensures 0 <= i ==> r == if i < len then i else len
    ensures i < 0 ==> r == if len + i < 0 then 0 else len + i
  {
    if i < 0 then (if len + i < 0 then 0 else len + i)
    else if i < len then i
    else len
  }

  /** `array.slice(begin, end)`. */
  function Slice<T>(xs: seq<T>, begin: int, end: int): (r: seq<T>)
    ensures var b, e := SlicePosition(begin, |xs|), SlicePosition(end, |xs|);
      && |r| == (if b < e then e - b else 0)
      && forall k :: 0 <= k < |r| ==> r[k] == xs[b + k]
  {
    var b, e := SlicePosition(begin, |xs|), SlicePosition(end, |xs|);
    if b < e then xs[b..e] else []
  }

  /** `_.first(array, n)`: `array.slice(0, n)`. A negative `n` keeps all but
      the last `-n` elements, as `slice` does. */
  function FirstN<T>(xs: seq<T>, n: int): (r: seq<T>)
    ensures 0 <= n <= |xs| ==> r == xs[..n]
    ensures |xs| < n ==> r == xs
    ensures n < 0 ==> r == xs[..if |xs| + n < 0 then 0 else |xs| + n]
  {
    Slice(xs, 0, n)
  }

  /** `_.last(array)`, with `n` undefined: `undefined > array.length` is
      false, so this is `array[array.length - 1]`, undefined on an empty array. */
  function Last<T>(xs: seq<T>): (r: Option<T>)
    ensures r.None? <==> xs == []
    ensures r.Some? ==> r.value == xs[|xs| - 1]
  {
    if xs == [] then None else Option.Some(xs[|xs| - 1])
  }

  /** `_.last(array, n)`: the whole array when `n` exceeds its length,
      otherwise `array.slice(array.length - n)`. */
  function LastN<T>(xs: seq<T>, n: int): (r: seq<T>)
    ensures |xs| < n ==> r == xs
    ensures 0 <= n <= |xs| ==> r == xs[|xs| - n..]
    ensures n < 0 ==> r == []
  {
    if n > |xs| then xs else Slice(xs, |xs| - n, |xs|)
  }

  /** The first `n` elements and the last `|xs| - n` elements put `xs` back together. */
  lemma FirstNLastNSplit<T>(xs: seq<T>, n: int)
    requires 0 <= n <= |xs|
    ensures FirstN(xs, n) + LastN(xs, |xs| - n) == xs
    ensures |FirstN(xs, n)| == n && |LastN(xs, |xs| - n)| == |xs| - n
  {
    assert xs[..n] + xs[n..] == xs;
  }

  /** The single-element accessors agree with the counted ones for one element. */
  lemma FirstLastOne<T>(xs: seq<T>)
    ensures FirstN(xs, 1) == (if First(xs).Some? then [First(xs).value] else [])
    ensures LastN(xs, 1) == (if Last(xs).Some? then [Last(xs).value] else [])
  {
  }

  // ---------------------------------------------------------------------------
  // The iteration primitive
  // ---------------------------------------------------------------------------

  /** What `each` passes as the second argument of its iterator: an array
      index or an object's property name. */
  datatype Key = Index(i: nat) | Name(name: string)

  /** One call of the iterator: the element and its key. */
  datatype Visit<V> = Visit(value: V, key: Key)

  /** What `each` is given, told apart as `Array.isArray` and
      `Object.prototype.toString` tell it apart. An object is listed as its
      own enumerable properties in the order `for...in` enumerates them; the
      model does not fix that order. Anything else is visited not at all. */
  datatype Collection<V> =
    | Arr(items: seq<V>)
    | Obj(entries: seq<(string, V)>)
    | Other

  /** The calls `each` makes, in order: ascending index over an array,
      enumeration order over an object, none otherwise. */
  function Visits<V>(c: Collection<V>): (w: seq<Visit<V>>)
    ensures c.Arr? ==> |w| == |c.items| && forall i :: 0 <= i < |w| ==> w[i] == Visit(c.items[i], Index(i))
    ensures c.Obj? ==> |w| == |c.entries| && forall i :: 0 <= i < |w| ==> w[i] == Visit(c.entries[i].1, Name(c.entries[i].0))
    ensures c.Other? ==> w == []
  {
    match c
    case Arr(items) => seq(|items|, i requires 0 <= i < |items| => Visit(items[i], Index(i)))
    case Obj(entries) => seq(|entries|, i requires 0 <= i < |entries| => Visit(entries[i].1, Name(entries[i].0)))
    case Other => []
  }

  /** The elements of a sequence of visits. */
  function ValuesOf<V>(w: seq<Visit<V>>): (vs: seq<V>)
    ensures |vs| == |w|
    ensures forall i :: 0 <= i < |w| ==> vs[i] == w[i].value
  {
    seq(|w|, i requires 0 <= i < |w| => w[i].value)
  }

  /** The elements `each` hands to its iterator, in order: an array's items,
      an object's property values, nothing for anything else. */
  function Values<V>(c: Collection<V>): (vs: seq<V>)
    ensures c.Arr? ==> vs == c.items
    ensures c.Obj? ==> |vs| == |c.entries| && forall i :: 0 <= i < |vs| ==> vs[i] == c.entries[i].1
    ensures c.Other? ==> vs == []
  {
    ValuesOf(Visits(c))
  }

  /** An object's own properties have distinct names. */
  ghost predicate DistinctNames<V>(entries: seq<(string, V)>)
  {
    forall i, j :: 0 <= i < j < |entries| ==> entries[i].0 != entries[j].0
  }

  /** The object with these properties, as a mapping from name to value. */
  function Properties<V>(entries: seq<(string, V)>): map<string, V>
    requires DistinctNames(entries)
  {
    map i | 0 <= i < |entries| :: entries[i].0 := entries[i].1
  }

  /** Over an object, `each` visits every property exactly once, with its value. */
  lemma EachVisitsEveryPropertyOnce<V>(entries: seq<(string, V)>)
    requires DistinctNames(entries)
    ensures forall i :: 0 <= i < |Visits(Obj(entries))| ==>
      var v := Visits(Obj(entries))[i];
      v.key.Name? && v.key.name in Properties(entries) && Properties(entries)[v.key.name] == v.value
    ensures forall name :: name in Properties(entries) ==>
      exists i :: 0 <= i < |Visits(Obj(entries))| && Visits(Obj(entries))[i].key == Name(name)
    ensures forall i, j :: 0 <= i < j < |Visits(Obj(entries))| ==> Visits(Obj(entries))[i].key != Visits(Obj(entries))[j].key
  {
    var m := Properties(entries);
    var w := Visits(Obj(entries));
    forall i | 0 <= i < |w|
      ensures w[i].key.name in m && m[w[i].key.name] == w[i].value
    {
      assert entries[i].0 in m;
    }
    forall name | name in m
      ensures exists i :: 0 <= i < |w| && w[i].key == Name(name)
    {
      var i :| 0 <= i < |entries| && entries[i].0 == name;
      assert w[i].key == Name(name);
    }
  }

  /** `_.each`: calls the iterator once per visit, in order. `iter` maps
      the callback's captured state and one visit to the new state. */
  method Each<S, V>(c: Collection<V>, iter: (S, Visit<V>) -> S, init: S) returns (s: S)
    ensures s == Foldl(iter, init, Visits(c))
  {
    var w := Visits(c);
    s := init;
    match c {
      case Arr(items) =>
        for i := 0 to |items|
          invariant s == Foldl(iter, init, w[..i])
        {
          assert w[..i + 1][..i] == w[..i];
          s := iter(s, Visit(items[i], Index(i)));
        }
        assert w[..|items|] == w;
      case Obj(entries) =>
        for i := 0 to |entries|
          invariant s == Foldl(iter, init, w[..i])
        {
          assert w[..i + 1][..i] == w[..i];
          s := iter(s, Visit(entries[i].1, Name(entries[i].0)));
        }
        assert w[..|entries|] == w;
      case Other =>
    }
  }

  /** Dropping the last visit drops the last element. */
  lemma ValuesOfPrefix<V>(w: seq<Visit<V>>)
    requires w != []
    ensures ValuesOf(w) == ValuesOf(w[..|w| - 1]) + [w[|w| - 1].value]
  {
  }

  // ---------------------------------------------------------------------------
  // Search and selection
  // ---------------------------------------------------------------------------

  /** The callback of `_.indexOf`: record the index of a match while `result`
      is still -1. An array's keys are always indices. */
  function IndexOfStep<V(==,!new)>(target: V): (step: (int, Visit<V>) -> int)
    ensures forall result, item :: result != -1 ==> step(result, item) == result
    ensures forall x, i: nat :: step(-1, Visit(x, Index(i))) == if x == target then i else -1
  {
    (result: int, item: Visit<V>) =>
      if item.value == target && result == -1 && item.key.Index? then item.key.i else result
  }

  lemma {:induction false} IndexOfFold<V(!new)>(xs: seq<V>, target: V)
    ensures var r := Foldl(IndexOfStep(target), -1, Visits(Arr(xs)));
      && -1 <= r < |xs|
      && (r == -1 <==> target !in xs)
      && (r != -1 ==> xs[r] == target && target !in xs[..r])
    decreases |xs|
  {
    if xs != [] {
      var xs' := xs[..|xs| - 1];
      IndexOfFold(xs', target);
      assert Visits(Arr(xs))[..|xs| - 1] == Visits(Arr(xs'));
      assert xs == xs' + [xs[|xs| - 1]];
      var r' := Foldl(IndexOfStep(target), -1, Visits(Arr(xs')));
      if r' != -1 {
        assert xs[..r'] == xs'[..r'];
      }
    }
  }

  /** `_.indexOf`: the first position holding `target`, or -1 when there is none. */
  method IndexOf<V(==,!new)>(xs: seq<V>, target: V) returns (r: int)
    ensures -1 <= r < |xs|
    ensures r == -1 <==> target !in xs
    ensures r != -1 ==> xs[r] == target && forall i :: 0 <= i < r ==> xs[i] != target
  {
    r := Each(Arr(xs), IndexOfStep(target), -1);
    IndexOfFold(xs, target);
    if r != -1 {
      assert forall i :: 0 <= i < r ==> xs[i] == xs[..r][i];
    }
  }

  /** The test that `_.filter` applies: the predicate's result is truthy. */
  function Passes<V>(test: V -> JsValue): V -> bool
  {
    x => Truthy(test(x))
  }

  /** The callback of `_.filter`: push the element when it passes the test. */
  function FilterStep<V(!new)>(test: V -> JsValue): (step: (seq<V>, Visit<V>) -> seq<V>)
    ensures forall filtered, element ::
      var r := step(filtered, element);
      && |filtered| <= |r| <= |filtered| + 1 && r[..|filtered|] == filtered
      && (|r| == |filtered| + 1 <==> Truthy(test(element.value)))
      && (|r| == |filtered| || r[|filtered|] == element.value)
  {
    (filtered: seq<V>, element: Visit<V>) =>
      if Truthy(test(element.value)) then filtered + [element.value] else filtered
  }

  lemma {:induction false} FilterFold<V(!new)>(test: V -> JsValue, w: seq<Visit<V>>)
    ensures Foldl(FilterStep(test), [], w) == Select(ValuesOf(w), Passes(test))
    decreases |w|
  {
    if w != [] {
      FilterFold(test, w[..|w| - 1]);
      ValuesOfPrefix(w);
      assert ValuesOf(w)[..|w| - 1] == ValuesOf(w[..|w| - 1]);
    }
  }

  /** `_.filter`: the elements whose test is truthy, in iteration order. */
  method Filter<V(!new)>(c: Collection<V>, test: V -> JsValue) returns (r: seq<V>)
    ensures r == Select(Values(c), Passes(test))
    ensures forall i :: 0 <= i < |r| ==> r[i] in Values(c) && Truthy(test(r[i]))
    ensures forall i :: 0 <= i < |Values(c)| && Truthy(test(Values(c)[i])) ==> Values(c)[i] in r
  {
    r := Each(c, FilterStep(test), []);
    FilterFold(test, Visits(c));
  }

  /** The test that `_.reject` hands to `_.filter`: `test(element) === false`. */
  function StrictlyFalse<V(!new)>(test: V -> JsValue): (passes: V -> JsValue)
    ensures forall element :: passes(element).Bool?
    ensures forall element :: Truthy(passes(element)) <==> test(element) == Bool(false)
  {
    element => Bool(test(element) == Bool(false))
  }

  /** `_.reject`: the elements whose test returns exactly `false`, in
      iteration order. An element whose test returns another falsy value
      (0, "", null, undefined) is in neither the filter nor the reject result. */
  method Reject<V(!new)>(c: Collection<V>, test: V -> JsValue) returns (r: seq<V>)
    ensures r == Select(Values(c), Passes(StrictlyFalse(test)))
    ensures forall i :: 0 <= i < |r| ==> r[i] in Values(c) && test(r[i]) == Bool(false)
    ensures forall i :: 0 <= i < |Values(c)| && test(Values(c)[i]) == Bool(false) ==> Values(c)[i] in r
  {
    r := Filter(c, StrictlyFalse(test));
  }

  /** When the test only ever returns booleans, filter and reject split the
      elements between them. */
  lemma FilterRejectPartition<V(!new)>(vs: seq<V>, test: V -> JsValue)
    requires forall i :: 0 <= i < |vs| ==> test(vs[i]).Bool?
    ensures multiset(Select(vs, Passes(test))) + multiset(Select(vs, Passes(StrictlyFalse(test)))) == multiset(vs)
  {
    SelectPartition(vs, Passes(test), Passes(StrictlyFalse(test)));
  }

  /** An element whose test returns a falsy value other than `false`
      (0, "", null, undefined) is kept by neither filter nor reject. */
  lemma FalsyButNotFalseInNeither<V(!new)>(vs: seq<V>, test: V -> JsValue, x: V)
    requires !Truthy(test(x)) && test(x) != Bool(false)
    ensures x !in Select(vs, Passes(test))
    ensures x !in Select(vs, Passes(StrictlyFalse(test)))
  {
  }

  // ---------------------------------------------------------------------------
  // Deduplication
  // ---------------------------------------------------------------------------

  /** `array.sort()`: sorts the array in place. The host's default
      comparison is abstracted into the total order `le`. */
  method SortInPlace<T(!new)>(a: array<T>, le: (T, T) -> bool)
    requires TotalOrder(le)
    modifies a
    ensures Sorted(a[..], le) && multiset(a[..]) == multiset(old(a[..]))
  {
    var sorted := SortBy(a[..], le);
    assert |sorted| == |multiset(sorted)| == a.Length;
    for i := 0 to a.Length
      invariant forall k :: 0 <= k < i ==> a[k] == sorted[k]
    {
      a[i] := sorted[i];
    }
    assert a[..] == sorted;
  }

  /** `_.uniq`: sorts the array in place, then keeps each element that
      differs from its predecessor. */
  method Uniq<T(==,!new)>(a: array<T>, le: (T, T) -> bool) returns (r: seq<T>)
    requires TotalOrder(le)
    modifies a
    ensures Sorted(a[..], le) && multiset(a[..]) == multiset(old(a[..]))
    ensures r == Dedup(a[..])
    ensures forall x :: x in r <==> x in old(a[..])
    ensures forall i, j :: 0 <= i < j < |r| ==> r[i] != r[j]
    ensures Sorted(r, le)
  {
    SortInPlace(a, le);
    r := [];
    for i := 0 to a.Length
      invariant r == Dedup(a[..i])
    {
      ghost var prefix := a[..i + 1];
      assert prefix[..i] == a[..i] && prefix[i] == a[i];
      assert i > 0 ==> prefix[i - 1] == a[i - 1];
      if i == 0 || a[i] != a[i - 1] {
        r := r + [a[i]];
      }
    }
    assert a[..a.Length] == a[..];
    DedupOfSortedPermutation(old(a[..]), a[..], le);
  }

  /** Collapsing the runs of a sorted permutation of `s` leaves every distinct
      element of `s` exactly once, in order. */
  lemma DedupOfSortedPermutation<T(!new)>(s: seq<T>, t: seq<T>, le: (T, T) -> bool)
    requires TotalOrder(le) && Sorted(t, le) && multiset(t) == multiset(s)
    ensures forall x :: x in Dedup(t) <==> x in s
    ensures forall i, j :: 0 <= i < j < |Dedup(t)| ==> Dedup(t)[i] != Dedup(t)[j]
    ensures Sorted(Dedup(t), le)
  {
    var r := Dedup(t);
    DedupSorted(t, le);
    DedupSortedDistinct(t, le);
    forall i | 0 <= i < |r|
      ensures r[i] in s
    {
      assert r[i] in multiset(t);
    }
    forall i | 0 <= i < |s|
      ensures s[i] in r
    {
      assert s[i] in multiset(t);
    }
  }

  // ---------------------------------------------------------------------------
  // Transformation and aggregation
  // ---------------------------------------------------------------------------

  /** The callback of `_.map`: push the iterator's result. */
  function MapStep<V(!new), R(!new)>(iter: V -> R): (step: (seq<R>, Visit<V>) -> seq<R>)
    ensures forall mapped, element ::
      var r := step(mapped, element);
      |r| == |mapped| + 1 && r[..|mapped|] == mapped && r[|mapped|] == iter(element.value)
  {
    (mapped: seq<R>, element: Visit<V>) => mapped + [iter(element.value)]
  }

  lemma {:induction false} MapFold<V(!new), R(!new)>(iter: V -> R, w: seq<Visit<V>>)
    ensures |Foldl(MapStep(iter), [], w)| == |w|
    ensures forall i :: 0 <= i < |w| ==> Foldl(MapStep(iter), [], w)[i] == iter(w[i].value)
    decreases |w|
  {
    if w != [] {
      MapFold(iter, w[..|w| - 1]);
    }
  }

  /** `_.map`: the iterator's result for each element, in iteration order. */
  method Map<V(!new), R(!new)>(c: Collection<V>, iter: V -> R) returns (r: seq<R>)
    ensures |r| == |Values(c)|
    ensures forall i :: 0 <= i < |r| ==> r[i] == iter(Values(c)[i])
  {
    r := Each(c, MapStep(iter), []);
    MapFold(iter, Visits(c));
  }

  /** `item[key]` on an object: undefined when it has no such property. */
  function Property<W>(item: map<string, W>, key: string): (r: Option<W>)
    ensures r.Some? <==> key in item
    ensures r.Some? ==> r.value == item[key]
  {
    if key in item then Option.Some(item[key]) else None
  }

  /** `_.pluck`: `_.map` with the iterator `item => item[key]`. */
  method Pluck<W(!new)>(c: Collection<map<string, W>>, key: string) returns (r: seq<Option<W>>)
    ensures |r| == |Values(c)|
    ensures forall i :: 0 <= i < |r| ==>
      (r[i].Some? <==> key in Values(c)[i]) && (r[i].Some? ==> r[i].value == Values(c)[i][key])
  {
    r := Map(c, item => Property(item, key));
  }

  /** The callback of `_.reduce` given an accumulator: `initializing` is
      false throughout, so every element goes through the iter. */
  function ReduceStep<A(!new), V(!new)>(iter: (A, V) -> A): (step: (A, Visit<V>) -> A)
    ensures forall accumulator, x, key :: step(accumulator, Visit(x, key)) == iter(accumulator, x)
  {
    (accumulator: A, element: Visit<V>) => iter(accumulator, element.value)
  }

  lemma {:induction false} ReduceFold<A(!new), V(!new)>(iter: (A, V) -> A, accumulator: A, w: seq<Visit<V>>)
    ensures Foldl(ReduceStep(iter), accumulator, w) == Foldl(iter, accumulator, ValuesOf(w))
    decreases |w|
  {
    if w != [] {
      ReduceFold(iter, accumulator, w[..|w| - 1]);
      ValuesOfPrefix(w);
      assert ValuesOf(w)[..|w| - 1] == ValuesOf(w[..|w| - 1]);
    }
  }

  /** `_.reduce(collection, iter, accumulator)`: the left fold of the
      iterator over every element, starting from the accumulator. */
  method Reduce<A(!new), V(!new)>(c: Collection<V>, iter: (A, V) -> A, accumulator: A) returns (r: A)
    ensures r == Foldl(iter, accumulator, Values(c))
  {
    r := Each(c, ReduceStep(iter), accumulator);
    ReduceFold(iter, accumulator, Visits(c));
  }

  /** The callback of `_.reduce` called without an accumulator. `None` is the
      state in which `initializing` is still true and the accumulator undefined;
      the first element then becomes the accumulator. */
  function SeedStep<V(!new)>(iter: (V, V) -> V): (step: (Option<V>, Visit<V>) -> Option<V>)
    ensures forall element :: step(None, element) == Option.Some(element.value)
    ensures forall accumulator, element :: step(Option.Some(accumulator), element) == Option.Some(iter(accumulator, element.value))
  {
    (accumulator: Option<V>, element: Visit<V>) =>
      if accumulator.None? then Option.Some(element.value)
      else Option.Some(iter(accumulator.value, element.value))
  }

  lemma {:induction false} SeedFold<V(!new)>(iter: (V, V) -> V, w: seq<Visit<V>>)
    ensures var r := Foldl(SeedStep(iter), None, w);
      && (r.None? <==> w == [])
      && (r.Some? ==> r.value == Foldl(iter, w[0].value, ValuesOf(w)[1..]))
    decreases |w|
  {
    if w != [] {
      var w' := w[..|w| - 1];
      SeedFold(iter, w');
      if w' != [] {
        var rest := ValuesOf(w)[1..];
        assert rest[..|rest| - 1] == ValuesOf(w')[1..];
      }
    }
  }

  /** `_.reduce(collection, iter)`: the first element seeds the fold over
      the rest; an empty collection yields undefined. */
  method ReduceUnseeded<V(!new)>(c: Collection<V>, iter: (V, V) -> V) returns (r: Option<V>)
    ensures r.None? <==> Values(c) == []
    ensures r.Some? ==> r.value == Foldl(iter, Values(c)[0], Values(c)[1..])
  {
    r := Each(c, SeedStep(iter), None);
    SeedFold(iter, Visits(c));
  }

  /** The callback `_.contains` folds with. */
  function ContainsStep<V(==,!new)>(target: V): (step: (bool, V) -> bool)
    ensures forall item :: step(true, item)
    ensures forall item :: step(false, item) <==> item == target
  {
    (wasFound: bool, item: V) => if wasFound then true else item == target
  }

  lemma {:induction false} ContainsFold<V(!new)>(target: V, wasFound: bool, vs: seq<V>)
    ensures Foldl(ContainsStep(target), wasFound, vs) <==> wasFound || target in vs
    decreases |vs|
  {
    if vs != [] {
      ContainsFold(target, wasFound, vs[..|vs| - 1]);
      assert vs == vs[..|vs| - 1] + [vs[|vs| - 1]];
    }
  }

  /** `_.contains`: whether some element is `target` (strict equality). */
  method Contains<V(==,!new)>(c: Collection<V>, target: V) returns (r: bool)
    ensures r <==> target in Values(c)
  {
    r := Reduce(c, ContainsStep(target), false);
    ContainsFold(target, false, Values(c));
  }

  /** The callback `_.every` folds with: `trueSoFar && iter(element)`. */
  function EveryStep<V(!new)>(iter: V -> JsValue): (step: (JsValue, V) -> JsValue)
    ensures forall trueSoFar, element :: step(trueSoFar, element) == trueSoFar || step(trueSoFar, element) == iter(element)
    ensures forall trueSoFar, element :: Truthy(step(trueSoFar, element)) <==> Truthy(trueSoFar) && Truthy(iter(element))
  {
    (trueSoFar: JsValue, element: V) => And(trueSoFar, iter(element))
  }

  lemma {:induction false} EveryFold<V(!new)>(iter: V -> JsValue, trueSoFar: JsValue, vs: seq<V>)
    ensures Truthy(Foldl(EveryStep(iter), trueSoFar, vs))
      <==> Truthy(trueSoFar) && forall i :: 0 <= i < |vs| ==> Truthy(iter(vs[i]))
    decreases |vs|
  {
    if vs != [] {
      EveryFold(iter, trueSoFar, vs[..|vs| - 1]);
      assert forall i :: 0 <= i < |vs| - 1 ==> vs[..|vs| - 1][i] == vs[i];
    }
  }

  /** `_.every`: whether the iterator's result is truthy for every element;
      true for an empty collection. */
  method Every<V(!new)>(c: Collection<V>, iter: V -> JsValue) returns (r: bool)
    ensures r <==> forall i :: 0 <= i < |Values(c)| ==> Truthy(iter(Values(c)[i]))
    ensures Values(c) == [] ==> r
  {
    var folded := Reduce(c, EveryStep(iter), Bool(true));
    EveryFold(iter, Bool(true), Values(c));
    r := Truthy(folded);
  }

  /** `_.every` without an iterator falls back to `_.identity`. */
  method EveryDefault(c: Collection<JsValue>) returns (r: bool)
    ensures r <==> forall i :: 0 <= i < |Values(c)| ==> Truthy(Values(c)[i])
  {
    r := Every(c, Identity);
  }

  /** The callback `_.some` folds with: `trueSoFar || iter(element)`. */
  function SomeStep<V(!new)>(iter: V -> JsValue): (step: (JsValue, V) -> JsValue)
    ensures forall trueSoFar, element :: step(trueSoFar, element) == trueSoFar || step(trueSoFar, element) == iter(element)
    ensures forall trueSoFar, element :: Truthy(step(trueSoFar, element)) <==> Truthy(trueSoFar) || Truthy(iter(element))
  {
    (trueSoFar: JsValue, element: V) => Or(trueSoFar, iter(element))
  }

  lemma {:induction false} SomeFold<V(!new)>(iter: V -> JsValue, trueSoFar: JsValue, vs: seq<V>)
    ensures Truthy(Foldl(SomeStep(iter), trueSoFar, vs))
      <==> Truthy(trueSoFar) || exists i :: 0 <= i < |vs| && Truthy(iter(vs[i]))
    decreases |vs|
  {
    if vs != [] {
      SomeFold(iter, trueSoFar, vs[..|vs| - 1]);
      assert forall i :: 0 <= i < |vs| - 1 ==> vs[..|vs| - 1][i] == vs[i];
    }
  }

  /** `_.some`: whether the iterator's result is truthy for some element;
      false for an empty collection. */
  method Some<V(!new)>(c: Collection<V>, iter: V -> JsValue) returns (r: bool)
    ensures r <==> exists i :: 0 <= i < |Values(c)| && Truthy(iter(Values(c)[i]))
    ensures Values(c) == [] ==> !r
  {
    var folded := Reduce(c, SomeStep(iter), Bool(false));
    SomeFold(iter, Bool(false), Values(c));
    r := Truthy(folded);
  }

  /** `_.some` without an iterator falls back to `_.identity`. */
  method SomeDefault(c: Collection<JsValue>) returns (r: bool)
    ensures r <==> exists i :: 0 <= i < |Values(c)| && Truthy(Values(c)[i])
  {
    r := Some(c, Identity);
  }

  // ---------------------------------------------------------------------------
  // Object composition
  // ---------------------------------------------------------------------------

  /** A JavaScript object that `_.extend` and `_.defaults` update in place. */
  class JsObject<V> {
    var props: map<string, V>

    constructor (props: map<string, V>)
      ensures this.props == props
    {
      this.props := props;
    }
  }

  /** `obj` after the properties of each source, left to right, are copied
      onto it. */
  function Extended<V>(obj: map<string, V>, sources: seq<map<string, V>>): map<string, V>
    decreases |sources|
  {
    if sources == [] then obj
    else Extended(obj, sources[..|sources| - 1]) + sources[|sources| - 1]
  }

  /** `obj` after each source, left to right, supplies the properties still missing. */
  function Defaulted<V>(obj: map<string, V>, sources: seq<map<string, V>>): map<string, V>
    decreases |sources|
  {
    if sources == [] then obj
    else
      var d := Defaulted(obj, sources[..|sources| - 1]);
      var source := sources[|sources| - 1];
      d + (source - d.Keys)
  }

  /** Copying an object's own properties onto it first changes nothing. */
  lemma {:induction false} ExtendedSelfFirst<V>(obj: map<string, V>, sources: seq<map<string, V>>)
    ensures Extended(obj, [obj] + sources) == Extended(obj, sources)
    decreases |sources|
  {
    var args := [obj] + sources;
    if sources == [] {
      assert args[..0] == [];
      assert obj + obj == obj;
    } else {
      assert args[..|args| - 1] == [obj] + sources[..|sources| - 1];
      ExtendedSelfFirst(obj, sources[..|sources| - 1]);
    }
  }

  /** Offering an object its own properties first changes nothing. */
  lemma {:induction false} DefaultedSelfFirst<V>(obj: map<string, V>, sources: seq<map<string, V>>)
    ensures Defaulted(obj, [obj] + sources) == Defaulted(obj, sources)
    decreases |sources|
  {
    var args := [obj] + sources;
    if sources == [] {
      assert args[..0] == [];
      assert obj + (obj - obj.Keys) == obj;
    } else {
      assert args[..|args| - 1] == [obj] + sources[..|sources| - 1];
      DefaultedSelfFirst(obj, sources[..|sources| - 1]);
    }
  }

  /** After `_.extend`, a property that some source has holds its value in
      the last source that has it. */
  lemma {:induction false} ExtendedLastSourceWins<V>(obj: map<string, V>, sources: seq<map<string, V>>, key: string, j: nat)
    requires j < |sources| && key in sources[j]
    requires forall l :: j < l < |sources| ==> key !in sources[l]
    ensures key in Extended(obj, sources) && Extended(obj, sources)[key] == sources[j][key]
    decreases |sources|
  {
    if j < |sources| - 1 {
      ExtendedLastSourceWins(obj, sources[..|sources| - 1], key, j);
    }
  }

  /** After `_.extend`, a property that no source has is as it was. */
  lemma {:induction false} ExtendedKeepsUntouched<V>(obj: map<string, V>, sources: seq<map<string, V>>, key: string)
    requires forall l :: 0 <= l < |sources| ==> key !in sources[l]
    ensures key in Extended(obj, sources) <==> key in obj
    ensures key in obj ==> Extended(obj, sources)[key] == obj[key]
    decreases |sources|
  {
    if sources != [] {
      ExtendedKeepsUntouched(obj, sources[..|sources| - 1], key);
    }
  }

  /** `_.defaults` never changes a property the object already has. */
  lemma {:induction false} DefaultedKeepsExisting<V>(obj: map<string, V>, sources: seq<map<string, V>>, key: string)
    requires key in obj
    ensures key in Defaulted(obj, sources) && Defaulted(obj, sources)[key] == obj[key]
    decreases |sources|
  {
    if sources != [] {
      DefaultedKeepsExisting(obj, sources[..|sources| - 1], key);
    }
  }

  /** A property the object lacks takes its value from the first source
      that has it. */
  lemma {:induction false} DefaultedFirstSourceWins<V>(obj: map<string, V>, sources: seq<map<string, V>>, key: string, j: nat)
    requires key !in obj
    requires j < |sources| && key in sources[j]
    requires forall l :: 0 <= l < j ==> key !in sources[l]
    ensures key in Defaulted(obj, sources) && Defaulted(obj, sources)[key] == sources[j][key]
    decreases |sources|
  {
    var prefix := sources[..|sources| - 1];
    if j < |prefix| {
      DefaultedFirstSourceWins(obj, prefix, key, j);
    } else {
      DefaultedStaysMissing(obj, prefix, key);
    }
  }

  /** A property that neither the object nor any source has stays missing. */
  lemma {:induction false} DefaultedStaysMissing<V>(obj: map<string, V>, sources: seq<map<string, V>>, key: string)
    requires key !in obj
    requires forall l :: 0 <= l < |sources| ==> key !in sources[l]
    ensures key !in Defaulted(obj, sources)
    decreases |sources|
  {
    if sources != [] {
      DefaultedStaysMissing(obj, sources[..|sources| - 1], key);
    }
  }

  /** `_.extend(obj, source1, ...)`: copies every property of every argument,
      `obj` itself first, onto `obj`, visiting each one's properties in an
      order the model leaves open; returns `obj`. */
  method Extend<V>(obj: JsObject<V>, sources: seq<map<string, V>>) returns (r: JsObject<V>)
    modifies obj
    ensures r == obj
    ensures obj.props == Extended(old(obj.props), sources)
  {
    var arguments := [obj.props] + sources;
    for i := 0 to |arguments|
      invariant obj.props == Extended(old(obj.props), arguments[..i])
    {
      var source := arguments[i];
      ghost var before := obj.props;
      var pending := source.Keys;
      while pending != {}
        invariant pending <= source.Keys
        invariant obj.props == before + (source - pending)
        decreases pending
      {
        var key :| key in pending;
        obj.props := obj.props[key := source[key]];
        pending := pending - {key};
      }
      assert source - pending == source;
      assert arguments[..i + 1][..i] == arguments[..i];
    }
    assert arguments[..|arguments|] == arguments;
    ExtendedSelfFirst(old(obj.props), sources);
    r := obj;
  }

  /** `_.defaults(obj, source1, ...)`: copies each property of each argument,
      `obj` itself first, onto `obj` unless `obj` already has it; returns `obj`. */
  method Defaults<V>(obj: JsObject<V>, sources: seq<map<string, V>>) returns (r: JsObject<V>)
    modifies obj
    ensures r == obj
    ensures obj.props == Defaulted(old(obj.props), sources)
  {
    var arguments := [obj.props] + sources;
    for i := 0 to |arguments|
      invariant obj.props == Defaulted(old(obj.props), arguments[..i])
    {
      var source := arguments[i];
      ghost var before := obj.props;
      var pending := source.Keys;
      while pending != {}
        invariant pending <= source.Keys
        invariant obj.props == before + (source - pending - before.Keys)
        decreases pending
      {
        var key :| key in pending;
        if key !in obj.props {
          obj.props := obj.props[key := source[key]];
        }
        pending := pending - {key};
      }
      assert arguments[..i + 1][..i] == arguments[..i];
    }
    assert arguments[..|arguments|] == arguments;
    DefaultedSelfFirst(old(obj.props), sources);
    r := obj;
  }

  // ---------------------------------------------------------------------------
  // Call wrappers
  // ---------------------------------------------------------------------------

  /** The function `_.once(func)` returns, with its closure state as fields.
      Arguments are passed as an explicit sequence. */
  class Once<A, R> {
    const func: seq<A> -> R
    var alreadyCalled: bool
    var result: Option<R>
    /** How many times `func` has run, and the arguments of its first run. */
    ghost var runs: nat
    ghost var firstArgs: seq<A>

    ghost predicate Valid()
      reads this
    {
      && runs <= 1
      && (alreadyCalled <==> runs == 1)
      && (alreadyCalled ==> result == Option.Some(func(firstArgs)))
      && (!alreadyCalled ==> result == None)
    }

    constructor (func: seq<A> -> R)
      ensures Valid() && this.func == func
      ensures !alreadyCalled && runs == 0
    {
      this.func := func;
      alreadyCalled := false;
      result := None;
      runs := 0;
      firstArgs := [];
    }

    /** A call of the wrapper: runs `func` on the first call only, and every
        call returns the first call's result. */
    method Call(args: seq<A>) returns (r: R)
      requires Valid()
      modifies this
      ensures Valid() && alreadyCalled && runs == 1
      ensures !old(alreadyCalled) ==> firstArgs == args
      ensures old(alreadyCalled) ==> firstArgs == old(firstArgs) && result == old(result)
      ensures r == func(firstArgs)
    {
      if !alreadyCalled {
        result := Option.Some(func(args));
        runs := runs + 1;
        firstArgs := args;
        alreadyCalled := true;
      }
      r := result.value;
    }
  }

  /** Three calls of a `_.once` wrapper with different arguments all return
      the result of the first, and the wrapped function runs once. */
  method OnceReturnsFirstResult<A, R>(func: seq<A> -> R, a1: seq<A>, a2: seq<A>, a3: seq<A>)
    returns (r1: R, r2: R, r3: R)
    ensures r1 == func(a1) && r2 == func(a1) && r3 == func(a1)
  {
    var once := new Once(func);
    r1 := once.Call(a1);
    r2 := once.Call(a2);
    r3 := once.Call(a3);
    assert once.runs == 1;
  }

  /** The function `_.memoize(func)` returns, with its cache as a field. The
      cache is keyed by `keyOf(args)`, which stands for the string that
      JavaScript makes of the argument list. */
  class Memoize<A, K(==)> {
    const func: seq<A> -> JsValue
    const keyOf: seq<A> -> K
    var memoized: map<K, JsValue>
    /** The argument lists `func` has been run on, in order. */
    ghost var calls: seq<seq<A>>

    /** Every cached result is `func`'s result on some earlier argument list
        with that key. */
    ghost predicate Valid()
      reads this
    {
      forall k :: k in memoized ==>
        exists j :: 0 <= j < |calls| && keyOf(calls[j]) == k && memoized[k] == func(calls[j])
    }

    constructor (func: seq<A> -> JsValue, keyOf: seq<A> -> K)
      ensures Valid() && this.func == func && this.keyOf == keyOf
      ensures memoized == map[] && calls == []
    {
      this.func := func;
      this.keyOf := keyOf;
      memoized := map[];
      calls := [];
    }

    /** A call of the wrapper: a truthy cached result for the key is returned
        without running `func`; otherwise (no entry, or a falsy one) `func`
        runs and its result is cached and returned. */
    method Call(args: seq<A>) returns (r: JsValue)
      requires Valid()
      modifies this
      ensures Valid()
      ensures var k := keyOf(args);
        if k in old(memoized) && Truthy(old(memoized)[k]) then
          r == old(memoized)[k] && memoized == old(memoized) && calls == old(calls)
        else
          r == func(args) && memoized == old(memoized)[k := r] && calls == old(calls) + [args]
      ensures exists j :: 0 <= j < |calls| && keyOf(calls[j]) == keyOf(args) && r == func(calls[j])
    {
      var k := keyOf(args);
      if k in memoized && Truthy(memoized[k]) {
        r := memoized[k];
      } else {
        ghost var before := calls;
        memoized := memoized[k := func(args)];
        calls := calls + [args];
        r := memoized[k];
        forall k' | k' in memoized
          ensures exists j :: 0 <= j < |calls| && keyOf(calls[j]) == k' && memoized[k'] == func(calls[j])
        {
          if k' == k {
            assert calls[|calls| - 1] == args;
          } else {
            var j :| 0 <= j < |before| && keyOf(before[j]) == k' && memoized[k'] == func(before[j]);
            assert calls[j] == before[j];
          }
        }
      }
    }
  }

  /** Two argument lists with the same key: once the first has produced a
      truthy result, the second gets that result back and `func` does not run. */
  method MemoizeSharesKey<A, K(==)>(func: seq<A> -> JsValue, keyOf: seq<A> -> K, a1: seq<A>, a2: seq<A>)
    returns (r1: JsValue, r2: JsValue)
    requires keyOf(a1) == keyOf(a2) && Truthy(func(a1))
    ensures r1 == func(a1) && r2 == func(a1)
  {
    var memo := new Memoize(func, keyOf);
    r1 := memo.Call(a1);
    r2 := memo.Call(a2);
    assert memo.calls == [a1];
  }
}
