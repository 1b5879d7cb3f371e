# underbar collection utilities in Dafny

This project models the collection-utility library in `src/underbar.js`
and proves properties of the model. The library has:

- the accessors `identity`, `first` and `last`;
- the iteration primitive `each`, which dispatches on arrays and plain objects;
- the operations built on `each`: `indexOf`, `filter`, `reject`, `map`, `pluck` and `reduce`;
- the folds built on `reduce`: `contains`, `every` and `some`;
- `uniq`, which sorts its argument in place and then collapses runs of equal elements;
- the in-place object merges `extend` and `defaults`;
- the call wrappers `once` and `memoize`.

Layout:

- `js.dfy` (module `Js`): the JavaScript semantics the library relies on. It covers `undefined` (as `Option.None`), a small `JsValue` type, truthiness, and the value-returning `&&` and `||`.
- `seqs.dfy` (module `Seqs`): reference definitions. These are the left fold `Foldl`, order-preserving selection `Select`, insertion sort `SortBy` under a total order, and run collapsing `Dedup`, with their lemmas.
- `underbar.dfy` (module `Underbar`): the library itself.

How the model is built:

- `each` is the method `Each`. The source's callbacks update captured local variables. Here that state is threaded through an explicit step function. So `Each` is specified as a left fold of the step over the visit sequence `Visits(c)`.
- `indexOf`, `filter`, `map` and `reduce` call `Each` with the source's callback. `contains`, `every` and `some` call `Reduce`. Each of these methods is proved against a reference definition by a lemma on the fold.
- `uniq` works on an `array`. The `extend` and `defaults` target is a `JsObject` class whose `props` map is updated in place. `once` and `memoize` are classes whose fields hold the closure state.

Where the code and its own comments disagree, the model follows the code:

- The comment on `reject` (src/underbar.js:66) describes the elements that do not pass the truth test. The code keeps an element only when the test returns exactly `false` (src/underbar.js:69). An element whose test returns another falsy value (0, "", null, undefined) is therefore dropped by both `filter` and `reject` (`FalsyButNotFalseInNeither`).

Behaviours the comments leave open, modelled as the code has them:

- A negative count passed to `first` or `last` goes to `Array.prototype.slice`. `first(a, -k)` keeps all but the last k elements, and `last(a, -k)` is empty.
- `reduce` on an empty collection with no accumulator returns the accumulator it never set, which is undefined (`None`).

## Model

| member | source | states |
|---|---|---|
| Js.Truthy | src/underbar.js:59 | a value is falsy exactly when it is undefined, null, false, 0 or "" |
| Js.And | src/underbar.js:138 | `a && b` returns one of its operands and is truthy iff both are |
| Js.Or | src/underbar.js:147 | `a \|\| b` returns one of its operands and is truthy iff either is |
| Seqs.FoldlCons | src/underbar.js:107-120 | the fold applies the iterator to the first element first: Foldl(f, a, [x] + s) == Foldl(f, f(a, x), s) |
| Seqs.FoldlAppend | src/underbar.js:107-120 | folding s + t continues from the result of folding s |
| Seqs.Select | src/underbar.js:56-64 | every kept element is in the input and passes the test; every passing input element is kept; no longer than the input |
| Seqs.SelectedPositions | src/underbar.js:56-64 | the positions whose element passes the test, strictly increasing, and every passing position among them |
| Seqs.SelectAtPositions | src/underbar.js:56-64 | the selection is the input read at exactly the passing positions, in order: an order-preserving subsequence |
| Seqs.SelectPartition | src/underbar.js:67-71 | selecting by two complementary tests splits the multiset of the input between the two results |
| Seqs.Insert | src/underbar.js:76 | inserting into a sorted sequence adds exactly that element and keeps it sorted |
| Seqs.SortBy | src/underbar.js:76 | the sort result is a sorted permutation of the input |
| Seqs.Dedup | src/underbar.js:77-81 | collapsing runs keeps exactly the same elements, leaves no two adjacent equal, and ends with the input's last element |
| Seqs.DedupSorted | src/underbar.js:74-83 | collapsing the runs of a sorted sequence leaves it sorted |
| Seqs.DedupSortedDistinct | src/underbar.js:74-83 | collapsing the runs of a sorted sequence leaves no element twice |
| Underbar.Identity | src/underbar.js:7-9 | returns its argument |
| Underbar.First | src/underbar.js:13-15 | without n: the element at index 0, undefined exactly when the array is empty |
| Underbar.SlicePosition | src/underbar.js:14 | slice positions: negative indices count from the end, all are clamped to the array |
| Underbar.Slice | src/underbar.js:13-24 | `slice(begin, end)` holds the elements from the begin position up to the end position, in order, and is empty when the end position does not exceed the begin position |
| Underbar.FirstN | src/underbar.js:13-15 | with n: the first min(n, length) elements in order; a negative n drops that many from the end |
| Underbar.Last | src/underbar.js:19-24 | without n: the element at the last index, undefined exactly when the array is empty |
| Underbar.LastN | src/underbar.js:19-24 | with n: the whole array when n exceeds its length, else the final n elements in order; a negative n gives [] |
| Underbar.FirstNLastNSplit | src/underbar.js:13-24 | first(a, n) followed by last(a, length - n) is a again, with lengths n and length - n |
| Underbar.FirstLastOne | src/underbar.js:13-24 | first(a, 1) and last(a, 1) hold exactly the element first(a) and last(a) return |
| Underbar.Values | src/underbar.js:28-38 | the elements each hands over: an array's items in index order, an object's property values in enumeration order, nothing otherwise |
| Underbar.Visits | src/underbar.js:29-37 | the calls each makes: over an array, index i with a[i] for i ascending; over an object, each property with its value in enumeration order; none for anything else |
| Underbar.EachVisitsEveryPropertyOnce | src/underbar.js:33-36 | over an object, each visits every property exactly once with its own value, and never a key twice |
| Underbar.Each | src/underbar.js:28-38 | the callback's state after each is the left fold of the callback over the visits, in order |
| Underbar.IndexOfStep | src/underbar.js:46-50 | once result is not -1 the callback never changes it; from -1 it records the index exactly when the item is the target |
| Underbar.IndexOfFold | src/underbar.js:42-53 | the indexOf callback's fold yields -1 iff the target is absent, else a position of it with no earlier occurrence |
| Underbar.IndexOf | src/underbar.js:42-53 | returns -1 exactly when no element equals the target, else the smallest index holding it |
| Underbar.FilterStep | src/underbar.js:58-62 | the callback keeps what was pushed so far and appends the element, and only it, exactly when its test is truthy |
| Underbar.FilterFold | src/underbar.js:56-64 | the filter callback's fold builds the selection of the elements whose test is truthy |
| Underbar.Filter | src/underbar.js:56-64 | result is the order-preserving selection of elements with a truthy test; each member passes, each passing element is a member |
| Underbar.StrictlyFalse | src/underbar.js:68-70 | the test handed to filter returns a boolean, and true exactly when the original test returns false itself |
| Underbar.Reject | src/underbar.js:67-71 | result is the order-preserving selection of elements whose test is strictly false, both directions of membership |
| Underbar.FilterRejectPartition | src/underbar.js:56-71 | with a boolean-valued test, filter and reject split the input's elements (as a multiset) between them |
| Underbar.FalsyButNotFalseInNeither | src/underbar.js:56-71 | an element whose test returns a falsy value other than false is in neither the filter nor the reject result |
| Underbar.SortInPlace | src/underbar.js:76 | after array.sort() the array is a sorted permutation of its old contents |
| Underbar.Uniq | src/underbar.js:74-83 | the array ends sorted and a permutation of its old contents; the result collapses its runs, holds exactly the original distinct elements, each once, in sorted order |
| Underbar.DedupOfSortedPermutation | src/underbar.js:74-83 | collapsing a sorted permutation of s yields each element of s exactly once, sorted |
| Underbar.MapStep | src/underbar.js:89-91 | the callback keeps what was pushed so far and appends exactly one entry, the iterator's result on the element |
| Underbar.MapFold | src/underbar.js:87-93 | the map callback's fold has one entry per visit, the iterator's result on that element |
| Underbar.Map | src/underbar.js:87-93 | result has the input's length and out[i] == iterator(in[i]) |
| Underbar.Property | src/underbar.js:100 | item[key] is the property's value when present, undefined otherwise |
| Underbar.Pluck | src/underbar.js:98-102 | result has the input's length and out[i] is element i's value under key, or undefined |
| Underbar.ReduceStep | src/underbar.js:111-118 | with an accumulator, every visit replaces it with iterator(accumulator, element), whatever the key |
| Underbar.ReduceFold | src/underbar.js:107-120 | with an accumulator, the reduce callback's fold is the left fold of the iterator over the elements |
| Underbar.Reduce | src/underbar.js:107-120 | with an accumulator, reduce equals the left fold of the iterator over all elements |
| Underbar.SeedStep | src/underbar.js:111-118 | without an accumulator, the first visit makes its element the accumulator and every later visit applies the iterator |
| Underbar.SeedFold | src/underbar.js:107-120 | without an accumulator, the callback's fold is undefined on no visits, else the fold over the rest seeded by the first element |
| Underbar.ReduceUnseeded | src/underbar.js:107-120 | without an accumulator, undefined exactly for an empty collection, else the first element seeds the fold over the rest |
| Underbar.ContainsStep | src/underbar.js:126-131 | once found stays found; otherwise found exactly when the item strictly equals the target |
| Underbar.ContainsFold | src/underbar.js:123-132 | the contains fold is true iff it started true or the target occurs |
| Underbar.Contains | src/underbar.js:123-132 | true iff some element equals the target |
| Underbar.EveryStep | src/underbar.js:137-139 | `trueSoFar && iterator(element)` is one of the two and truthy exactly when both are |
| Underbar.EveryFold | src/underbar.js:135-140 | the `&&` fold is truthy iff the seed and every iterator result are truthy |
| Underbar.Every | src/underbar.js:135-140 | true iff the iterator's result is truthy for every element; true on an empty collection |
| Underbar.EveryDefault | src/underbar.js:135-140 | with no iterator (identity), true iff every element is truthy |
| Underbar.SomeStep | src/underbar.js:146-148 | `trueSoFar \|\| iterator(element)` is one of the two and truthy exactly when either is |
| Underbar.SomeFold | src/underbar.js:144-149 | the `\|\|` fold is truthy iff the seed or some iterator result is truthy |
| Underbar.Some | src/underbar.js:144-149 | true iff the iterator's result is truthy for some element; false on an empty collection |
| Underbar.SomeDefault | src/underbar.js:144-149 | with no iterator (identity), true iff some element is truthy |
| Underbar.ExtendedSelfFirst | src/underbar.js:154-158 | the pass over obj's own properties, which comes first, changes nothing |
| Underbar.ExtendedLastSourceWins | src/underbar.js:153-160 | after extend, a key some source has maps to its value in the last source that has it |
| Underbar.ExtendedKeepsUntouched | src/underbar.js:153-160 | after extend, a key no source has is present and valued exactly as before |
| Underbar.Extend | src/underbar.js:153-160 | obj's properties become Extended(old properties, sources), and obj itself is returned |
| Underbar.DefaultedSelfFirst | src/underbar.js:165-171 | the pass over obj's own properties, which comes first, changes nothing |
| Underbar.DefaultedKeepsExisting | src/underbar.js:164-173 | defaults never changes the value of a key obj already has |
| Underbar.DefaultedFirstSourceWins | src/underbar.js:164-173 | a key obj lacks takes its value from the first source that has it |
| Underbar.DefaultedStaysMissing | src/underbar.js:164-173 | a key neither obj nor any source has stays missing |
| Underbar.Defaults | src/underbar.js:164-173 | obj's properties become Defaulted(old properties, sources), and obj itself is returned |
| Underbar.Once.constructor | src/underbar.js:177-181 | a fresh wrapper has not been called and has run func zero times |
| Underbar.Once.Call | src/underbar.js:182-188 | func runs only on the first call (runs stays at most 1), and every call returns func's result on the first call's arguments |
| Underbar.OnceReturnsFirstResult | src/underbar.js:177-189 | three calls with different arguments all return func's result on the first arguments |
| Underbar.Memoize.constructor | src/underbar.js:192-194 | a fresh wrapper has an empty cache |
| Underbar.Memoize.Call | src/underbar.js:194-202 | a truthy cached result is returned without running func; otherwise func runs and its result is cached and returned; every cached result is func's result on some argument list with that key |
| Underbar.MemoizeSharesKey | src/underbar.js:192-203 | two argument lists with the same key: after a truthy first result, the second call returns it without running func |

## Left out

- `delay` (src/underbar.js:207-212) is left out. It only schedules a callback on the host's timer, so there is no sequential behaviour to state.
- `shuffle` (src/underbar.js:215-232) is left out. It depends on `Math.random` and floating-point rounding, and its retry never ends for a one-element array.
- The `window._` namespace and the enclosing function wrapper are browser plumbing and are left out.
- `this` binding is not modelled. The `arguments` object of `once` and `memoize` is modelled as an explicit sequence.
- The iterator's third argument (the collection itself) is not passed. No callback in the library uses it.
- Iterators, predicates and wrapped functions are pure function values. Their side effects, and the evaluation short-cut of `&&` and `||`, are not modelled.
- The enumeration order of `for...in` is not computed. An object collection carries its properties in some enumeration order. `extend` and `defaults` visit a source's keys in an order the model leaves open. Their results do not depend on that order.
- Inherited (prototype) properties are not modelled. This matters for `key in obj` in `defaults` and for cache lookups in `memoize`, where keys such as "toString" would find the inherited property.
- The element, accumulator and result types of the operations built on `each` hold no Dafny object references. JavaScript objects among the elements are `JsValue.Ref` identities.
- Numbers are integers. Floating point and NaN are not modelled. Strict equality is Dafny equality, which differs from `===` only for NaN.
- SortInPlace: JavaScript's default sort compares elements as strings. The model sorts under an abstract total order `le` instead.
- Uniq: the result holds each element once only because `le` is antisymmetric, so that elements that sort as equal are equal. JavaScript's default sort compares string forms, and distinct values can share one (1 and "1", or two different objects). Such values may then sit apart in the sorted array, and the source keeps each of them: `uniq([1, "1", 1])` sorts to `[1, "1", 1]` and returns all three. The model does not capture this.
- Uniq: the model pushes the first element unconditionally. The source compares it with `array[-1]`, which is `undefined`, so an array of undefined values is not modelled.
- Extend: each source is read as a value fixed when `extend` is called. The source reads `arguments[i]` when its pass runs, so a source that is `obj` itself sees the updates of earlier passes. For example, `_.extend(a, b, a)` with a = {x: 1} and b = {x: 2} leaves a.x == 2, where `Extended` gives 1. A source aliasing `obj` is not modelled. `Defaults` is unaffected: a pass over `obj`'s own keys never writes.
- Memoize.Call: the cache key is the abstract function `keyOf`, which stands for the string JavaScript makes of the argument list.
- First and Last: "no element" is `None`, kept apart from an element that is itself undefined. `First([Undefined])` is `Some(Undefined)`, where JavaScript returns the same `undefined` as for an empty array.
- LastN: when n exceeds the length, the source returns the same array object. The model returns an equal sequence, so the aliasing is not captured.
- FirstN and LastN: an n that is not an integer (NaN, fractions) is not modelled.
- IndexOf: it is modelled over arrays only, the input its contract describes.
