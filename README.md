# QueryBuilder: a verified model

WorldMaster uses `QueryBuilder<T>` for ordering and lookups over in-memory record
collections, such as the country list that drives navigation. This project models
that class in Dafny and proves what each of its operations computes.

A `QueryBuilder` wraps an ordered collection of elements. It has two kinds of methods:

- **Transformers** return a new builder over a freshly built array:
  - `select` maps each element, its index and the whole array to a new value.
  - `sort` sorts a copy with a comparator.
  - `filter` keeps the elements a predicate accepts.
- **Terminals** read the collection once and return a plain value:
  - `some`, `count` and `every` each take a predicate that defaults to "accept everything".
  - `asList`, `asSet` and `asMap(keySelector, valueSelector)` return the collection as a list, a set or a map.

The model has two modules:

- `JsArrays` (`js_arrays.dfy`) gives the meaning of the ECMAScript built-ins the class
  delegates to, as they are described in ECMA-262 (14th edition, ECMAScript 2023):
  - `Array.prototype.map`, `filter`, `some` and `every`, as one pass from index 0 upwards.
  - `Array.prototype.sort`, for which the standard fixes no algorithm. The model uses a
    stable insertion sort, `SortStable`. The choice does not matter: `SortIsTheStableSort`
    proves that, for a consistent comparator, every ordered and stable rearrangement of the
    input is the same sequence.
  - The `Set` and `Map` constructors, which add entries in order, so a later entry for the
    same key overwrites an earlier one.

  It also proves the facts about these built-ins that the builder's properties rest on:
  - The positions that `filter` keeps.
  - Multiplicities under `filter`.
  - Sortedness and stability of the sort.
  - That a stable sort has exactly one possible result.
  - The size of a set built from a list.
- `QueryBuilders` (`query_builder.dfy`) holds the datatype `QueryBuilder<T>` over a
  `seq<T>`, one function per method of the class, and lemmas that relate the operations to
  each other.

The model is written with values throughout. The class's `data` field is private. It is set
only by the constructor, and every method returns a new value without changing the receiver.
The one in-place `sort` call acts on a fresh copy made by `Array.from`. A transformer
therefore leaves the receiver's sequence as it was, and in the model that holds by
construction. The default predicate `_ => true` is the function `AcceptAll`. Every lemma
about the default refers to that one definition.

Transformers are eager, not lazy: each builds its array as soon as it is called
(`Array.from(this.data)...`), and nothing is deferred until a terminal runs. The model
follows the code in this.

## Model

| member | source | states |
|---|---|---|
| QueryBuilders.AcceptAllAccepts | src/lib/utils/api/types/query-builder.ts:19-34 | the default predicate `_ => true` of some, count, every and filter accepts every element |
| QueryBuilders.Select | src/lib/utils/api/types/query-builder.ts:9-12 | the new list has the input's length, and its element i is the selector applied to element i, the index i and the whole list |
| JsArrays.Map | src/lib/utils/api/types/query-builder.ts:10 | `Array.prototype.map`: same length, and position i holds the callback's value for (element i, i, array) |
| QueryBuilders.Sort | src/lib/utils/api/types/query-builder.ts:14-17 | the sorted list is a permutation of the input: the same multiset of elements |
| JsArrays.SortStable | src/lib/utils/api/types/query-builder.ts:15 | the stable sort used for `Array.prototype.sort` returns a rearrangement of its input (same multiset) |
| QueryBuilders.SortOrdersStably | src/lib/utils/api/types/query-builder.ts:14-17 | for a comparator consistent on the elements, the result is ordered by the comparator, and elements the comparator ranks equal keep their input order |
| QueryBuilders.SortIsTheStableSort | src/lib/utils/api/types/query-builder.ts:14-17 | any permutation of the input that is ordered and stable equals what sort returns, so the result does not depend on which stable algorithm the engine uses |
| JsArrays.StableSortUnique | src/lib/utils/api/types/query-builder.ts:15 | two sorted sequences with the same multiset that list every rank class in the same order are equal |
| QueryBuilders.SortKeepsCount | src/lib/utils/api/types/query-builder.ts:14-25 | count(p) of the sorted builder equals count(p) of the receiver, for every predicate |
| QueryBuilders.SortKeepsTerminals | src/lib/utils/api/types/query-builder.ts:14-29 | some(p) and every(p) give the same answers before and after sorting |
| QueryBuilders.SortKeepsSet | src/lib/utils/api/types/query-builder.ts:40-42 | asSet() of the sorted builder equals asSet() of the receiver |
| QueryBuilders.Filter | src/lib/utils/api/types/query-builder.ts:31-34 | the result is no longer than the input, and each of its elements comes from the input and satisfies the predicate |
| JsArrays.Filter | src/lib/utils/api/types/query-builder.ts:24 | `Array.prototype.filter`: at most as long as its input, and every kept element is in the input and passes the predicate |
| QueryBuilders.FilterKeepsExactly | src/lib/utils/api/types/query-builder.ts:31-34 | the result is the order-preserving subsequence at exactly the positions whose element satisfies the predicate |
| QueryBuilders.FilterMultiplicity | src/lib/utils/api/types/query-builder.ts:31-34 | an accepted element keeps all of its copies, and a rejected one keeps none |
| QueryBuilders.FilterIdempotent | src/lib/utils/api/types/query-builder.ts:31-34 | filtering the filtered builder by the same predicate changes nothing |
| QueryBuilders.FilterAcceptAll | src/lib/utils/api/types/query-builder.ts:31-34 | with the default predicate, filter returns the same list |
| QueryBuilders.Some | src/lib/utils/api/types/query-builder.ts:19-21 | some(p) holds if and only if some position holds an element satisfying p |
| JsArrays.Some | src/lib/utils/api/types/query-builder.ts:20 | `Array.prototype.some` scanning from index 0 is true exactly when an element satisfies the predicate |
| QueryBuilders.Count | src/lib/utils/api/types/query-builder.ts:23-25 | count(p) is at most the length of the list |
| QueryBuilders.CountIsFilterLength | src/lib/utils/api/types/query-builder.ts:23-25 | count(p) equals the length of filter(p).asList() |
| QueryBuilders.CountComplement | src/lib/utils/api/types/query-builder.ts:23-25 | count(p) + count(not p) equals the length of the list |
| QueryBuilders.SomeIffCountPositive | src/lib/utils/api/types/query-builder.ts:19-25 | some(p) holds if and only if count(p) > 0 |
| QueryBuilders.Every | src/lib/utils/api/types/query-builder.ts:27-29 | every(p) holds if and only if every position holds an element satisfying p |
| JsArrays.Every | src/lib/utils/api/types/query-builder.ts:28 | `Array.prototype.every` scanning from index 0 is true exactly when all elements satisfy the predicate |
| QueryBuilders.EveryIffNoneRejected | src/lib/utils/api/types/query-builder.ts:23-29 | every(p) holds if and only if count(not p) is 0 |
| QueryBuilders.EveryIffCountIsLength | src/lib/utils/api/types/query-builder.ts:23-29 | every(p) holds if and only if count(p) equals the length of the list |
| QueryBuilders.DefaultPredicate | src/lib/utils/api/types/query-builder.ts:19-34 | with the default predicate: some() holds if and only if the list is non-empty, count() is the length, every() holds, and filter() returns the same list |
| QueryBuilders.EmptyList | src/lib/utils/api/types/query-builder.ts:19-29 | on an empty list, every(p) holds, some(p) fails and count(p) is 0, for every predicate |
| QueryBuilders.AsList | src/lib/utils/api/types/query-builder.ts:36-38 | asList() is the identity on the builder's data: the same length and the same element at every position |
| QueryBuilders.AsSet | src/lib/utils/api/types/query-builder.ts:36-42 | asSet() contains exactly the elements of asList() |
| JsArrays.SetOf | src/lib/utils/api/types/query-builder.ts:41 | the `Set` constructor yields exactly the elements of the list |
| QueryBuilders.AsSetSize | src/lib/utils/api/types/query-builder.ts:36-42 | asSet() is never larger than asList(), and it has the same size if and only if no element occurs twice |
| QueryBuilders.AsMap | src/lib/utils/api/types/query-builder.ts:44-46 | the keys are exactly the key-selector values of the elements, and each key is bound to the value-selector value of the last element with that key |
| QueryBuilders.EntryIsKeyAndValue | src/lib/utils/api/types/query-builder.ts:45 | the arrow passed to `map` in asMap turns an element into the pair of its key-selector and value-selector values, whatever the index and array |
| JsArrays.MapOfEntries | src/lib/utils/api/types/query-builder.ts:45 | the `Map` constructor binds every entry's key, has no other keys, and binds each key to the value of its last entry |

## Left out

- The class's `data` is an `Iterable<T>`. The model reads it as a finite `seq<T>` fixed
  when the builder is made. The source does not copy it: the constructor keeps the
  caller's collection by reference (query-builder.ts:5-7), and every method reads it again
  through `Array.from(this.data)` or `new Set(this.data)`. A change the caller makes to the
  collection after construction is therefore seen by later calls: after
  `const a = [1]; const q = new QueryBuilder(a); a.push(2);`, `q.count()` is 2, while the
  model's builder still holds `[1]`. The model states each method's result for the
  collection as it is at the moment of the call; aliasing between the builder and the
  caller's collection is not modelled. The model follows the code here, not the
  description of the builder as capturing its sequence at construction.
- The same applies to one-shot iterators: if the builder wraps one, the first method call
  exhausts it, and later calls see an empty collection. The model does not capture this.
- Callbacks (selectors, predicates, comparators) are total, pure Dafny functions. JavaScript
  callbacks that throw, have side effects, or change the array while it is being read are
  not modelled.
- Elements, set members and map keys are compared with Dafny equality, not JavaScript's
  SameValueZero (for example, object identity versus structural equality).
- The comparator returns a Dafny `int`. Comparators that return NaN, non-integers or
  `undefined` are not modelled.
- Sort: does not model `undefined` elements. Section 23.1.3.30.2 of ECMA-262
  (CompareArrayElements) always places `undefined` elements after all others and never
  passes them to the comparator. The model passes every element to `compareFn`. For a list
  such as `[undefined, 2, 1]` the source returns `[1, 2, undefined]` whatever the comparator
  says about `undefined`; the model's result depends on the comparator. The model matches the
  source for lists without `undefined` elements and a comparator consistent on them (for
  other comparators the standard leaves the order to the implementation, see below).
- SortOrdersStably: assumes the comparator is consistent on the list's elements, as
  section 23.1.3.30 of ECMA-262 requires before it promises an ordered result. For an
  inconsistent comparator the standard leaves the order to the implementation. The model
  still returns a permutation (`Sort` has no precondition) but states no order.
- SortIsTheStableSort: assumes the same comparator consistency as SortOrdersStably, for the same reason.
- AsSet: does not model the insertion order in which a JavaScript `Set` is iterated. A
  Dafny `set` has no order.
- AsMap: does not model the insertion order in which a JavaScript `Map` is iterated. A Dafny
  `map` has no order. The key and value selectors return values of any type `K` and `V`.
- `filter<Y extends T>` casts its result to a subtype `Y` without checking. TypeScript erases
  that cast at run time, so the model keeps the element type `T`.
- The interface `QueryBuilderInterface` that the class implements is not part of this model.
  The class's behaviour is determined by its own method bodies.
- The rest of the repository is not part of this model: the flag-editing pages, the SVG
  cursor component, the text-input component, the landing page and the flag file endpoint.
  It is UI, DOM and file I/O, with no self-contained algorithm.
