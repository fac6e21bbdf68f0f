/**
 * The generic query builder: a value that wraps an ordered collection.
 * Transformers (Select, Sort, Filter) return a new builder over a freshly
 * built sequence and leave the receiver as it was; terminals (Some, Count,
 * Every, AsList, AsSet, AsMap) read the current sequence once and return a
 * result. A builder holds the collection as it is at the moment of a call:
 * the source keeps the caller's collection by reference and reads it again
 * on every call, and changes made to it in between are not modelled.
 */
module QueryBuilders {
  import JsArrays

  /** A builder over the elements `data`, in order. */
  datatype QueryBuilder<T> = QueryBuilder(data: seq<T>)

  /** The default predicate of some, count, every and filter: `_ => true`. */
  function AcceptAll<T>(): T -> bool {
    _ => true
  }

  /** The default predicate accepts every element. */
  lemma AcceptAllAccepts<T>(x: T)
    ensures AcceptAll<T>()(x)
  {
  }

  /** The predicate that holds exactly where p does not. */
  function Not<T>(p: T -> bool): T -> bool {
    x => !p(x)
  }

  /* ---------------------------------------------------------------------- */
  /* Transformers                                                           */
  /* ---------------------------------------------------------------------- */

  /** `select`: each element replaced by the selector's value for it, its index and the list. */
  function Select<T, Y>(q: QueryBuilder<T>, selector: (T, nat, seq<T>) -> Y): (r: QueryBuilder<Y>)
    ensures |r.data| == |q.data|
    ensures forall i :: 0 <= i < |q.data| ==> r.data[i] == selector(q.data[i], i, q.data)
  {
    QueryBuilder(JsArrays.Map(AsList(q), selector))
  }

  /** `sort`: a stably sorted copy; the result is a rearrangement of the receiver's elements. */
  function Sort<T>(q: QueryBuilder<T>, compareFn: (T, T) -> int): (r: QueryBuilder<T>)
    ensures multiset(r.data) == multiset(q.data)
  {
    QueryBuilder(JsArrays.SortStable(AsList(q), compareFn))
  }

  /** `filter`: the elements the predicate accepts, in their order. */
  function Filter<T>(q: QueryBuilder<T>, filter: T -> bool): (r: QueryBuilder<T>)
    ensures |r.data| <= |q.data|
    ensures forall x :: x in r.data ==> x in q.data && filter(x)
  {
    QueryBuilder(JsArrays.Filter(AsList(q), filter))
  }

  /* ---------------------------------------------------------------------- */
  /* Terminals                                                              */
  /* ---------------------------------------------------------------------- */

  /** `some`: whether any element satisfies the predicate. */
  function Some<T>(q: QueryBuilder<T>, filter: T -> bool): (r: bool)
    ensures r <==> exists i :: 0 <= i < |q.data| && filter(q.data[i])
  {
    JsArrays.Some(AsList(q), filter)
  }

  /** `count`: how many elements satisfy the predicate. */
  function Count<T>(q: QueryBuilder<T>, filter: T -> bool): (r: nat)
    ensures r <= |q.data|
  {
    |JsArrays.Filter(AsList(q), filter)|
  }

  /** `every`: whether all elements satisfy the predicate. */
  function Every<T>(q: QueryBuilder<T>, filter: T -> bool): (r: bool)
    ensures r <==> forall i :: 0 <= i < |q.data| ==> filter(q.data[i])
  {
    JsArrays.Every(AsList(q), filter)
  }

  /** `asList`: the elements, in order. */
  function AsList<T>(q: QueryBuilder<T>): (r: seq<T>)
    ensures |r| == |q.data|
    ensures forall i :: 0 <= i < |q.data| ==> r[i] == q.data[i]
  {
    q.data
  }

  /** `asSet`: the distinct elements. */
  function AsSet<T>(q: QueryBuilder<T>): (r: set<T>)
    ensures forall x :: x in r ==> x in AsList(q)
    ensures forall i :: 0 <= i < |q.data| ==> AsList(q)[i] in r
  {
    JsArrays.SetOf(q.data)
  }

  /** The key/value pair asMap builds for one element. */
  function Entry<T, K, V>(keySelector: T -> K, valueSelector: T -> V): (T, nat, seq<T>) -> (K, V) {
    (x: T, i: nat, a: seq<T>) => (keySelector(x), valueSelector(x))
  }

  /** An element's entry is its key and its value, whatever its index and the list. */
  lemma EntryIsKeyAndValue<T, K, V>(keySelector: T -> K, valueSelector: T -> V, x: T, i: nat, a: seq<T>)
    ensures Entry(keySelector, valueSelector)(x, i, a) == (keySelector(x), valueSelector(x))
  {
  }

  /**
   * `asMap`: one binding per key; the keys are those of the elements, and a
   * key shared by several elements is bound to the value of the last one.
   */
  function AsMap<T, K, V>(q: QueryBuilder<T>, keySelector: T -> K, valueSelector: T -> V): (r: map<K, V>)
    ensures forall i :: 0 <= i < |q.data| ==> keySelector(q.data[i]) in r
    ensures forall k :: k in r ==> exists i :: 0 <= i < |q.data| && keySelector(q.data[i]) == k
    ensures forall i :: 0 <= i < |q.data| && (forall j :: i < j < |q.data| ==> keySelector(q.data[j]) != keySelector(q.data[i]))
              ==> r[keySelector(q.data[i])] == valueSelector(q.data[i])
  {
    var entries := JsArrays.Map(AsList(q), Entry(keySelector, valueSelector));
    assert forall i :: 0 <= i < |q.data| ==> entries[i] == (keySelector(q.data[i]), valueSelector(q.data[i]));
    JsArrays.MapOfEntries(entries)
  }

  /* ---------------------------------------------------------------------- */
  /* Filter                                                                 */
  /* ---------------------------------------------------------------------- */

  /**
   * filter keeps exactly the positions whose element the predicate accepts,
   * in increasing order: the result is the order-preserving subsequence
   * picked out by those positions.
   */
  lemma FilterKeepsExactly<T>(q: QueryBuilder<T>, p: T -> bool)
    ensures JsArrays.IsSubsequence(Filter(q, p).data, q.data)
    ensures exists idx :: JsArrays.Embeds(idx, Filter(q, p).data, q.data)
                          && forall j :: 0 <= j < |q.data| ==> (j in idx <==> p(q.data[j]))
  {
    var idx := JsArrays.FilterPositions(q.data, p);
    assert JsArrays.Embeds(idx, Filter(q, p).data, q.data)
           && forall j :: 0 <= j < |q.data| ==> (j in idx <==> p(q.data[j]));
  }

  /** Each accepted element keeps all its copies; a rejected one keeps none. */
  lemma FilterMultiplicity<T>(q: QueryBuilder<T>, p: T -> bool, x: T)
    ensures multiset(Filter(q, p).data)[x] == if p(x) then multiset(q.data)[x] else 0
  {
    JsArrays.FilterMultiset(q.data, p, x);
  }

  /** Filtering twice by the same predicate is filtering once. */
  lemma FilterIdempotent<T>(q: QueryBuilder<T>, p: T -> bool)
    ensures Filter(Filter(q, p), p) == Filter(q, p)
  {
    JsArrays.FilterTwice(q.data, p);
  }

  /** With the default predicate, filter returns the same list. */
  lemma {:induction false} FilterAcceptAll<T>(q: QueryBuilder<T>)
    ensures Filter(q, AcceptAll()) == q
    decreases |q.data|
  {
    if q.data != [] {
      FilterAcceptAll(QueryBuilder(q.data[1..]));
      assert q.data == [q.data[0]] + q.data[1..];
      JsArrays.FilterCons(q.data[0], q.data[1..], AcceptAll());
    }
  }

  /* ---------------------------------------------------------------------- */
  /* Count, some and every                                                  */
  /* ---------------------------------------------------------------------- */

  /** count(p) is the length of filter(p).asList(). */
  lemma CountIsFilterLength<T>(q: QueryBuilder<T>, p: T -> bool)
    ensures Count(q, p) == |AsList(Filter(q, p))|
  {
  }

  /** Every element is counted by exactly one of p and its negation. */
  lemma {:induction false} CountComplement<T>(q: QueryBuilder<T>, p: T -> bool)
    ensures Count(q, p) + Count(q, Not(p)) == |q.data|
    decreases |q.data|
  {
    if q.data != [] {
      CountComplement(QueryBuilder(q.data[1..]), p);
      assert q.data == [q.data[0]] + q.data[1..];
      JsArrays.FilterCons(q.data[0], q.data[1..], p);
      JsArrays.FilterCons(q.data[0], q.data[1..], Not(p));
    }
  }

  /** some(p) holds exactly when count(p) is positive. */
  lemma SomeIffCountPositive<T>(q: QueryBuilder<T>, p: T -> bool)
    ensures Some(q, p) <==> Count(q, p) > 0
  {
    var f := JsArrays.Filter(q.data, p);
    if Count(q, p) > 0 {
      assert f[0] in f;
      var i :| 0 <= i < |q.data| && q.data[i] == f[0];
    }
    if Some(q, p) {
      var i :| 0 <= i < |q.data| && p(q.data[i]);
      var idx := JsArrays.FilterPositions(q.data, p);
      assert i in idx;
    }
  }

  /** Nothing fails p exactly when no element is counted by its negation. */
  lemma EveryIffNoneRejected<T>(q: QueryBuilder<T>, p: T -> bool)
    ensures Every(q, p) <==> Count(q, Not(p)) == 0
  {
    SomeIffCountPositive(q, Not(p));
  }

  /** every(p) holds exactly when count(p) is the length of the list. */
  lemma EveryIffCountIsLength<T>(q: QueryBuilder<T>, p: T -> bool)
    ensures Every(q, p) <==> Count(q, p) == |q.data|
  {
    CountComplement(q, p);
    EveryIffNoneRejected(q, p);
  }

  /**
   * The default predicate: some() is "the list is not empty", count() is the
   * length, every() always holds and filter() changes nothing.
   */
  lemma DefaultPredicate<T>(q: QueryBuilder<T>)
    ensures Some(q, AcceptAll()) <==> |q.data| > 0
    ensures Count(q, AcceptAll()) == |q.data|
    ensures Every(q, AcceptAll())
    ensures Filter(q, AcceptAll()) == q
  {
    FilterAcceptAll(q);
    if |q.data| > 0 {
      assert AcceptAll<T>()(q.data[0]);
    }
  }

  /** On an empty list, every holds and some fails, whatever the predicate. */
  lemma EmptyList<T>(p: T -> bool)
    ensures Every(QueryBuilder([]), p)
    ensures !Some(QueryBuilder([]), p)
    ensures Count(QueryBuilder([]), p) == 0
  {
  }

  /* ---------------------------------------------------------------------- */
  /* Sort                                                                   */
  /* ---------------------------------------------------------------------- */

  /**
   * With a comparator consistent on the list's elements, sort returns them
   * ordered by the comparator, and elements it ranks equal stay in their
   * input order.
   */
  lemma SortOrdersStably<T>(q: QueryBuilder<T>, compareFn: (T, T) -> int)
    requires JsArrays.Consistent(compareFn, AsSet(q))
    ensures JsArrays.Sorted(compareFn, Sort(q, compareFn).data)
    ensures JsArrays.Stable(compareFn, Sort(q, compareFn).data, q.data)
  {
    JsArrays.SortStableSorted(q.data, compareFn, AsSet(q));
    forall z | z in q.data
      ensures JsArrays.Filter(Sort(q, compareFn).data, JsArrays.SameRank(compareFn, z))
           == JsArrays.Filter(q.data, JsArrays.SameRank(compareFn, z))
    {
      JsArrays.SortStableStable(q.data, compareFn, AsSet(q), z);
    }
  }

  /**
   * Those three properties determine the result: any rearrangement of the
   * list that is ordered and stable is the one sort returns.
   */
  lemma SortIsTheStableSort<T>(q: QueryBuilder<T>, compareFn: (T, T) -> int, r: seq<T>)
    requires JsArrays.Consistent(compareFn, AsSet(q))
    requires multiset(r) == multiset(q.data)
    requires JsArrays.Sorted(compareFn, r) && JsArrays.Stable(compareFn, r, q.data)
    ensures r == Sort(q, compareFn).data
  {
    var s := Sort(q, compareFn).data;
    SortOrdersStably(q, compareFn);
    forall y | y in r ensures y in AsSet(q) {
      assert y in multiset(r);
    }
    forall y | y in s ensures y in AsSet(q) {
      assert y in multiset(s);
    }
    JsArrays.StableSortUnique(r, s, compareFn, AsSet(q));
  }

  /** Sorting does not change how many elements a predicate accepts. */
  lemma SortKeepsCount<T>(q: QueryBuilder<T>, compareFn: (T, T) -> int, p: T -> bool)
    ensures Count(Sort(q, compareFn), p) == Count(q, p)
  {
    JsArrays.FilterLengthOfPermutation(Sort(q, compareFn).data, q.data, p);
  }

  /** Nor whether some or every element is accepted. */
  lemma SortKeepsTerminals<T>(q: QueryBuilder<T>, compareFn: (T, T) -> int, p: T -> bool)
    ensures Some(Sort(q, compareFn), p) == Some(q, p)
    ensures Every(Sort(q, compareFn), p) == Every(q, p)
  {
    var sq := Sort(q, compareFn);
    SortKeepsCount(q, compareFn, p);
    SomeIffCountPositive(sq, p);
    SomeIffCountPositive(q, p);
    EveryIffCountIsLength(sq, p);
    EveryIffCountIsLength(q, p);
    assert |sq.data| == |multiset(sq.data)| == |multiset(q.data)| == |q.data|;
  }

  /** Nor the set of elements. */
  lemma SortKeepsSet<T>(q: QueryBuilder<T>, compareFn: (T, T) -> int)
    ensures AsSet(Sort(q, compareFn)) == AsSet(q)
  {
    var sq := Sort(q, compareFn);
    forall x | x in AsSet(sq) ensures x in AsSet(q) {
      assert x in multiset(sq.data);
      var i :| 0 <= i < |q.data| && q.data[i] == x;
    }
    forall x | x in AsSet(q) ensures x in AsSet(sq) {
      assert x in multiset(q.data);
      var i :| 0 <= i < |sq.data| && sq.data[i] == x;
    }
  }

  /* ---------------------------------------------------------------------- */
  /* asSet                                                                  */
  /* ---------------------------------------------------------------------- */

  /** asSet is never larger than the list, and is as large exactly when no element repeats. */
  lemma AsSetSize<T>(q: QueryBuilder<T>)
    ensures |AsSet(q)| <= |AsList(q)|
    ensures |AsSet(q)| == |AsList(q)| <==> JsArrays.Distinct(AsList(q))
  {
    JsArrays.SetOfSize(q.data);
  }
}
