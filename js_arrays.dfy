/**
 * The ECMAScript built-ins that the query builder delegates to, over finite
 * sequences: Array.prototype.map, filter, some, every and sort, and the Set
 * and Map constructors. Section numbers are those of ECMA-262, 14th edition
 * (ECMAScript 2023). Map, filter, some, every and the two constructors are
 * written the way the standard describes them, as one pass from index 0
 * upwards. For sort the standard fixes no algorithm; SortStable is an
 * insertion sort chosen here, and StableSortUnique shows that with a
 * consistent comparator every ordered, stable rearrangement is the same
 * sequence, so the choice does not affect the result.
 */
module JsArrays {

  /* ---------------------------------------------------------------------- */
  /* Array.prototype.map (section 23.1.3.21 of ECMA-262)                    */
  /* ---------------------------------------------------------------------- */

  /** The callback results for indices k, k+1, ..., |a|-1, in that order. */
  function MapFrom<T, U>(a: seq<T>, k: nat, f: (T, nat, seq<T>) -> U): (r: seq<U>)
    requires k <= |a|
    ensures |r| == |a| - k
    ensures forall i :: 0 <= i < |r| ==> r[i] == f(a[k + i], k + i, a)
    decreases |a| - k
  {
    if k == |a| then [] else [f(a[k], k, a)] + MapFrom(a, k + 1, f)
  }

  /** `a.map(f)`: the callback sees each element, its index and the whole array. */
  function Map<T, U>(a: seq<T>, f: (T, nat, seq<T>) -> U): (r: seq<U>)
    ensures |r| == |a|
    ensures forall i :: 0 <= i < |a| ==> r[i] == f(a[i], i, a)
  {
    MapFrom(a, 0, f)
  }

  /* ---------------------------------------------------------------------- */
  /* Array.prototype.filter (section 23.1.3.8 of ECMA-262)                  */
  /* ---------------------------------------------------------------------- */

  /** `a.filter(p)`: the elements for which p holds, in their order in a. */
  function Filter<T>(a: seq<T>, p: T -> bool): (r: seq<T>)
    ensures |r| <= |a|
    ensures forall x :: x in r ==> x in a && p(x)
  {
    if a == [] then [] else (if p(a[0]) then [a[0]] else []) + Filter(a[1..], p)
  }

  /** idx lists positions of s, strictly increasing, at which r's elements sit. */
  ghost predicate Embeds<T>(idx: seq<nat>, r: seq<T>, s: seq<T>) {
    && |idx| == |r|
    && (forall i :: 0 <= i < |idx| ==> idx[i] < |s| && r[i] == s[idx[i]])
    && (forall i, j :: 0 <= i < j < |idx| ==> idx[i] < idx[j])
  }

  /** r is an order-preserving subsequence of s. */
  ghost predicate IsSubsequence<T>(r: seq<T>, s: seq<T>) {
    exists idx :: Embeds(idx, r, s)
  }

  /** Every position shifted one to the right. */
  function Shift(idx: seq<nat>): (r: seq<nat>)
    ensures |r| == |idx|
    ensures forall i :: 0 <= i < |idx| ==> r[i] == idx[i] + 1
  {
    if idx == [] then [] else [idx[0] + 1] + Shift(idx[1..])
  }

  /** j is a shifted position exactly when j - 1 was a position. */
  lemma ShiftMember(idx: seq<nat>, j: nat)
    ensures j in Shift(idx) <==> j > 0 && j - 1 in idx
  {
  }

  /** An embedding survives putting an element in front of the larger sequence. */
  lemma EmbedsShift<T>(idx: seq<nat>, r: seq<T>, s: seq<T>, y: T)
    requires Embeds(idx, r, s)
    ensures Embeds(Shift(idx), r, [y] + s)
  {
  }

  /** ... and putting the same element in front of both sequences. */
  lemma EmbedsCons<T>(idx: seq<nat>, r: seq<T>, s: seq<T>, y: T)
    requires Embeds(idx, r, s)
    ensures Embeds([0] + Shift(idx), [y] + r, [y] + s)
  {
    var e := [0] + Shift(idx);
    var sh := Shift(idx);
    var r', s' := [y] + r, [y] + s;
    assert |e| == |r'|;
    forall i | 0 <= i < |e| ensures e[i] < |s'| && r'[i] == s'[e[i]] {
      if i > 0 {
        assert e[i] == sh[i - 1] == idx[i - 1] + 1;
        assert r'[i] == r[i - 1];
      }
    }
    forall i, j | 0 <= i < j < |e| ensures e[i] < e[j] {
      assert e[j] == sh[j - 1] == idx[j - 1] + 1;
      if i > 0 {
        assert e[i] == sh[i - 1] == idx[i - 1] + 1;
      }
    }
  }

  /**
   * The positions that Filter keeps are exactly the positions whose element
   * satisfies p, taken in increasing order.
   */
  lemma {:induction false} FilterPositions<T>(a: seq<T>, p: T -> bool) returns (idx: seq<nat>)
    ensures Embeds(idx, Filter(a, p), a)
    ensures forall j :: 0 <= j < |a| ==> (j in idx <==> p(a[j]))
  {
    if a == [] {
      idx := [];
    } else {
      var rest := FilterPositions(a[1..], p);
      assert a == [a[0]] + a[1..];
      FilterCons(a[0], a[1..], p);
      if p(a[0]) {
        EmbedsCons(rest, Filter(a[1..], p), a[1..], a[0]);
        idx := [0] + Shift(rest);
      } else {
        EmbedsShift(rest, Filter(a[1..], p), a[1..], a[0]);
        idx := Shift(rest);
      }
      forall j | 0 <= j < |a|
        ensures j in idx <==> p(a[j])
      {
        ShiftMember(rest, j);
        if j > 0 {
          assert a[1..][j - 1] == a[j];
        }
      }
    }
  }

  /** Filter keeps every copy of a satisfying element and no copy of the others. */
  lemma {:induction false} FilterMultiset<T>(a: seq<T>, p: T -> bool, x: T)
    ensures multiset(Filter(a, p))[x] == if p(x) then multiset(a)[x] else 0
  {
    if a != [] {
      FilterMultiset(a[1..], p, x);
      assert a == [a[0]] + a[1..];
    }
  }

  /** Filtering a second time by the same predicate removes nothing more. */
  lemma {:induction false} FilterTwice<T>(a: seq<T>, p: T -> bool)
    ensures Filter(Filter(a, p), p) == Filter(a, p)
  {
    if a != [] {
      FilterTwice(a[1..], p);
      var rest := Filter(a[1..], p);
      assert a == [a[0]] + a[1..];
      FilterCons(a[0], a[1..], p);
      if p(a[0]) {
        FilterCons(a[0], rest, p);
      } else {
        assert Filter(a, p) == rest;
      }
    }
  }

  /** Multisets that agree on every element are equal. */
  lemma MultisetExt<T>(m: multiset<T>, n: multiset<T>)
    requires forall x :: m[x] == n[x]
    ensures m == n
  {
  }

  /** The filtered length depends only on the multiset of the input. */
  lemma FilterLengthOfPermutation<T>(a: seq<T>, b: seq<T>, p: T -> bool)
    requires multiset(a) == multiset(b)
    ensures |Filter(a, p)| == |Filter(b, p)|
  {
    var fa, fb := Filter(a, p), Filter(b, p);
    forall x ensures multiset(fa)[x] == multiset(fb)[x] {
      FilterMultiset(a, p, x);
      FilterMultiset(b, p, x);
    }
    MultisetExt(multiset(fa), multiset(fb));
    assert |multiset(fa)| == |fa|;
    assert |multiset(fb)| == |fb|;
  }

  /* ---------------------------------------------------------------------- */
  /* Array.prototype.some and every (23.1.3.29 and 23.1.3.6 of ECMA-262)    */
  /* ---------------------------------------------------------------------- */

  /** `a.some(p)`: scans from index 0 and stops at the first element satisfying p. */
  function Some<T>(a: seq<T>, p: T -> bool): (r: bool)
    ensures r <==> exists i :: 0 <= i < |a| && p(a[i])
  {
    if a == [] then false
    else if p(a[0]) then true
    else
      var rest := Some(a[1..], p);
      assert rest ==> exists i :: 0 < i < |a| && p(a[i]) by {
        if rest {
          var k :| 0 <= k < |a| - 1 && p(a[1..][k]);
          assert p(a[k + 1]);
        }
      }
      assert (exists i :: 0 <= i < |a| && p(a[i])) ==> rest by {
        if exists i :: 0 <= i < |a| && p(a[i]) {
          var k :| 0 <= k < |a| && p(a[k]);
          assert k > 0 && a[1..][k - 1] == a[k];
        }
      }
      rest
  }

  /** `a.every(p)`: scans from index 0 and stops at the first element failing p. */
  function Every<T>(a: seq<T>, p: T -> bool): (r: bool)
    ensures r <==> forall i :: 0 <= i < |a| ==> p(a[i])
  {
    if a == [] then true
    else if !p(a[0]) then false
    else
      var rest := Every(a[1..], p);
      assert rest ==> forall i :: 0 <= i < |a| ==> p(a[i]) by {
        if rest {
          forall i | 0 < i < |a| ensures p(a[i]) {
            assert a[1..][i - 1] == a[i];
          }
        }
      }
      rest
  }

  /* ---------------------------------------------------------------------- */
  /* Array.prototype.sort (section 23.1.3.30 of ECMA-262)                   */
  /* ---------------------------------------------------------------------- */

  /** `cmp` places a no later than b. */
  predicate Le<T>(cmp: (T, T) -> int, a: T, b: T) {
    cmp(a, b) <= 0
  }

  /**
   * The comparator is consistent on the set xs (the standard's "consistent
   * comparator"): a negative result in one direction is a positive one in
   * the other, and Le is transitive. Together these make Le a total preorder
   * on xs. Transitivity is only used where a proof names the two Le facts.
   */
  ghost predicate Consistent<T>(cmp: (T, T) -> int, xs: set<T>) {
    && (forall a, b {:trigger cmp(a, b)} :: a in xs && b in xs ==> (cmp(a, b) < 0 <==> cmp(b, a) > 0))
    && (forall a, b, c {:trigger Le(cmp, a, b), Le(cmp, b, c)} ::
          a in xs && b in xs && c in xs && Le(cmp, a, b) && Le(cmp, b, c) ==> Le(cmp, a, c))
  }

  /** Every earlier element compares at most zero against every later one. */
  ghost predicate Sorted<T>(cmp: (T, T) -> int, s: seq<T>) {
    forall i, j :: 0 <= i < j < |s| ==> cmp(s[i], s[j]) <= 0
  }

  /** The elements that compare equal to z. */
  function SameRank<T>(cmp: (T, T) -> int, z: T): T -> bool {
    y => cmp(y, z) == 0
  }

  /**
   * r keeps the input order of the elements that compare equal: for each
   * element z of s, r lists the elements ranked equal to z as s does.
   */
  ghost predicate Stable<T>(cmp: (T, T) -> int, r: seq<T>, s: seq<T>) {
    forall z :: z in s ==> Filter(r, SameRank(cmp, z)) == Filter(s, SameRank(cmp, z))
  }

  /** x placed just before the first element it compares at most zero against. */
  function Insert<T>(x: T, s: seq<T>, cmp: (T, T) -> int): (r: seq<T>)
    ensures multiset(r) == multiset(s) + multiset{x}
  {
    if s == [] then [x]
    else if cmp(x, s[0]) <= 0 then [x] + s
    else
      assert s == [s[0]] + s[1..];
      [s[0]] + Insert(x, s[1..], cmp)
  }

  /**
   * A stable sort by cmp, written as an insertion sort (the standard leaves
   * the algorithm to the implementation). Each element is inserted in front
   * of all elements ranked equal to it that came after it in the input, so
   * ties keep their input order; with a consistent comparator any stable
   * sort produces this same sequence (StableSortUnique). Every element is
   * passed to cmp: the standard's special placing of undefined elements is
   * not modelled.
   */
  function SortStable<T>(s: seq<T>, cmp: (T, T) -> int): (r: seq<T>)
    ensures multiset(r) == multiset(s)
  {
    if s == [] then []
    else
      assert s == [s[0]] + s[1..];
      Insert(s[0], SortStable(s[1..], cmp), cmp)
  }

  /** Insert adds x and nothing else. */
  lemma InsertMember<T>(x: T, s: seq<T>, cmp: (T, T) -> int, y: T)
    requires y in Insert(x, s, cmp)
    ensures y == x || y in s
  {
  }

  /** Inserting into a sorted sequence keeps it sorted. */
  lemma {:induction false} InsertSorted<T>(x: T, s: seq<T>, cmp: (T, T) -> int, xs: set<T>)
    requires Consistent(cmp, xs)
    requires x in xs && forall y :: y in s ==> y in xs
    requires Sorted(cmp, s)
    ensures Sorted(cmp, Insert(x, s, cmp))
  {
    if s != [] {
      var r := Insert(x, s, cmp);
      if cmp(x, s[0]) <= 0 {
        assert r == [x] + s;
        forall i, j | 0 <= i < j < |r| ensures cmp(r[i], r[j]) <= 0 {
          if i == 0 && j > 1 {
            assert s[0] in xs && s[j - 1] in xs;
            assert Le(cmp, x, s[0]) && Le(cmp, s[0], s[j - 1]);
          }
        }
      } else {
        var t := Insert(x, s[1..], cmp);
        InsertSorted(x, s[1..], cmp, xs);
        assert r == [s[0]] + t;
        assert s[0] in xs;
        forall i, j | 0 <= i < j < |r| ensures cmp(r[i], r[j]) <= 0 {
          if i == 0 {
            InsertMember(x, s[1..], cmp, t[j - 1]);
            if t[j - 1] != x {
              var k :| 0 <= k < |s[1..]| && s[1..][k] == t[j - 1];
              assert s[k + 1] == t[j - 1];
            }
          }
        }
      }
    }
  }

  /** Filter on a sequence given by its first element and the rest. */
  lemma FilterCons<T>(y: T, t: seq<T>, p: T -> bool)
    ensures Filter([y] + t, p) == (if p(y) then [y] else []) + Filter(t, p)
  {
  }

  /** Two elements that p does not both keep can trade places under Filter. */
  lemma FilterSwap<T>(y: T, x: T, u: seq<T>, w: seq<T>, p: T -> bool)
    requires !(p(y) && p(x))
    requires Filter(u, p) == Filter([x] + w, p)
    ensures Filter([y] + u, p) == Filter([x] + ([y] + w), p)
  {
    FilterCons(y, u, p);
    FilterCons(x, w, p);
    FilterCons(x, [y] + w, p);
    FilterCons(y, w, p);
  }

  /** Two elements of the same rank as z never compare positive against each other. */
  lemma NotBothOfRank<T>(cmp: (T, T) -> int, xs: set<T>, x: T, y: T, z: T)
    requires Consistent(cmp, xs)
    requires x in xs && y in xs && z in xs
    requires cmp(x, y) > 0
    ensures !(SameRank(cmp, z)(y) && SameRank(cmp, z)(x))
  {
    if SameRank(cmp, z)(y) && SameRank(cmp, z)(x) {
      assert cmp(y, z) == 0 && cmp(z, y) == 0;
      assert Le(cmp, x, z) && Le(cmp, z, y);
    }
  }

  /** Dropping the first element keeps a sequence sorted. */
  lemma SortedTail<T>(cmp: (T, T) -> int, s: seq<T>, xs: set<T>)
    requires s != [] && Sorted(cmp, s) && forall y :: y in s ==> y in xs
    ensures Sorted(cmp, s[1..]) && forall y :: y in s[1..] ==> y in xs
  {
  }

  /** Inserting x into sorted s ranks x before the equally-ranked elements of s. */
  lemma {:induction false} InsertStable<T>(x: T, s: seq<T>, cmp: (T, T) -> int, xs: set<T>, z: T)
    requires Consistent(cmp, xs)
    requires x in xs && z in xs && forall y :: y in s ==> y in xs
    requires Sorted(cmp, s)
    ensures Filter(Insert(x, s, cmp), SameRank(cmp, z)) == Filter([x] + s, SameRank(cmp, z))
  {
    var e := SameRank(cmp, z);
    if s != [] && cmp(x, s[0]) > 0 {
      SortedTail(cmp, s, xs);
      InsertStable(x, s[1..], cmp, xs, z);
      assert s[0] in xs;
      NotBothOfRank(cmp, xs, x, s[0], z);
      assert Insert(x, s, cmp) == [s[0]] + Insert(x, s[1..], cmp);
      FilterSwap(s[0], x, Insert(x, s[1..], cmp), s[1..], e);
      assert [x] + ([s[0]] + s[1..]) == [x] + s;
    } else {
      assert Insert(x, s, cmp) == [x] + s;
    }
  }

  /** SortStable orders its result by a comparator consistent on the elements. */
  lemma {:induction false} SortStableSorted<T>(s: seq<T>, cmp: (T, T) -> int, xs: set<T>)
    requires Consistent(cmp, xs)
    requires forall y :: y in s ==> y in xs
    ensures Sorted(cmp, SortStable(s, cmp))
  {
    if s != [] {
      SortStableSorted(s[1..], cmp, xs);
      var t := SortStable(s[1..], cmp);
      forall y | y in t ensures y in xs {
        assert y in multiset(t);
      }
      InsertSorted(s[0], t, cmp, xs);
    }
  }

  /** SortStable keeps the input order within each rank. */
  lemma {:induction false} SortStableStable<T>(s: seq<T>, cmp: (T, T) -> int, xs: set<T>, z: T)
    requires Consistent(cmp, xs)
    requires z in xs && forall y :: y in s ==> y in xs
    ensures Filter(SortStable(s, cmp), SameRank(cmp, z)) == Filter(s, SameRank(cmp, z))
  {
    if s != [] {
      var e := SameRank(cmp, z);
      var t := SortStable(s[1..], cmp);
      SortStableSorted(s[1..], cmp, xs);
      SortStableStable(s[1..], cmp, xs, z);
      forall y | y in t ensures y in xs {
        assert y in multiset(t);
      }
      InsertStable(s[0], t, cmp, xs, z);
      assert ([s[0]] + t)[1..] == t;
    }
  }

  /** Two elements each ranked no later than the other are ranked equal. */
  lemma BothLeSameRank<T>(cmp: (T, T) -> int, xs: set<T>, a: T, b: T)
    requires Consistent(cmp, xs) && a in xs && b in xs
    requires cmp(a, b) <= 0 && cmp(b, a) <= 0
    ensures cmp(a, b) == 0 && cmp(b, a) == 0
  {
  }

  /** The first element of a sorted sequence is ranked no later than any of its elements. */
  lemma SortedHeadFirst<T>(cmp: (T, T) -> int, xs: set<T>, r: seq<T>, y: T)
    requires Consistent(cmp, xs) && forall v :: v in r ==> v in xs
    requires Sorted(cmp, r) && y in r
    ensures cmp(r[0], y) <= 0
  {
  }

  /** Sorted sequences with the same elements start with elements of the same rank. */
  lemma HeadsOfSameRank<T>(r1: seq<T>, r2: seq<T>, cmp: (T, T) -> int, xs: set<T>)
    requires Consistent(cmp, xs)
    requires forall y :: y in r1 ==> y in xs
    requires forall y :: y in r2 ==> y in xs
    requires r1 != [] && multiset(r1) == multiset(r2)
    requires Sorted(cmp, r1) && Sorted(cmp, r2)
    ensures r2 != [] && SameRank(cmp, r1[0])(r1[0]) && SameRank(cmp, r1[0])(r2[0])
  {
    var a := r1[0];
    assert a in multiset(r2);
    var b := r2[0];
    assert b in multiset(r1);
    SortedHeadFirst(cmp, xs, r1, b);
    SortedHeadFirst(cmp, xs, r2, a);
    BothLeSameRank(cmp, xs, a, b);
    assert a in r1;
  }

  /** Two sequences that filter alike and start with kept elements start alike. */
  lemma FirstKept<T>(a: T, b: T, t1: seq<T>, t2: seq<T>, p: T -> bool)
    requires p(a) && p(b)
    requires Filter([a] + t1, p) == Filter([b] + t2, p)
    ensures a == b
  {
  }

  /** Removing the same first element keeps both agreements. */
  lemma SameTails<T>(a: T, t1: seq<T>, t2: seq<T>, cmp: (T, T) -> int, xs: set<T>)
    requires multiset([a] + t1) == multiset([a] + t2)
    requires forall z :: z in xs ==> Filter([a] + t1, SameRank(cmp, z)) == Filter([a] + t2, SameRank(cmp, z))
    ensures multiset(t1) == multiset(t2)
    ensures forall z :: z in xs ==> Filter(t1, SameRank(cmp, z)) == Filter(t2, SameRank(cmp, z))
  {
    assert multiset([a] + t1) == multiset{a} + multiset(t1);
    assert multiset([a] + t2) == multiset{a} + multiset(t2);
    assert forall y :: multiset(t1)[y] == multiset([a] + t1)[y] - multiset{a}[y];
    assert forall y :: multiset(t2)[y] == multiset([a] + t2)[y] - multiset{a}[y];
    MultisetExt(multiset(t1), multiset(t2));
    forall z | z in xs ensures Filter(t1, SameRank(cmp, z)) == Filter(t2, SameRank(cmp, z)) {
      var e := SameRank(cmp, z);
      assert Filter([a] + t1, e) == Filter([a] + t2, e);
      FilterCons(a, t1, e);
      FilterCons(a, t2, e);
      var h := if e(a) then [a] else [];
      assert (h + Filter(t1, e))[|h|..] == Filter(t1, e);
      assert (h + Filter(t2, e))[|h|..] == Filter(t2, e);
    }
  }

  /**
   * Two sorted sequences with the same elements that agree on the order of
   * every class of equally-ranked elements are the same sequence: a stable
   * sort has one possible result.
   */
  lemma {:induction false} StableSortUnique<T>(r1: seq<T>, r2: seq<T>, cmp: (T, T) -> int, xs: set<T>)
    requires Consistent(cmp, xs)
    requires forall y :: y in r1 ==> y in xs
    requires forall y :: y in r2 ==> y in xs
    requires multiset(r1) == multiset(r2)
    requires Sorted(cmp, r1) && Sorted(cmp, r2)
    requires forall z :: z in xs ==> Filter(r1, SameRank(cmp, z)) == Filter(r2, SameRank(cmp, z))
    ensures r1 == r2
    decreases |r1|
  {
    if r1 == [] {
      assert |r2| == |multiset(r2)| == 0;
    } else {
      HeadsOfSameRank(r1, r2, cmp, xs);
      assert r1 == [r1[0]] + r1[1..] && r2 == [r2[0]] + r2[1..];
      assert r1[0] in xs;
      FirstKept(r1[0], r2[0], r1[1..], r2[1..], SameRank(cmp, r1[0]));
      var a := r1[0];
      assert r1 == [a] + r1[1..] && r2 == [a] + r2[1..];
      SameTails(a, r1[1..], r2[1..], cmp, xs);
      SortedTail(cmp, r1, xs);
      SortedTail(cmp, r2, xs);
      StableSortUnique(r1[1..], r2[1..], cmp, xs);
    }
  }

  /* ---------------------------------------------------------------------- */
  /* The Set and Map constructors (24.2.1.1 and 24.1.1.1 of ECMA-262)       */
  /* ---------------------------------------------------------------------- */

  /** `new Set(a)`: adds the elements one by one; a repeated element is added once. */
  function SetOf<T>(a: seq<T>): (r: set<T>)
    ensures forall x :: x in r ==> x in a
    ensures forall i :: 0 <= i < |a| ==> a[i] in r
  {
    if a == [] then {} else {a[0]} + SetOf(a[1..])
  }

  /** No element occurs twice. */
  ghost predicate Distinct<T>(a: seq<T>) {
    forall i, j :: 0 <= i < j < |a| ==> a[i] != a[j]
  }

  /** The set of a list is no larger than the list, and as large exactly when no element repeats. */
  lemma {:induction false} SetOfSize<T>(a: seq<T>)
    ensures |SetOf(a)| <= |a|
    ensures |SetOf(a)| == |a| <==> Distinct(a)
  {
    if a != [] {
      SetOfSize(a[1..]);
      var rest := SetOf(a[1..]);
      if a[0] in a[1..] {
        assert SetOf(a) == rest;
        var k :| 0 <= k < |a[1..]| && a[1..][k] == a[0];
        assert a[k + 1] == a[0];
      } else {
        assert |SetOf(a)| == |rest| + 1;
        if Distinct(a[1..]) {
          forall i, j | 0 <= i < j < |a| ensures a[i] != a[j] {
            if i == 0 {
              assert a[j] == a[1..][j - 1];
            } else {
              assert a[i] == a[1..][i - 1] && a[j] == a[1..][j - 1];
            }
          }
        }
        if Distinct(a) {
          forall i, j | 0 <= i < j < |a[1..]| ensures a[1..][i] != a[1..][j] {
            assert a[1..][i] == a[i + 1] && a[1..][j] == a[j + 1];
          }
        }
      }
    }
  }

  /**
   * `new Map(entries)`: adds the entries in order, so a key that occurs more
   * than once ends up bound to the value of its last entry.
   */
  function MapOfEntries<K, V>(entries: seq<(K, V)>): (r: map<K, V>)
    ensures forall i :: 0 <= i < |entries| ==> entries[i].0 in r
    ensures forall k :: k in r ==> exists i :: 0 <= i < |entries| && entries[i].0 == k
    ensures forall i :: 0 <= i < |entries| && (forall j :: i < j < |entries| ==> entries[j].0 != entries[i].0)
              ==> r[entries[i].0] == entries[i].1
  {
    if entries == [] then map[]
    else
      var n := |entries| - 1;
      var init := entries[..n];
      var prev := MapOfEntries(init);
      assert forall i :: 0 <= i < n ==> init[i] == entries[i];
      prev[entries[n].0 := entries[n].1]
  }
}
