/**
 * A stable sort under a total preorder, the guarantee LINQ gives for `OrderBy`/`ThenBy`:
 * the result is ordered, is a permutation of the input, and elements that the order
 * cannot tell apart keep their input order.
 */
module StableSort {
  import opened Sequences

  /** `le` is total and transitive, as a comparer's "compares at most 0" must be. */
  ghost predicate TotalPreorder<T(!new)>(le: (T, T) -> bool) {
    && (forall a, b :: le(a, b) || le(b, a))
    && (forall a, b, c :: le(a, b) && le(b, c) ==> le(a, c))
  }

  /** Every earlier element may precede every later one. */
  predicate Sorted<T>(s: seq<T>, le: (T, T) -> bool) {
    forall i, j :: 0 <= i < j < |s| ==> le(s[i], s[j])
  }

  /** `p` holds only of elements that `le` cannot tell apart: a class of equal sort keys. */
  ghost predicate TiedUnder<T(!new)>(p: T -> bool, le: (T, T) -> bool) {
    forall a, b :: p(a) && p(b) ==> le(a, b)
  }

  /** Places `x` before the first element of `s` it may precede, after every element that must come before it. */
  function Insert<T>(x: T, s: seq<T>, le: (T, T) -> bool): (r: seq<T>)
    ensures |r| == |s| + 1
    ensures x in r && forall y :: y in s ==> y in r
    ensures forall y :: y in r ==> y == x || y in s
  {
    if s == [] then [x]
    else if le(x, s[0]) then [x] + s
    else [s[0]] + Insert(x, s[1..], le)
  }

  /** Insertion sort: each element is inserted, from the last to the first, into the sorted rest. */
  function Sort<T>(s: seq<T>, le: (T, T) -> bool): (r: seq<T>)
    ensures |r| == |s|
    ensures forall y :: y in r ==> y in s
    ensures forall y :: y in s ==> y in r
  {
    if s == [] then []
    else Insert(s[0], Sort(s[1..], le), le)
  }

  /** Insertion adds exactly `x`. */
  lemma {:induction false} InsertPermutes<T>(x: T, s: seq<T>, le: (T, T) -> bool)
    ensures multiset(Insert(x, s, le)) == multiset(s) + multiset{x}
  {
    if s != [] && !le(x, s[0]) {
      InsertPermutes(x, s[1..], le);
      assert s == [s[0]] + s[1..];
    }
  }

  /** The result is a permutation of the input. */
  lemma {:induction false} SortPermutes<T>(s: seq<T>, le: (T, T) -> bool)
    ensures multiset(Sort(s, le)) == multiset(s)
  {
    if s != [] {
      SortPermutes(s[1..], le);
      InsertPermutes(s[0], Sort(s[1..], le), le);
      assert s == [s[0]] + s[1..];
    }
  }

  lemma {:induction false} InsertSorted<T(!new)>(x: T, s: seq<T>, le: (T, T) -> bool)
    requires TotalPreorder(le) && Sorted(s, le)
    ensures Sorted(Insert(x, s, le), le)
  {
    if s != [] && !le(x, s[0]) {
      var rest := Insert(x, s[1..], le);
      InsertSorted(x, s[1..], le);
      InsertPermutes(x, s[1..], le);
      forall j | 0 <= j < |rest| ensures le(s[0], rest[j]) {
        assert rest[j] in multiset(rest);
        if rest[j] != x {
          assert rest[j] in multiset(s[1..]);
          var k :| 0 <= k < |s[1..]| && s[1..][k] == rest[j];
          assert s[k + 1] == rest[j];
        }
      }
    }
  }

  /** The result is ordered. */
  lemma {:induction false} SortIsSorted<T(!new)>(s: seq<T>, le: (T, T) -> bool)
    requires TotalPreorder(le)
    ensures Sorted(Sort(s, le), le)
  {
    if s != [] {
      SortIsSorted(s[1..], le);
      InsertSorted(s[0], Sort(s[1..], le), le);
    }
  }

  /** Insertion passes only over elements that must precede `x`, so none of them is tied with `x`. */
  lemma {:induction false} InsertStable<T(!new)>(x: T, s: seq<T>, le: (T, T) -> bool, p: T -> bool)
    requires TiedUnder(p, le)
    ensures Filter(Insert(x, s, le), p) == Filter([x] + s, p)
  {
    if s != [] && !le(x, s[0]) {
      assert s == [s[0]] + s[1..];
      InsertStable(x, s[1..], le, p);
      FilterMovePast(x, s[0], s[1..], Insert(x, s[1..], le), p);
    }
  }

  /** Stability: within any class of tied elements, the sort keeps the input order. */
  lemma {:induction false} SortIsStable<T(!new)>(s: seq<T>, le: (T, T) -> bool, p: T -> bool)
    requires TiedUnder(p, le)
    ensures Filter(Sort(s, le), p) == Filter(s, p)
  {
    if s != [] {
      SortIsStable(s[1..], le, p);
      InsertStable(s[0], Sort(s[1..], le), le, p);
      FilterConsSame(s[0], Sort(s[1..], le), s[1..], p);
      assert [s[0]] + s[1..] == s;
    }
  }

  /** The elements that `le` cannot tell apart from `x`. */
  function TiedWith<T>(x: T, le: (T, T) -> bool): T -> bool {
    y => le(x, y) && le(y, x)
  }

  lemma TiedWithIsTied<T(!new)>(x: T, le: (T, T) -> bool)
    requires TotalPreorder(le)
    ensures TiedUnder(TiedWith(x, le), le)
  {
    forall a, b | TiedWith(x, le)(a) && TiedWith(x, le)(b) ensures le(a, b) {
      assert le(a, x) && le(x, b);
    }
  }

  /** An element of a sorted sequence may follow its first element. */
  lemma SortedHead<T>(s: seq<T>, le: (T, T) -> bool, y: T)
    requires Sorted(s, le) && s != [] && y in s && y != s[0]
    ensures le(s[0], y)
  {
    var j :| 0 <= j < |s| && s[j] == y;
  }

  /** Sequences that agree on every class of tied elements are both empty or both not. */
  lemma AgreeEmpty<T(!new)>(r1: seq<T>, r2: seq<T>, le: (T, T) -> bool)
    requires TotalPreorder(le)
    requires forall x :: Filter(r1, TiedWith(x, le)) == Filter(r2, TiedWith(x, le))
    ensures r1 == [] <==> r2 == []
  {
    if r1 != [] {
      assert r1[0] in Filter(r1, TiedWith(r1[0], le));
    }
    if r2 != [] {
      assert r2[0] in Filter(r2, TiedWith(r2[0], le));
    }
  }

  /** Sorted sequences that agree on every class of tied elements start with the same element. */
  lemma AgreeHead<T(!new)>(r1: seq<T>, r2: seq<T>, le: (T, T) -> bool)
    requires TotalPreorder(le) && Sorted(r1, le) && Sorted(r2, le) && r1 != [] && r2 != []
    requires forall x :: Filter(r1, TiedWith(x, le)) == Filter(r2, TiedWith(x, le))
    ensures r1[0] == r2[0]
  {
    var a, b := r1[0], r2[0];
    var ta := TiedWith(a, le);
    assert a in Filter(r1, ta);
    assert b in Filter(r2, TiedWith(b, le));
    if a != b {
      SortedHead(r2, le, a);
      SortedHead(r1, le, b);
    }
    assert r1 == [a] + r1[1..] && r2 == [b] + r2[1..];
    FilterCons(a, r1[1..], ta);
    FilterCons(b, r2[1..], ta);
  }

  /** Removing the same first element keeps the agreement on every class of tied elements. */
  lemma AgreeTail<T(!new)>(r1: seq<T>, r2: seq<T>, le: (T, T) -> bool)
    requires r1 != [] && r2 != [] && r1[0] == r2[0]
    requires forall x :: Filter(r1, TiedWith(x, le)) == Filter(r2, TiedWith(x, le))
    ensures forall x :: Filter(r1[1..], TiedWith(x, le)) == Filter(r2[1..], TiedWith(x, le))
  {
    assert r1 == [r1[0]] + r1[1..] && r2 == [r1[0]] + r2[1..];
    forall x ensures Filter(r1[1..], TiedWith(x, le)) == Filter(r2[1..], TiedWith(x, le)) {
      FilterConsCancel(r1[0], r1[1..], r2[1..], TiedWith(x, le));
    }
  }

  /**
   * Order and stability determine the result: two sorted sequences that agree on every
   * class of tied elements are equal.
   */
  lemma {:induction false} SortedAndStableAgree<T(!new)>(r1: seq<T>, r2: seq<T>, le: (T, T) -> bool)
    requires TotalPreorder(le) && Sorted(r1, le) && Sorted(r2, le)
    requires forall x :: Filter(r1, TiedWith(x, le)) == Filter(r2, TiedWith(x, le))
    ensures r1 == r2
    decreases |r1|
  {
    AgreeEmpty(r1, r2, le);
    if r1 != [] {
      AgreeHead(r1, r2, le);
      AgreeTail(r1, r2, le);
      SortedAndStableAgree(r1[1..], r2[1..], le);
      assert r1 == [r1[0]] + r1[1..] && r2 == [r2[0]] + r2[1..];
    }
  }

  /** Any sorted rearrangement that keeps every class of tied elements in input order is `Sort(s, le)`. */
  lemma SortIsTheStableSort<T(!new)>(s: seq<T>, r: seq<T>, le: (T, T) -> bool)
    requires TotalPreorder(le) && Sorted(r, le)
    requires forall x :: Filter(r, TiedWith(x, le)) == Filter(s, TiedWith(x, le))
    ensures r == Sort(s, le)
  {
    SortIsSorted(s, le);
    forall x ensures Filter(r, TiedWith(x, le)) == Filter(Sort(s, le), TiedWith(x, le)) {
      TiedWithIsTied(x, le);
      SortIsStable(s, le, TiedWith(x, le));
    }
    SortedAndStableAgree(r, Sort(s, le), le);
  }
}
