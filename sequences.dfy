/** Order-preserving selection over sequences, as LINQ's `Where` performs it. */
module Sequences {

  /** The elements of `s` that satisfy `p`, in their original order. */
  function Filter<T(!new)>(s: seq<T>, p: T -> bool): (r: seq<T>)
    ensures |r| <= |s|
    ensures forall i :: 0 <= i < |r| ==> p(r[i])
    ensures forall x :: x in r <==> x in s && p(x)
  {
    if s == [] then []
    else (if p(s[0]) then [s[0]] else []) + Filter(s[1..], p)
  }

  lemma FilterCons<T(!new)>(x: T, s: seq<T>, p: T -> bool)
    ensures Filter([x] + s, p) == (if p(x) then [x] else []) + Filter(s, p)
  {
    assert ([x] + s)[0] == x && ([x] + s)[1..] == s;
  }

  lemma FilterConsSame<T(!new)>(x: T, a: seq<T>, b: seq<T>, p: T -> bool)
    requires Filter(a, p) == Filter(b, p)
    ensures Filter([x] + a, p) == Filter([x] + b, p)
  {
    FilterCons(x, a, p);
    FilterCons(x, b, p);
  }

  lemma FilterConsCancel<T(!new)>(x: T, a: seq<T>, b: seq<T>, p: T -> bool)
    requires Filter([x] + a, p) == Filter([x] + b, p)
    ensures Filter(a, p) == Filter(b, p)
  {
    FilterCons(x, a, p);
    FilterCons(x, b, p);
    if p(x) {
      assert Filter(a, p) == ([x] + Filter(a, p))[1..];
      assert Filter(b, p) == ([x] + Filter(b, p))[1..];
    }
  }

  /**
   * Moving `x` from the front of `rest` to just after `head` leaves the selection unchanged
   * when `x` and `head` are not both selected.
   */
  lemma FilterMovePast<T(!new)>(x: T, head: T, rest: seq<T>, moved: seq<T>, p: T -> bool)
    requires !(p(x) && p(head))
    requires Filter(moved, p) == Filter([x] + rest, p)
    ensures Filter([head] + moved, p) == Filter([x] + ([head] + rest), p)
  {
    FilterCons(head, moved, p);
    FilterCons(head, rest, p);
    FilterCons(x, rest, p);
    FilterCons(x, [head] + rest, p);
  }

  /** Selection distributes over concatenation: what comes from an earlier part stays earlier. */
  lemma {:induction false} FilterConcat<T(!new)>(a: seq<T>, b: seq<T>, p: T -> bool)
    ensures Filter(a + b, p) == Filter(a, p) + Filter(b, p)
  {
    if a != [] {
      assert (a + b)[0] == a[0];
      assert (a + b)[1..] == a[1..] + b;
      FilterConcat(a[1..], b, p);
    } else {
      assert a + b == b;
    }
  }

  /** Selection takes each element at most as often as it occurs. */
  lemma {:induction false} FilterSubmultiset<T(!new)>(s: seq<T>, p: T -> bool)
    ensures multiset(Filter(s, p)) <= multiset(s)
  {
    if s != [] {
      FilterSubmultiset(s[1..], p);
      assert s == [s[0]] + s[1..];
    }
  }

  /** Selections by predicates that agree everywhere are equal. */
  lemma {:induction false} FilterSamePredicate<T(!new)>(s: seq<T>, p: T -> bool, q: T -> bool)
    requires forall x :: p(x) == q(x)
    ensures Filter(s, p) == Filter(s, q)
  {
    if s != [] {
      FilterSamePredicate(s[1..], p, q);
    }
  }
}
