/**
 * The order `GetSorted` produces: `OrderBy(b => b.Author, StringComparer.OrdinalIgnoreCase)
 * .ThenBy(b => b.Title, StringComparer.OrdinalIgnoreCase)`. LINQ orders stably, so books
 * whose author and title both compare equal keep their relative order.
 */
module BookOrdering {
  import opened Models
  import opened OrdinalIgnoreCase
  import opened Sequences
  import opened StableSort

  /**
   * `a` may precede `b`: the author decides, ignoring case, and the title, ignoring case,
   * decides only between books whose authors compare equal.
   */
  predicate AuthorTitleLe(a: Book, b: Book): (r: bool)
    ensures r ==> LessOrEqualIgnoreCase(a.author, b.author)
    ensures !LessOrEqualIgnoreCase(b.author, a.author) ==> r
    ensures EqualsIgnoreCase(a.author, b.author) ==> (r <==> LessOrEqualIgnoreCase(a.title, b.title))
  {
    LessOrEqualIgnoreCaseTotal(a.author, b.author);
    if EqualsIgnoreCase(a.author, b.author) then LessOrEqualIgnoreCase(a.title, b.title)
    else LessOrEqualIgnoreCase(a.author, b.author)
  }

  /** Both comparers return 0: author and title are equal ignoring case. */
  predicate SameSortKey(a: Book, b: Book) {
    EqualsIgnoreCase(a.author, b.author) && EqualsIgnoreCase(a.title, b.title)
  }

  /** The books whose sort key is that of `k`. */
  function SameSortKeyAs(k: Book): Book -> bool {
    (b: Book) => SameSortKey(b, k)
  }

  lemma AuthorTitleLeTotal(a: Book, b: Book)
    ensures AuthorTitleLe(a, b) || AuthorTitleLe(b, a)
  {
    LessOrEqualIgnoreCaseTotal(a.author, b.author);
    LessOrEqualIgnoreCaseTotal(a.title, b.title);
  }

  lemma AuthorTitleLeTransitive(a: Book, b: Book, c: Book)
    requires AuthorTitleLe(a, b) && AuthorTitleLe(b, c)
    ensures AuthorTitleLe(a, c)
  {
    LessOrEqualIgnoreCaseBoth(a.author, b.author);
    LessOrEqualIgnoreCaseBoth(b.author, c.author);
    LessOrEqualIgnoreCaseBoth(a.author, c.author);
    if EqualsIgnoreCase(a.author, b.author) && EqualsIgnoreCase(b.author, c.author) {
      LessOrEqualIgnoreCaseTransitive(a.title, b.title, c.title);
    } else if EqualsIgnoreCase(a.author, b.author) {
      assert FoldString(a.author) == FoldString(b.author);
    } else if EqualsIgnoreCase(b.author, c.author) {
      assert FoldString(b.author) == FoldString(c.author);
    } else {
      LessOrEqualIgnoreCaseTransitive(a.author, b.author, c.author);
    }
  }

  /** Each may precede the other exactly when the two sort keys are equal. */
  lemma AuthorTitleLeBoth(a: Book, b: Book)
    ensures (AuthorTitleLe(a, b) && AuthorTitleLe(b, a)) <==> SameSortKey(a, b)
  {
    LessOrEqualIgnoreCaseBoth(a.author, b.author);
    LessOrEqualIgnoreCaseBoth(a.title, b.title);
  }

  lemma AuthorTitleLeIsTotalPreorder()
    ensures TotalPreorder(AuthorTitleLe)
  {
    forall a, b ensures AuthorTitleLe(a, b) || AuthorTitleLe(b, a) {
      AuthorTitleLeTotal(a, b);
    }
    forall a, b, c | AuthorTitleLe(a, b) && AuthorTitleLe(b, c) ensures AuthorTitleLe(a, c) {
      AuthorTitleLeTransitive(a, b, c);
    }
  }

  /** The tie classes of the order are exactly the classes of equal sort keys. */
  lemma SameSortKeyIsTie(k: Book)
    ensures forall b :: SameSortKeyAs(k)(b) == TiedWith(k, AuthorTitleLe)(b)
    ensures TiedUnder(SameSortKeyAs(k), AuthorTitleLe)
  {
    forall b ensures SameSortKeyAs(k)(b) == TiedWith(k, AuthorTitleLe)(b) {
      AuthorTitleLeBoth(k, b);
      AuthorTitleLeBoth(b, k);
    }
    AuthorTitleLeIsTotalPreorder();
    TiedWithIsTied(k, AuthorTitleLe);
  }

  /** `GetSorted`'s ordering of the books it loaded. */
  function SortByAuthorThenTitle(books: seq<Book>): (r: seq<Book>)
    ensures |r| == |books|
    ensures forall b :: b in r <==> b in books
  {
    Sort(books, AuthorTitleLe)
  }

  /** The result holds the same books, each as often as before. */
  lemma SortedIsPermutation(books: seq<Book>)
    ensures multiset(SortByAuthorThenTitle(books)) == multiset(books)
  {
    SortPermutes(books, AuthorTitleLe);
  }

  /** Every book may precede every later one: authors ascend, and titles ascend where authors are equal. */
  lemma SortedByAuthorThenTitle(books: seq<Book>)
    ensures forall i, j :: 0 <= i < j < |books| ==>
      AuthorTitleLe(SortByAuthorThenTitle(books)[i], SortByAuthorThenTitle(books)[j])
  {
    AuthorTitleLeIsTotalPreorder();
    SortIsSorted(books, AuthorTitleLe);
  }

  /** Stability: the books sharing any one sort key come out in their original order. */
  lemma SortedIsStable(books: seq<Book>, k: Book)
    ensures Filter(SortByAuthorThenTitle(books), SameSortKeyAs(k)) == Filter(books, SameSortKeyAs(k))
  {
    SameSortKeyIsTie(k);
    SortIsStable(books, AuthorTitleLe, SameSortKeyAs(k));
  }

  /** Any other ordered and stable rearrangement is the same sequence, so the sorting algorithm does not matter. */
  lemma SortedIsUnique(books: seq<Book>, r: seq<Book>)
    requires forall i, j :: 0 <= i < j < |r| ==> AuthorTitleLe(r[i], r[j])
    requires forall k :: Filter(r, SameSortKeyAs(k)) == Filter(books, SameSortKeyAs(k))
    ensures r == SortByAuthorThenTitle(books)
  {
    AuthorTitleLeIsTotalPreorder();
    forall k ensures Filter(r, TiedWith(k, AuthorTitleLe)) == Filter(books, TiedWith(k, AuthorTitleLe)) {
      SameSortKeyIsTie(k);
      FilterSamePredicate(r, SameSortKeyAs(k), TiedWith(k, AuthorTitleLe));
      FilterSamePredicate(books, SameSortKeyAs(k), TiedWith(k, AuthorTitleLe));
    }
    SortIsTheStableSort(books, r, AuthorTitleLe);
  }
}
