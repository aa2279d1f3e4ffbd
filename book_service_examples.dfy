/**
 * The concrete catalogues of the service's unit tests, proved over the model: a search
 * for "Great" and a sort of four books by two authors.
 */
module BookServiceExamples {
  import opened Wrappers
  import opened Models
  import opened Mapper
  import opened OrdinalIgnoreCase
  import opened Sequences
  import opened StableSort
  import opened BookOrdering
  import opened BookRepository
  import opened BookService

  function Gatsby(): Book { Book("The Great Gatsby", "Fitzgerald", 180) }
  function Expectations(): Book { Book("Great Expectations", "Dickens", 544) }
  function Orwell(): Book { Book("1984", "Orwell", 328) }

  function Ugly(): Book { Book("The Ugly Duckling", "Andersen", 50) }
  function Mermaid(): Book { Book("The Little Mermaid", "Andersen", 60) }
  function Misery(): Book { Book("Misery", "King", 320) }
  function Carrie(): Book { Book("Carrie", "King", 199) }

  // ---------------------------------------------------------------- search

  lemma SearchThree(b1: Book, b2: Book, b3: Book, key: string)
    requires ContainsIgnoreCase(b1.title, key) && ContainsIgnoreCase(b2.title, key)
    requires !ContainsIgnoreCase(b3.title, key)
    ensures SearchByTitle([b1, b2, b3], key) == [b1, b2]
  {
    var p := TitleContains(key);
    FilterCons(b3, [], p);
    FilterCons(b2, [b3], p);
    FilterCons(b1, [b2, b3], p);
    assert [b1] + [b2, b3] == [b1, b2, b3];
    assert [b2] + [b3] == [b2, b3];
  }

  lemma TooShortNeverContains(s: string, key: string)
    requires |s| < |key|
    ensures !ContainsIgnoreCase(s, key)
  {
  }

  lemma GatsbyMatches()
    ensures ContainsIgnoreCase(Gatsby().title, "Great")
  {
    ContainsAt(Gatsby().title, "Great", 4);
  }

  lemma ExpectationsMatches()
    ensures ContainsIgnoreCase(Expectations().title, "Great")
  {
    ContainsAt(Expectations().title, "Great", 0);
  }

  lemma SearchGreat()
    ensures SearchByTitle([Gatsby(), Expectations(), Orwell()], "Great") == [Gatsby(), Expectations()]
  {
    GatsbyMatches();
    ExpectationsMatches();
    TooShortNeverContains(Orwell().title, "Great");
    SearchThree(Gatsby(), Expectations(), Orwell(), "Great");
  }

  /** Search_FindsBooksByTitle: the two titles containing "Great", in stored order. */
  method SearchFindsBooksByTitle() returns (result: seq<Book>)
    ensures result == [Gatsby(), Expectations()]
  {
    var books := [Gatsby(), Expectations(), Orwell()];
    var key := "Great";
    assert !IsWhiteSpace(key[0]);
    var store := new BookStore.WithDocument(ToDtos(books));
    var service := new BookService(store);
    var r := service.Search(Some(key));
    BooksRoundTrip(books);
    SearchGreat();
    result := r.value;
  }

  // ---------------------------------------------------------------- sort

  lemma AndersenBeforeKing(a: Book, k: Book)
    requires a.author == "Andersen" && k.author == "King"
    ensures AuthorTitleLe(a, k)
  {
    assert FoldString("Andersen") == "ANDERSEN";
    assert FoldString("King") == "KING";
  }

  lemma CarrieBeforeMisery()
    ensures !AuthorTitleLe(Misery(), Carrie())
  {
    assert FoldString("Misery") == "MISERY";
    assert FoldString("Carrie") == "CARRIE";
  }

  lemma LittleBeforeUgly(u: Book, m: Book)
    requires u.author == m.author
    requires |u.title| >= 5 && u.title[..5] == "The U"
    requires |m.title| >= 5 && m.title[..5] == "The L"
    ensures !AuthorTitleLe(u, m)
  {
    var fu, fm := FoldString(u.title), FoldString(m.title);
    forall k | 0 <= k < 4
      ensures fu[k] == fm[k]
    {
      assert u.title[k] == u.title[..5][k] == m.title[..5][k] == m.title[k];
    }
    assert fu[..4] == fm[..4];
    assert u.title[4] == u.title[..5][4] == 'U';
    assert m.title[4] == m.title[..5][4] == 'L';
    LexLeFirstDifference(fu, fm, 4);
  }

  lemma SortFour(a1: Book, a2: Book, k1: Book, k2: Book)
    requires !AuthorTitleLe(k1, k2) && !AuthorTitleLe(a1, a2)
    requires AuthorTitleLe(a1, k2) && AuthorTitleLe(a2, k2)
    ensures SortByAuthorThenTitle([a1, a2, k1, k2]) == [a2, a1, k2, k1]
  {
    var le := AuthorTitleLe;
    calc {
      Sort([a1, a2, k1, k2], le);
      { assert [a1, a2, k1, k2][1..] == [a2, k1, k2]; }
      Insert(a1, Sort([a2, k1, k2], le), le);
      { assert [a2, k1, k2][1..] == [k1, k2]; }
      Insert(a1, Insert(a2, Sort([k1, k2], le), le), le);
      { assert [k1, k2][1..] == [k2]; }
      Insert(a1, Insert(a2, Insert(k1, Sort([k2], le), le), le), le);
      Insert(a1, Insert(a2, Insert(k1, [k2], le), le), le);
      Insert(a1, Insert(a2, [k2, k1], le), le);
      Insert(a1, [a2, k2, k1], le);
      { assert [a2, k2, k1][1..] == [k2, k1]; }
      [a2] + Insert(a1, [k2, k1], le);
      [a2, a1, k2, k1];
    }
  }

  lemma SortAndersenKing()
    ensures SortByAuthorThenTitle([Ugly(), Mermaid(), Misery(), Carrie()])
         == [Mermaid(), Ugly(), Carrie(), Misery()]
  {
    CarrieBeforeMisery();
    LittleBeforeUgly(Ugly(), Mermaid());
    AndersenBeforeKing(Mermaid(), Carrie());
    AndersenBeforeKing(Ugly(), Carrie());
    SortFour(Ugly(), Mermaid(), Misery(), Carrie());
  }

  /** GetSorted_SortsByAuthorThenTitle: Andersen before King, and titles ascending within each author. */
  method GetSortedSortsByAuthorThenTitle() returns (result: seq<Book>)
    ensures result == [Mermaid(), Ugly(), Carrie(), Misery()]
  {
    var books := [Ugly(), Mermaid(), Misery(), Carrie()];
    var store := new BookStore.WithDocument(ToDtos(books));
    var service := new BookService(store);
    result := service.GetSorted();
    BooksRoundTrip(books);
    SortAndersenKing();
  }
}
