/**
 * BookService: the catalogue operations over the document store. Add and Save load
 * and/or overwrite the whole document; Get, Search and GetSorted load it and transform
 * the records in memory, and never write.
 */
module BookService {
  import opened Wrappers
  import opened Models
  import opened Mapper
  import opened OrdinalIgnoreCase
  import opened Sequences
  import opened BookOrdering
  import opened BookRepository

  /** The argument exceptions the service throws, with the offending parameter's name. */
  datatype Error =
    | ArgumentNull(paramName: string)   // ArgumentNullException
    | Argument(paramName: string)       // ArgumentException: empty or white space only

  /** The `Where` condition: the title, and only the title, contains `key` at some offset, ignoring case. */
  function TitleContains(key: string): (p: Book -> bool)
    ensures forall b :: p(b) <==> exists at: nat :: MatchesAt(b.title, key, at)
    ensures forall b1: Book, b2: Book :: b1.title == b2.title ==> p(b1) == p(b2)
  {
    (b: Book) => ContainsIgnoreCase(b.title, key)
  }

  /** `Where(b => b.Title.Contains(key, StringComparison.OrdinalIgnoreCase))`. */
  function SearchByTitle(books: seq<Book>, key: string): (r: seq<Book>)
    ensures |r| <= |books|
    ensures forall b :: b in r <==> b in books && ContainsIgnoreCase(b.title, key)
  {
    Filter(books, TitleContains(key))
  }

  /** Search keeps the loaded order: matches from an earlier part come before matches from a later one. */
  lemma SearchKeepsOrder(front: seq<Book>, back: seq<Book>, key: string)
    ensures SearchByTitle(front + back, key) == SearchByTitle(front, key) + SearchByTitle(back, key)
  {
    FilterConcat(front, back, TitleContains(key));
  }

  /** Search only drops books: every match occurs in the loaded sequence at least as often. */
  lemma SearchOnlyDrops(books: seq<Book>, key: string)
    ensures multiset(SearchByTitle(books, key)) <= multiset(books)
  {
    FilterSubmultiset(books, TitleContains(key));
  }

  /** The case of the key does not matter. */
  lemma SearchIgnoresKeyCase(books: seq<Book>, key: string)
    ensures SearchByTitle(books, FoldString(key)) == SearchByTitle(books, key)
  {
    forall b ensures TitleContains(FoldString(key))(b) == TitleContains(key)(b) {
      ContainsIgnoresCase(b.title, key);
      ContainsIgnoresCase(b.title, FoldString(key));
      FoldStringIdempotent(key);
    }
    FilterSamePredicate(books, TitleContains(FoldString(key)), TitleContains(key));
  }

  class BookService {
    const repository: BookStore

    /** The service over its repository, as the internal constructor stores it (BookService.cs:13-16). */
    constructor (repository: BookStore)
      ensures this.repository == repository
    {
      this.repository := repository;
    }

    /** Add: reject a null book before touching the store; otherwise load, append the mapped book, save. */
    method Add(book: Option<Book>) returns (r: Outcome<Error>)
      modifies repository
      ensures book.None? ==> r == Fail(ArgumentNull("book")) && unchanged(repository)
      ensures book.Some? ==> r == Pass && repository.fileExists
      ensures book.Some? ==> repository.contents == old(repository.Stored()) + [ToDto(book.value)]
    {
      if book.None? {
        return Fail(ArgumentNull("book"));
      }
      var existingBooks := repository.Load();
      var bookDto := ToDto(book.value);
      var updatedBooks := existingBooks + [bookDto];
      repository.Save(updatedBooks);
      return Pass;
    }

    /** Get: every stored record mapped to a Book, in document order. */
    method Get() returns (books: seq<Book>)
      ensures books == ToBooks(repository.Stored())
    {
      var booksFromRepository := repository.Load();
      books := ToBooks(booksFromRepository);
    }

    /** Save: reject a null collection; otherwise overwrite the store with the mapped books, even when there are none. */
    method Save(books: Option<seq<Book>>) returns (r: Outcome<Error>)
      modifies repository
      ensures books.None? ==> r == Fail(ArgumentNull("books")) && unchanged(repository)
      ensures books.Some? ==> r == Pass && repository.fileExists
      ensures books.Some? ==> repository.contents == ToDtos(books.value)
    {
      if books.None? {
        return Fail(ArgumentNull("books"));
      }
      var bookForSave := ToDtos(books.value);
      repository.Save(bookForSave);
      return Pass;
    }

    /** Search: reject a null, empty or white-space key; otherwise the loaded books whose title contains it. */
    method Search(searchKey: Option<string>) returns (r: Result<seq<Book>, Error>)
      ensures searchKey.None? ==> r == Err(ArgumentNull("searchKey"))
      ensures searchKey.Some? && IsNullOrWhiteSpace(searchKey) ==> r == Err(Argument("searchKey"))
      ensures !IsNullOrWhiteSpace(searchKey) ==>
        r == Ok(SearchByTitle(ToBooks(repository.Stored()), searchKey.value))
    {
      if searchKey.None? {
        return Err(ArgumentNull("searchKey"));
      }
      if IsNullOrWhiteSpace(searchKey) {
        return Err(Argument("searchKey"));
      }
      var books := Get();
      var filteredBooks := SearchByTitle(books, searchKey.value);
      return Ok(filteredBooks);
    }

    /** GetSorted: the loaded books ordered by author, then title, both ignoring case. */
    method GetSorted() returns (books: seq<Book>)
      ensures books == SortByAuthorThenTitle(ToBooks(repository.Stored()))
    {
      var loaded := Get();
      books := SortByAuthorThenTitle(loaded);
    }
  }

  /** After Add, Get returns what it returned before, followed by the added book. */
  method AddThenGet(service: BookService, book: Book) returns (before: seq<Book>, after: seq<Book>)
    modifies service.repository
    ensures after == before + [book]
  {
    before := service.Get();
    var _ := service.Add(Some(book));
    after := service.Get();
    ToBooksAppend(old(service.repository.Stored()), ToDto(book));
  }

  /** After Save, Get returns exactly the saved books, also when there are none. */
  method SaveThenGet(service: BookService, books: seq<Book>) returns (after: seq<Book>)
    modifies service.repository
    ensures after == books
  {
    var _ := service.Save(Some(books));
    after := service.Get();
    BooksRoundTrip(books);
  }
}
