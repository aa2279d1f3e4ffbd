/**
 * The document store behind IBookRepository. The XML file is abstracted to whether it
 * exists and the records it holds; serialization is assumed to give back exactly the
 * records that were written.
 */
module BookRepository {
  import opened Models

  class BookStore {
    /** Whether the document file exists. */
    var fileExists: bool
    /** The records the document holds, in document order. */
    var contents: seq<BookDto>

    /** An `XmlBookRepository` whose document file does not exist yet. */
    constructor ()
      ensures !fileExists && contents == []
    {
      fileExists, contents := false, [];
    }

    /** A store whose document already holds `books`, as a unit test's repository set up to load them. */
    constructor WithDocument(books: seq<BookDto>)
      ensures fileExists && contents == books
    {
      fileExists, contents := true, books;
    }

    /** What Load returns in the current state. */
    function Stored(): seq<BookDto>
      reads this
    {
      if fileExists then contents else []
    }

    /** Load: no records while the file does not exist, otherwise every record in document order. */
    method Load() returns (books: seq<BookDto>)
      ensures !fileExists ==> books == []
      ensures fileExists ==> books == contents
    {
      if !fileExists {
        return [];
      }
      books := contents;
    }

    /** Save: the document is created or overwritten with exactly `books`. */
    method Save(books: seq<BookDto>)
      modifies this
      ensures fileExists && contents == books
    {
      fileExists, contents := true, books;
    }
  }
}
