/** Field-by-field copying between Book and BookDto, one record and a whole collection at a time. */
module Mapper {
  import opened Models

  /** Mapper.Map(BookDto): a Book with the DTO's title, author and pages. */
  function ToBook(dto: BookDto): (b: Book)
    ensures b.title == dto.title && b.author == dto.author && b.pages == dto.pages
  {
    Book(dto.title, dto.author, dto.pages)
  }

  /** Mapper.Map(Book): a BookDto with the book's title, author and pages. */
  function ToDto(book: Book): (d: BookDto)
    ensures d.title == book.title && d.author == book.author && d.pages == book.pages
  {
    BookDto(book.title, book.author, book.pages)
  }

  lemma DtoRoundTrip(dto: BookDto)
    ensures ToDto(ToBook(dto)) == dto
  {
  }

  lemma BookRoundTrip(book: Book)
    ensures ToBook(ToDto(book)) == book
  {
  }

  /** `Select(Mapper.Map)` over stored records: same length, same order, each record mapped. */
  function ToBooks(dtos: seq<BookDto>): (books: seq<Book>)
    ensures |books| == |dtos|
    ensures forall i :: 0 <= i < |dtos| ==> books[i] == ToBook(dtos[i])
  {
    if dtos == [] then [] else [ToBook(dtos[0])] + ToBooks(dtos[1..])
  }

  /** `Select(Mapper.Map)` over books about to be stored: same length, same order, each book mapped. */
  function ToDtos(books: seq<Book>): (dtos: seq<BookDto>)
    ensures |dtos| == |books|
    ensures forall i :: 0 <= i < |books| ==> dtos[i] == ToDto(books[i])
  {
    if books == [] then [] else [ToDto(books[0])] + ToDtos(books[1..])
  }

  lemma DtosRoundTrip(dtos: seq<BookDto>)
    ensures ToDtos(ToBooks(dtos)) == dtos
  {
    assert forall i :: 0 <= i < |dtos| ==> ToDtos(ToBooks(dtos))[i] == dtos[i];
  }

  lemma BooksRoundTrip(books: seq<Book>)
    ensures ToBooks(ToDtos(books)) == books
  {
    assert forall i :: 0 <= i < |books| ==> ToBooks(ToDtos(books))[i] == books[i];
  }

  /** Mapping commutes with appending one record: what Add relies on. */
  lemma {:induction false} ToBooksAppend(dtos: seq<BookDto>, dto: BookDto)
    ensures ToBooks(dtos + [dto]) == ToBooks(dtos) + [ToBook(dto)]
  {
    assert forall i :: 0 <= i < |dtos| ==> (dtos + [dto])[i] == dtos[i];
  }
}
