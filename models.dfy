/** The two record types: the caller-facing Book and the persisted BookDto. */
module Models {

  /** C# `ushort`: an unsigned 16-bit integer. */
  newtype UShort = x: int | 0 <= x < 0x1_0000

  /** A catalogue entry as callers see it (Core/Models/Book.cs). */
  datatype Book = Book(title: string, author: string, pages: UShort)

  /** A catalogue entry as it is persisted (Repository/Models/BookDto.cs). */
  datatype BookDto = BookDto(title: string, author: string, pages: UShort)
}
