# LibraryForTheLibrary book catalogue service in Dafny

This project models the book catalogue service of LibraryForTheLibrary.

- `BookService` adds, saves, lists, searches and sorts books.
- The `Mapper` helper copies a `Book` into the stored `BookDto` record and back.
- The service runs over a document store (`IBookRepository`). The store is modelled as a class with two fields: whether the document file exists, and the records it holds.

Modules, in dependency order:

- `Wrappers`: `Option`, `Result` and `Outcome`. A C# `null` argument is `None`. A thrown argument exception is an `Err` or a `Fail` carrying the parameter name.
- `Models`: the `Book` and `BookDto` records. `Pages` is a `ushort`, modelled by the newtype `UShort` over 0..65535.
- `Mapper`: both `Map` overloads, their element-wise liftings and the round trips.
- `OrdinalIgnoreCase`: `StringComparison.OrdinalIgnoreCase` over a character fold. It covers substring search, equality and a lexicographic order. It also defines `string.IsNullOrWhiteSpace` with .NET's set of white-space characters.
- `Sequences`: LINQ `Where`, as `Filter`, and its laws.
- `StableSort`: LINQ `OrderBy`/`ThenBy`, which is a stable sort. It is a generic insertion sort under a total preorder. The lemmas prove it sorted, a permutation and stable. They also prove it is the only sequence with those properties.
- `BookOrdering`: the author-then-title key that `GetSorted` uses, shown to be a total preorder.
- `BookRepository`: the class `BookStore` with fields `fileExists` and `contents`, and methods `Load` and `Save`.
- `BookService`: the class `BookService` with the five operations.
  - `Add` and `Save` change the store.
  - `Get`, `Search` and `GetSorted` have no `modifies` clause, so they leave the store as it was.
  - Two client methods show how the operations combine: Add then Get, and Save then Get.
- `BookServiceExamples`: the catalogues from the service's unit tests, proved over the model. One search for "Great" and one sort of four books have their exact results proved.

In two places the documentation comments and the code disagree. The model follows the code, which is also what the unit tests assert:

- `IBookService.Save` is documented as rejecting an empty collection (`IBookService.cs:52`). `BookService.Save` only rejects `null`, and an empty collection is saved as an empty document.
- The factory documents that the file must exist (`BookLibraryFactory.cs:14`). `XmlBookRepository.Load` returns an empty collection when the file is missing, so `BookStore.Load` does the same.

## Model

| member | source | states |
|---|---|---|
| Mapper.ToBook | LibraryForTheLibrary.Extension/Services/Helpers/Mapper.cs:8-18 | the Book has the DTO's title, author and page count |
| Mapper.ToDto | LibraryForTheLibrary.Extension/Services/Helpers/Mapper.cs:20-30 | the DTO has the Book's title, author and page count |
| Mapper.DtoRoundTrip | LibraryForTheLibrary.Extension/Services/Helpers/Mapper.cs:8-30 | mapping a DTO to a Book and back gives the same DTO |
| Mapper.BookRoundTrip | LibraryForTheLibrary.Extension/Services/Helpers/Mapper.cs:8-30 | mapping a Book to a DTO and back gives the same Book |
| Mapper.ToBooks | LibraryForTheLibrary.Extension/Services/Implementation/BookService.cs:39-41 | `Select(Mapper.Map)` over records: same length, and the i-th Book is the i-th record mapped |
| Mapper.ToDtos | LibraryForTheLibrary.Extension/Services/Implementation/BookService.cs:50-52 | `Select(Mapper.Map)` over books: same length, and the i-th record is the i-th Book mapped |
| Mapper.DtosRoundTrip | LibraryForTheLibrary.Extension/Services/Helpers/Mapper.cs:8-30 | a sequence of records mapped to Books and back is unchanged |
| Mapper.BooksRoundTrip | LibraryForTheLibrary.Extension/Services/Helpers/Mapper.cs:8-30 | a sequence of Books mapped to records and back is unchanged |
| Mapper.ToBooksAppend | LibraryForTheLibrary.Extension/Services/Implementation/BookService.cs:26-28 | mapping the records with one record appended is the mapped records with its Book appended |
| OrdinalIgnoreCase.Fold | LibraryForTheLibrary.Extension/Services/Implementation/BookService.cs:66 | a folded character is never a lower-case letter; a lower-case letter becomes its capital; every other character is kept |
| OrdinalIgnoreCase.FoldString | LibraryForTheLibrary.Extension/Services/Implementation/BookService.cs:66 | the fold applied character by character, keeping the length |
| OrdinalIgnoreCase.FoldStringIdempotent | LibraryForTheLibrary.Extension/Services/Implementation/BookService.cs:66 | folding a folded string changes nothing |
| OrdinalIgnoreCase.IndexOfIgnoreCase | LibraryForTheLibrary.Extension/Services/Implementation/BookService.cs:66 | returns the first position at or after `from` where the key occurs ignoring case, or None when there is no such position |
| OrdinalIgnoreCase.ContainsIgnoreCase | LibraryForTheLibrary.Extension/Services/Implementation/BookService.cs:66 | true exactly when the key occurs at some position, ignoring case |
| OrdinalIgnoreCase.ContainsIgnoresCase | LibraryForTheLibrary.Extension/Services/Implementation/BookService.cs:66 | folding the text or the key does not change whether the key is contained |
| OrdinalIgnoreCase.ContainsSubstring | LibraryForTheLibrary.Extension/Services/Implementation/BookService.cs:66 | a string contains every key that literally occurs in it |
| OrdinalIgnoreCase.EqualsIgnoreCase | LibraryForTheLibrary.Extension/Services/Implementation/BookService.cs:77-78 | the comparer's "compares 0": same length, and equal characters at each position after folding |
| OrdinalIgnoreCase.LexLe | LibraryForTheLibrary.Extension/Services/Implementation/BookService.cs:77-78 | ordinal order on character codes: a string comes at or before every string it is a prefix of, and after each of its own proper prefixes |
| OrdinalIgnoreCase.LessOrEqualIgnoreCase | LibraryForTheLibrary.Extension/Services/Implementation/BookService.cs:77-78 | `StringComparer.OrdinalIgnoreCase.Compare(a, b) <= 0`: strings equal ignoring case compare at most 0, the empty string comes first, and otherwise the folded first characters do not descend |
| OrdinalIgnoreCase.LexLeReflexive | LibraryForTheLibrary.Extension/Services/Implementation/BookService.cs:77-78 | ordinal comparison ranks every string at or below itself |
| OrdinalIgnoreCase.LexLeTotal | LibraryForTheLibrary.Extension/Services/Implementation/BookService.cs:77-78 | any two strings are comparable |
| OrdinalIgnoreCase.LexLeAntisymmetric | LibraryForTheLibrary.Extension/Services/Implementation/BookService.cs:77-78 | strings ranked at or below each other are equal |
| OrdinalIgnoreCase.LexLeTransitive | LibraryForTheLibrary.Extension/Services/Implementation/BookService.cs:77-78 | ordinal comparison is transitive |
| OrdinalIgnoreCase.LexLeFirstDifference | LibraryForTheLibrary.Extension/Services/Implementation/BookService.cs:77-78 | after a common prefix, the first differing character decides the order |
| OrdinalIgnoreCase.LessOrEqualIgnoreCaseTotal | LibraryForTheLibrary.Extension/Services/Implementation/BookService.cs:77-78 | any two strings are comparable ignoring case |
| OrdinalIgnoreCase.LessOrEqualIgnoreCaseTransitive | LibraryForTheLibrary.Extension/Services/Implementation/BookService.cs:77-78 | comparison ignoring case is transitive |
| OrdinalIgnoreCase.LessOrEqualIgnoreCaseBoth | LibraryForTheLibrary.Extension/Services/Implementation/BookService.cs:77-78 | two strings are each at or below the other exactly when they are equal ignoring case |
| OrdinalIgnoreCase.IsWhiteSpace | LibraryForTheLibrary.Extension/Services/Implementation/BookService.cs:61 | `char.IsWhiteSpace`; among ASCII characters exactly the space and tab through carriage return (U+0009..U+000D) |
| OrdinalIgnoreCase.IsNullOrWhiteSpace | LibraryForTheLibrary.Extension/Services/Implementation/BookService.cs:61 | null is rejected; a string is rejected exactly when each of its characters is white space, which includes the empty string |
| OrdinalIgnoreCase.AllWhiteSpace | LibraryForTheLibrary.Extension/Services/Implementation/BookService.cs:61 | true exactly when each character is white space |
| Sequences.Filter | LibraryForTheLibrary.Extension/Services/Implementation/BookService.cs:65-67 | `Where` is no longer than its input, keeps only elements that satisfy the predicate, and keeps every element that does |
| Sequences.FilterConcat | LibraryForTheLibrary.Extension/Services/Implementation/BookService.cs:65-67 | filtering a concatenation is the concatenation of the filtered parts, so input order is kept |
| Sequences.FilterSubmultiset | LibraryForTheLibrary.Extension/Services/Implementation/BookService.cs:65-67 | filtering only drops elements and never duplicates one |
| StableSort.Insert | LibraryForTheLibrary.Extension/Services/Implementation/BookService.cs:76-79 | the insertion step of the stable sort: one element longer, holding the inserted element and every element of the input and nothing else |
| StableSort.Sort | LibraryForTheLibrary.Extension/Services/Implementation/BookService.cs:76-79 | LINQ's stable `OrderBy`: same length and the same elements as the input; the lemmas below prove order, permutation and stability |
| StableSort.SortPermutes | LibraryForTheLibrary.Extension/Services/Implementation/BookService.cs:76-79 | the sort returns its input rearranged |
| StableSort.SortIsSorted | LibraryForTheLibrary.Extension/Services/Implementation/BookService.cs:76-79 | under a total preorder, each element of the result may precede every later element |
| StableSort.SortIsStable | LibraryForTheLibrary.Extension/Services/Implementation/BookService.cs:76-79 | elements that tie under the key keep their input order |
| StableSort.SortIsTheStableSort | LibraryForTheLibrary.Extension/Services/Implementation/BookService.cs:76-79 | a sorted rearrangement that keeps each tie class in input order equals the sort's result |
| BookOrdering.AuthorTitleLe | LibraryForTheLibrary.Extension/Services/Implementation/BookService.cs:77-78 | the composed `OrderBy`/`ThenBy` comparer: a book precedes another only if its author compares at most 0; a strictly earlier author goes first whatever the titles; between authors equal ignoring case the title decides |
| BookOrdering.SortByAuthorThenTitle | LibraryForTheLibrary.Extension/Services/Implementation/BookService.cs:76-79 | the `OrderBy(Author).ThenBy(Title)` pipeline: same length and the same books as the input; sortedness, permutation and stability are the lemmas below |
| BookOrdering.AuthorTitleLeIsTotalPreorder | LibraryForTheLibrary.Extension/Services/Implementation/BookService.cs:77-78 | the author-then-title key, both ignoring case, is total and transitive |
| BookOrdering.AuthorTitleLeBoth | LibraryForTheLibrary.Extension/Services/Implementation/BookService.cs:77-78 | two books tie exactly when their authors and their titles are equal ignoring case |
| BookOrdering.SortedIsPermutation | LibraryForTheLibrary.Extension/Services/Implementation/BookService.cs:76-79 | GetSorted returns the loaded books, each as often as it was loaded |
| BookOrdering.SortedByAuthorThenTitle | LibraryForTheLibrary.Extension/Services/Implementation/BookService.cs:76-79 | authors ascend ignoring case, and titles ascend where authors are equal |
| BookOrdering.SortedIsStable | LibraryForTheLibrary.Extension/Services/Implementation/BookService.cs:76-79 | books with equal author and equal title, ignoring case, keep their loaded order |
| BookOrdering.SortedIsUnique | LibraryForTheLibrary.Extension/Services/Implementation/BookService.cs:76-79 | any ordered and stable rearrangement of the loaded books is GetSorted's result |
| BookRepository.BookStore.Load | LibraryForTheLibrary.Extension/Repository/Implementation/XmlBookRepository.cs:16-37 | no records when the file does not exist, and otherwise exactly the records the document holds |
| BookRepository.BookStore.Save | LibraryForTheLibrary.Extension/Repository/Implementation/XmlBookRepository.cs:39-55 | the file exists afterwards and holds exactly the given records |
| BookService.TitleContains | LibraryForTheLibrary.Extension/Services/Implementation/BookService.cs:66 | the `Where` lambda: a book qualifies exactly when its title contains the key at some offset ignoring case, and only its title is consulted |
| BookService.SearchByTitle | LibraryForTheLibrary.Extension/Services/Implementation/BookService.cs:65-67 | a book is in the result exactly when it was loaded and its title contains the key ignoring case; the result is no longer than the input |
| BookService.SearchKeepsOrder | LibraryForTheLibrary.Extension/Services/Implementation/BookService.cs:65-67 | matches keep their loaded order |
| BookService.SearchOnlyDrops | LibraryForTheLibrary.Extension/Services/Implementation/BookService.cs:65-67 | every match occurs in the loaded books at least as often |
| BookService.SearchIgnoresKeyCase | LibraryForTheLibrary.Extension/Services/Implementation/BookService.cs:66 | searching with the key folded gives the same books as the key as typed |
| BookService.BookService.Add | LibraryForTheLibrary.Extension/Services/Implementation/BookService.cs:18-33 | a null book fails with ArgumentNull("book") and leaves the store unchanged; otherwise the store holds what Load returned, followed by the mapped book |
| BookService.BookService.Get | LibraryForTheLibrary.Extension/Services/Implementation/BookService.cs:35-44 | the loaded records mapped to Books in order, which is empty when the file does not exist |
| BookService.BookService.Save | LibraryForTheLibrary.Extension/Services/Implementation/BookService.cs:46-57 | a null collection fails with ArgumentNull("books") and leaves the store unchanged; otherwise the store holds exactly the mapped books, also when there are none |
| BookService.BookService.Search | LibraryForTheLibrary.Extension/Services/Implementation/BookService.cs:59-70 | a null key fails with ArgumentNull; an empty or white-space key fails with Argument; otherwise the result is the loaded books whose title contains the key ignoring case |
| BookService.BookService.GetSorted | LibraryForTheLibrary.Extension/Services/Implementation/BookService.cs:72-82 | the loaded books under the stable author-then-title sort; the BookOrdering lemmas prove that result sorted, a permutation and stable |
| BookService.AddThenGet | LibraryForTheLibrary.Tests/BookServiceTest.cs:149-173 | after Add(b), Get returns what it returned before, followed by b |
| BookService.SaveThenGet | LibraryForTheLibrary.Tests/BookServiceTest.cs:21-123 | after Save(books), Get returns exactly `books`, also when it is empty |
| BookServiceExamples.SearchGreat | LibraryForTheLibrary.Tests/BookServiceTest.cs:176-196 | of "The Great Gatsby", "Great Expectations" and "1984", the search for "Great" returns the first two in that order |
| BookServiceExamples.SearchFindsBooksByTitle | LibraryForTheLibrary.Tests/BookServiceTest.cs:176-196 | Search("Great") over a store holding the test's three records returns the two Great titles |
| BookServiceExamples.SortAndersenKing | LibraryForTheLibrary.Tests/BookServiceTest.cs:199-251 | the test's four books sort to The Little Mermaid, The Ugly Duckling, Carrie, Misery |
| BookServiceExamples.GetSortedSortsByAuthorThenTitle | LibraryForTheLibrary.Tests/BookServiceTest.cs:199-251 | GetSorted over a store holding the test's four records returns them in that order |

## Left out

- The XML serialization and file access inside `XmlBookRepository` (`DataContractSerializer`, `File.OpenRead`, `File.Create`) are not modelled. The store assumes that reading the document gives back exactly the records last written. The test of XML special characters depends on the serializer's escaping under section 2.4 of XML 1.0, so it has no counterpart here.
- BookRepository.BookStore.Load: never fails. The source wraps any read or deserialization failure in an `IOException`. Those failures come from the file system and the serializer, which are not modelled.
- BookRepository.BookStore.Save: never fails, for the same reason. A failing save in the source also leaves the file in whatever state `File.Create` left it.
- BookService.BookService.Add: an `IOException` from the store is not modelled, and neither is the lost update when two `Add` calls interleave their load and save. The source has no locking, and the model is sequential.
- The `async`/`ValueTask`/`ConfigureAwait` machinery is not modelled: every operation is a synchronous method.
- `BookCollectionDto` is not modelled as a record. The store's `Save` takes its `Books` array directly as a sequence.
- OrdinalIgnoreCase.Fold: folds only the ASCII letters a–z. .NET's ordinal case-insensitive comparison upper-cases with the invariant simple upper-case mapping, so two non-ASCII letters that differ only in case compare unequal here. Ordering and search can also differ for non-ASCII letters. For example, .NET ranks "é" before "Ê" (U+00C9 against U+00CA), while the model ranks it after (U+00E9 against U+00CA). A search for "é" does not find a title containing "É" in the model.
- OrdinalIgnoreCase.LexLe: compares Unicode scalar values. .NET compares UTF-16 code units, so strings with characters above U+FFFF can order differently.
- A `null` element inside a collection passed to `Save` is not modelled. In the source it throws inside `Mapper.Map`.
- A `null` `Title` or `Author` is not modelled. `Get`, `Add` and `Save` copy such a null through `Mapper.Map` without error. A null `Title` throws in `Search`. In `GetSorted`, a null `Author` or `Title` is ordered before every string, and the model does not capture this. Both properties default to `string.Empty`, but a null can still come from a caller that sets one. It can also come from a stored document that omits the element or marks it nil, because the serializer does not run the initializers. The store's abstraction excludes such documents.
- The mock call counts the unit tests verify are not modelled. These are the two `Times.Once` checks that `Save` and `Add` each write the store once. What they check about the store is stated directly: `Add` and `Save` change it only on success, and `Get`, `Search` and `GetSorted` cannot change it.
- `BookLibraryFactory.cs` is wiring only and is not part of this model. `Program.cs` is console output and is not part of this model.
