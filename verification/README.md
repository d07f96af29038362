# Book catalogue model

A Dafny model of the in-memory book catalogue of `Book/Book.cs`. It has three parts:

- **`Book`**: an immutable record with a title, a year, a current page and an ordered list of pages.
- **`BookCollection`**: a sequence of books with these operations:
  - `Add`;
  - a `Clear` that does nothing;
  - two title filters (`Find`);
  - a truncating average year (`Avg`);
  - two generators of synthetic books;
  - a one-line-per-book `ToString`.
- **`MemoryBooksStorage`**: a byte buffer that saving a book or a collection only ever appends to.

Modules:

- `Outcomes` (`outcomes.dfy`): `Option` for a nullable reference (`None` is `null`). `Result` for a value or the exception thrown instead.
- `Sequences` (`sequences.dfy`): the order-preserving `Filter` behind LINQ `Where(...).ToList()`, and the concatenation `FlatMap`. Also the definition of a subsequence as a strictly increasing choice of positions (`Embeds`, `IsSubsequence`).
- `Decimal` (`decimal.dfy`): the decimal text that `$"Title-{i}"` writes for a non-negative `int`, with its parse round trip.
- `Books` (`books.dfy`): the `Book` datatype and the record constructor. It also defines `Runtime`, which holds three things the .NET runtime supplies:
  - the compiler-generated text of a record;
  - the UTF-8 encoder;
  - `Environment.NewLine`.

  These stay uninterpreted: they are function-valued parameters, so every property holds whatever they are. `ToBytes` is UTF-8 of the book's text.
- `Collection` (`collection.dfy`): `BookCollection` and its operations.
  - `Books` is an `Option<seq<Book>>`, because the property can hold `null`.
  - A LINQ operator over a null `Books` throws `ArgumentNull`.
  - `foreach` over it throws `NullReference`.
  - `Average` over an empty sequence throws `NoElements`.
  - The three C# constructors map onto the datatype constructor. `BookCollection(capacity)` gives `Some([])` for a capacity of zero or more. `BookCollection(params Book[])` gives `Some(books)` for a non-null array. `BookCollection(IEnumerable<Book>)` keeps the given sequence, which may be `None`. The constructors' own exceptions are listed under "## Left out".
- `Storage` (`storage.dfy`): `MemoryBooksStorage` and its two `Save` overloads. `Book.Save` and `BookCollection.Save` only delegate to these overloads.
- `Scenario` (`scenario.dfy`): the three books the benchmark builds, and what each operation gives on them.

Integers are C# `int` where the source uses `int`: the subset type `Int32`. The sum inside `Avg` is unbounded. The average is proved to lie between the smallest and largest year, so the cast back to `int` never overflows.

Facts about the source that the model keeps:

- `Add` keeps insertion order, because `Append` adds at the end.
- `Clear` is a no-op. This is modelled as written and corrected under Findings.
- `GenerateElementsYield` installs the `yield` iterator and replaces `Books`. `GenerateElementsNoYield` appends through `Append`. The two agree only when starting from an empty collection.
- `Avg` on an empty collection throws, because `Average` does.

## Model

| member | source | states |
|---|---|---|
| Books.NewBookEnumeratesPages | Book/Book.cs:55-64 | the constructor (`NewBook`) stores title, year and pages and leaves `CurrentPage` at 0; enumerating the book (`Enumerate`, `GetEnumerator`) yields the given pages in order |
| Collection.Add | Book/Book.cs:75 | on a non-null collection the books become the old books followed by the new one: one longer, old prefix unchanged, new book last; on a null `Books` it throws ArgumentNull |
| Collection.AddThenFind | Book/Book.cs:75-77 | after `Add(b)`, `Find(title)` returns the earlier matches followed by `b` exactly when `b` has that title |
| Collection.Clear | Book/Book.cs:76 | `Clear` leaves a non-null collection exactly as it was and throws ArgumentNull on a null one |
| Collection.ClearKeepsBooks | Book/Book.cs:76 | a non-empty collection is still non-empty after `Clear` |
| Collection.ClearIntended | Book/Book.cs:76 | the corrected clear leaves the collection holding an empty sequence |
| Collection.ClearIntendedEmpties | Book/Book.cs:76-79 | after the corrected clear, `Find` returns nothing, `Avg` throws NoElements and the text is empty |
| Collection.Find | Book/Book.cs:77 | `Find(title)` throws ArgumentNull on a null collection; otherwise every returned book has the title and there are no more than in the collection |
| Collection.FindIsOrderedSubsequence | Book/Book.cs:77 | `Find(title)` reads the collection at increasing positions which are exactly the positions whose title matches; each matching book is kept as often as it occurs and no other book appears |
| Collection.FindWithYear | Book/Book.cs:78 | `Find(title, year)` throws ArgumentNull on a null collection; otherwise every returned book has both the title and the year |
| Collection.FindWithYearRefinesFind | Book/Book.cs:77-78 | `Find(title, year)` reads the collection at exactly the positions matching both, in order; it equals the year filter applied to `Find(title)` and is a subsequence of it |
| Collection.TruncDiv | Book/Book.cs:79 | the `(int)` cast of the quotient rounds toward zero: `q*n <= a < (q+1)*n` for `a >= 0` and `(q-1)*n < a <= q*n` for `a < 0` |
| Collection.SumYearsBounds | Book/Book.cs:79 | when every year lies in `[lo, hi]`, the sum of n years lies in `[n*lo, n*hi]` |
| Collection.TruncDivBounds | Book/Book.cs:79 | truncating a quotient that lies in `[lo, hi]` stays in `[lo, hi]` |
| Collection.Avg | Book/Book.cs:79 | `Avg` throws ArgumentNull on null and NoElements on an empty collection; otherwise it succeeds with the truncated quotient of the year sum by the count |
| Collection.AvgWithinYears | Book/Book.cs:79 | the average of a non-empty collection lies between any lower and upper bound of its years, so it fits in an `int` |
| Collection.Generate | Book/Book.cs:97-103 | the generator yields `max(count, 0)` books; book `i` is titled "Title-" followed by the decimal text of `i`, has year `i`, current page 0 and pages text-1, text-2, text-3 |
| Collection.GenerateElementsYield | Book/Book.cs:80 | the contents are replaced by exactly `max(count, 0)` books, the i-th being generated book `i`, whatever was there before |
| Collection.GenerateElementsNoYield | Book/Book.cs:81-87 | the books become the old books followed by generated books 0 to count-1; with count <= 0 nothing changes; a null `Books` with count > 0 throws ArgumentNull; from an empty collection the result equals `GenerateElementsYield` |
| Collection.GeneratedTitlesDistinct | Book/Book.cs:101 | two different indices give different generated titles |
| Collection.FindGenerated | Book/Book.cs:97-103 | in the first `count` generated books, "Title-k" names exactly book `k` when `k < count` and no book otherwise |
| Collection.FindOtherTitleInGenerated | Book/Book.cs:97-103 | a title not starting with "Title-" matches no generated book |
| Collection.ToString | Book/Book.cs:88-96 | `ToString` throws NullReference on a null collection and gives the empty text for an empty one |
| Collection.ToStringLineAt | Book/Book.cs:88-96 | the i-th book's text followed by the line terminator comes right after the text of the books before it: one line per book, in collection order |
| Collection.ToStringAdd | Book/Book.cs:88-96 | adding a book adds its line at the end of the text and leaves the earlier text unchanged |
| Decimal.Format | Book/Book.cs:101 | the text of `i` in a generated title is a non-empty digit string with no leading zero, and starts with '0' only for 0 |
| Decimal.ParseFormat | Book/Book.cs:101 | reading back the decimal text of `n` gives `n` |
| Decimal.FormatParse | Book/Book.cs:101 | every canonical digit string is the decimal text of its value |
| Decimal.FormatInjective | Book/Book.cs:101 | distinct numbers have distinct decimal texts |
| Storage.NewMemoryBooksStorage | Book/Book.cs:194 | a new memory storage starts with an empty buffer |
| Storage.SaveBook | Book/Book.cs:202 | `Save(book)` leaves the earlier buffer contents unchanged and appends exactly `ToBytes(book)`, the UTF-8 bytes of the book's text (`Books.ToBytes`, line 61) |
| Storage.SaveCollection | Book/Book.cs:195-201 | `Save(collection)` leaves the earlier contents unchanged and appends the books' bytes concatenated in iteration order; a null `Books` counts as empty; a one-book collection writes the same as saving that book |
| Storage.SavedBookAt | Book/Book.cs:195-201 | after saving, the i-th book's bytes sit right after the earlier contents and the bytes of the books before it |
| Storage.SaveTwiceIsSaveOfBoth | Book/Book.cs:195-201 | saving two collections one after the other writes the same bytes as saving their concatenation once |
| Scenario.SampleFind | Book/Book.cs:15-18 | on the books ("T1", 2023), ("T2", 2024), ("T2", 1924), `Find("T2")` returns the second and third books in that order |
| Scenario.SampleFindWithYear | Book/Book.cs:15-18 | on the same books, `Find("T2", 1924)` returns the third book alone |
| Scenario.SampleAvg | Book/Book.cs:15-18 | on the same books, `Avg` returns 1990 (5971 / 3 truncated) |
| Scenario.SampleText | Book/Book.cs:15-18 | on the same books, the text is their three lines in input order |
| Scenario.BenchmarkFindsNothing | Book/Book.cs:15-37 | after the benchmark's `GenerateElementsYield(1_000_000)`, `Find("T2")` returns nothing |
| Scenario.BenchmarkFindsGenerated | Book/Book.cs:15-37 | in the same generated collection, "Title-42" names exactly generated book 42 |

## Left out

- `FileBooksStorage` and `FileBooksStorageAsync`: file-system I/O through `FileStream`. Within one call they write the same bytes in the same order as the memory storage. Each call opens a new stream, by default with `FileMode.Create`, which truncates the file. So after two saves the file holds only the second save's bytes, and `SaveTwiceIsSaveOfBoth` does not carry over to files. The open, share and buffer-size options are only passed to the library.
- `Book.SaveAsync` and `BookCollection.SaveAsync`, tasks and `CancellationToken`: asynchronous I/O and cooperative cancellation.
- The `Test` benchmark class and the BenchmarkDotNet attributes: a driver. Its data appears only in `Scenario`.
- The exact text of a book's `ToString` and the UTF-8 encoder are compiler-generated and library code. They are the uninterpreted `Runtime` fields `text` and `utf8`. The line terminator of `AppendLine` is the `newline` field.
- `MemoryBooksStorage.ToString` decodes the buffer with `Encoding.Default`. It is not modelled because that decoder is library code.
- `MemoryBooksStorage.Dispose` and the lifetime of the stream: disposing does not change the bytes already written. After `Dispose`, a further `Save` throws ObjectDisposed because `MemoryStream.Write` refuses a closed stream. The model has no disposed state, so it never raises that exception.
- Lazy versus eager evaluation of LINQ and of the `yield` iterator is not modelled. Only the resulting sequence of books is modelled, not when the books are built or how often they are re-enumerated.
- Collection.Avg: uses the exact integer quotient, where .NET divides in `double` before the cast. For very large collections rounding can differ.
- Collection.Avg: the `long` sum inside `Average` is unbounded here. An overflow needs more than 2^32 books.
- Null books: `Book` is a datatype, so an element of a collection is never null. In C# a null element makes `Find`, `Avg`, `ToString` and `Save` throw NullReference at the member access. A null `Pages` makes the enumerator throw. The benchmark never builds either.
- Null titles: `Title` may be null in C# (`new Book(null, ...)`). `Find(null)` then returns the books whose title is null, because string `==` treats two nulls as equal. The model's `title` is a `string` that is never null, so this case has no counterpart.
- Null arguments to the storage: `MemoryBooksStorage.Save` with a null collection throws NullReference at `books.Books`. With a null book it throws NullReference at `book.ToBytes()`. The model's collections and books are values and are never null.
- UTF-16 strings: a C# `string` is a sequence of UTF-16 code units and may hold unpaired surrogates. A Dafny `string` holds Unicode scalar values, so titles, pages and book texts with unpaired surrogates cannot be represented.
- Aliasing: `Pages` keeps the caller's `List<string>`, and `BookCollection(IEnumerable<Book>)` keeps the caller's sequence. Later changes by the caller would show up in enumeration, `Find`, `Avg` and `Save`. The model has value semantics only.
- Buffer length: `MemoryStream` holds at most `int.MaxValue` bytes and throws IOException past that. The model's buffer is an unbounded `seq<byte>`.
- Constructor exceptions: `BookCollection(capacity)` throws ArgumentOutOfRange on a negative capacity. `BookCollection(params Book[])` throws ArgumentNull on a null array, and `new BookCollection(null)` binds to that overload. The model does not include these constructors as separate operations.
- Record equality of `Book` compares the `Pages` list by reference in C#. The model never compares books by equality in the operations, only by title and year.

## Findings

| source | as written | input that shows it | evidently intended | confidence | as-written member | corrected member |
|---|---|---|---|---|---|---|
| Book/Book.cs:76 | `Clear` empties a fresh list copied by `ToList()`, so `Books` keeps every book | a collection holding one book: after `Clear` it still holds that book | `Books` is empty after `Clear` | high; not executed | Collection.ClearKeepsBooks | Collection.ClearIntended |
