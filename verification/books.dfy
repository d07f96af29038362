/** The `Book` record: an immutable value with a title, a year, a current page and its pages. */
module Books {

  newtype byte = b: int | 0 <= b < 0x100

  const Int32Min: int := -0x8000_0000
  const Int32Max: int := 0x7FFF_FFFF

  /** The range of a C# `int`. */
  type Int32 = x: int | Int32Min <= x <= Int32Max

  datatype Book = Book(title: string, year: Int32, currentPage: Int32, pages: seq<string>)

  /** The record's constructor: `CurrentPage` keeps its default of zero. */
  function NewBook(title: string, year: Int32, pages: seq<string>): Book
  {
    Book(title, year, 0, pages)
  }

  /** Enumerating a book yields its pages, in order. */
  function Enumerate(b: Book): seq<string>
  {
    b.pages
  }

  /** A freshly built book holds what it was given and enumerates the given pages in order. */
  lemma NewBookEnumeratesPages(title: string, year: Int32, pages: seq<string>)
    ensures var b := NewBook(title, year, pages);
      && b.title == title && b.year == year && b.currentPage == 0
      && Enumerate(b) == pages
  {
  }

  /**
   * What the .NET runtime supplies and this model leaves uninterpreted: the
   * compiler-generated text of a record, the UTF-8 encoder and the line terminator.
   */
  datatype Runtime = Runtime(text: Book -> string, utf8: string -> seq<byte>, newline: string)

  /** The UTF-8 bytes of the book's text. */
  function ToBytes(rt: Runtime, b: Book): seq<byte>
  {
    rt.utf8(rt.text(b))
  }

  /** `ToBytes` as a value, for concatenating the bytes of many books. */
  function Bytes(rt: Runtime): Book -> seq<byte>
  {
    (b: Book) => ToBytes(rt, b)
  }
}
