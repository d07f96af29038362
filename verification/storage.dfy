/** `MemoryBooksStorage`: a growable byte buffer that saving only ever appends to. */
module Storage {
  import opened Outcomes
  import opened Books
  import opened Sequences
  import opened Collection

  datatype MemoryBooksStorage = MemoryBooksStorage(buffer: seq<byte>)

  /** A new storage owns an empty `MemoryStream`. */
  function NewMemoryBooksStorage(): (m: MemoryBooksStorage)
    ensures |m.buffer| == 0
  {
    MemoryBooksStorage([])
  }

  /** `Save(book)` writes the book's bytes after whatever the buffer already holds. */
  function SaveBook(m: MemoryBooksStorage, rt: Runtime, b: Book): (r: MemoryBooksStorage)
    ensures |r.buffer| == |m.buffer| + |ToBytes(rt, b)|
    ensures r.buffer[..|m.buffer|] == m.buffer
    ensures r.buffer[|m.buffer|..] == rt.utf8(rt.text(b))
  {
    MemoryBooksStorage(m.buffer + ToBytes(rt, b))
  }

  /**
   * `Save(collection)` writes the bytes of each book in iteration order; a null
   * `Books` is read as empty (`Books ?? []`) and leaves the buffer as it was.
   */
  method SaveCollection(m: MemoryBooksStorage, rt: Runtime, c: BookCollection) returns (r: MemoryBooksStorage)
    ensures r.buffer == m.buffer + FlatMap(c.books.GetOr([]), Bytes(rt))
    ensures |r.buffer| >= |m.buffer|
    ensures r.buffer[..|m.buffer|] == m.buffer
    ensures r.buffer[|m.buffer|..] == FlatMap(c.books.GetOr([]), Bytes(rt))
    ensures c.books.None? ==> r == m
    ensures c.books == Some([]) ==> r == m
    ensures c.books.Some? && |c.books.value| == 1 ==> r == SaveBook(m, rt, c.books.value[0])
  {
    var books := c.books.GetOr([]);
    var buffer := m.buffer;
    for i := 0 to |books|
      invariant buffer == m.buffer + FlatMap(books[..i], Bytes(rt))
    {
      assert books[..i + 1] == books[..i] + [books[i]];
      FlatMapAppend(books[..i], [books[i]], Bytes(rt));
      buffer := buffer + ToBytes(rt, books[i]);
    }
    assert books[..|books|] == books;
    if |books| == 1 {
      assert books[..0] == [];
      assert FlatMap(books, Bytes(rt)) == ToBytes(rt, books[0]);
    }
    r := MemoryBooksStorage(buffer);
  }

  /**
   * After saving a collection (whose buffer `SaveCollection` gives as `m.buffer + FlatMap(s, Bytes(rt))`),
   * the bytes of its i-th book sit right after the bytes of the books before it, which follow
   * the earlier contents of the buffer.
   */
  lemma SavedBookAt(m: MemoryBooksStorage, rt: Runtime, s: seq<Book>, i: int)
    requires 0 <= i < |s|
    ensures var out, at := m.buffer + FlatMap(s, Bytes(rt)), |m.buffer| + |FlatMap(s[..i], Bytes(rt))|;
      && at + |ToBytes(rt, s[i])| <= |out|
      && out[..at] == m.buffer + FlatMap(s[..i], Bytes(rt))
      && out[at..at + |ToBytes(rt, s[i])|] == ToBytes(rt, s[i])
  {
    FlatMapPieceAt(s, Bytes(rt), i);
    var flat, before := FlatMap(s, Bytes(rt)), FlatMap(s[..i], Bytes(rt));
    var out, at, n := m.buffer + flat, |m.buffer| + |before|, |ToBytes(rt, s[i])|;
    assert out[at..at + n] == flat[|before|..|before| + n];
    assert out[..at] == m.buffer + flat[..|before|];
  }

  /** Saving two collections one after the other writes the same bytes as saving their concatenation. */
  lemma SaveTwiceIsSaveOfBoth(m: MemoryBooksStorage, rt: Runtime, a: seq<Book>, b: seq<Book>)
    ensures (m.buffer + FlatMap(a, Bytes(rt))) + FlatMap(b, Bytes(rt)) == m.buffer + FlatMap(a + b, Bytes(rt))
  {
    FlatMapAppend(a, b, Bytes(rt));
  }
}
