/**
 * `BookCollection`: a nullable sequence of books with append, the two title filters,
 * the truncating average year, the two generators and the one-line-per-book text.
 */
module Collection {
  import opened Outcomes
  import opened Books
  import opened Sequences
  import Decimal

  /** The exceptions the collection's operations throw. */
  datatype Error =
    | ArgumentNull   // a LINQ operator applied to a null `Books`
    | NoElements     // `Average` over an empty sequence
    | NullReference  // `foreach` over a null `Books`

  /** `books` is `None` when the `Books` property holds null. */
  datatype BookCollection = BookCollection(books: Option<seq<Book>>)

  /** `Add` rebinds `Books` to the old sequence followed by the new book. */
  function Add(c: BookCollection, b: Book): (r: Result<BookCollection, Error>)
    ensures c.books.None? ==> r == Failure(ArgumentNull)
    ensures c.books.Some? ==> r.Success? && r.value.books.Some?
    ensures r.Success? && r.value.books.Some? ==>
      var before, after := c.books.value, r.value.books.value;
      && |after| == |before| + 1
      && after[..|before|] == before
      && after[|before|] == b
  {
    match c.books
    case None => Failure(ArgumentNull)
    case Some(s) => Success(BookCollection(Some(s + [b])))
  }

  /** `Clear` as written: it empties a temporary copy made by `ToList`, so the collection is unchanged. */
  function Clear(c: BookCollection): (r: Result<BookCollection, Error>)
    ensures c.books.None? ==> r == Failure(ArgumentNull)
    ensures c.books.Some? ==> r == Success(c)
  {
    match c.books
    case None => Failure(ArgumentNull)
    case Some(_) => Success(c)
  }

  /** The books a non-empty collection keeps after `Clear`: a counterexample to clearing. */
  lemma ClearKeepsBooks(c: BookCollection)
    requires c.books.Some? && |c.books.value| > 0
    ensures Clear(c).Success? && Clear(c).value.books != Some([])
  {
  }

  /** What `Clear` is evidently meant to do: leave the collection empty. */
  function ClearIntended(c: BookCollection): (r: BookCollection)
    ensures r.books.Some? && |r.books.value| == 0
  {
    BookCollection(Some([]))
  }

  /** After the intended clear nothing is found, there is no average and the text is empty. */
  lemma ClearIntendedEmpties(c: BookCollection, title: string, rt: Runtime)
    ensures Find(ClearIntended(c), title) == Success([])
    ensures Avg(ClearIntended(c)) == Failure(NoElements)
    ensures ToString(ClearIntended(c), rt) == Success("")
  {
  }

  function TitleIs(title: string): Book -> bool
  {
    (b: Book) => b.title == title
  }

  function TitleAndYearIs(title: string, year: Int32): Book -> bool
  {
    (b: Book) => b.title == title && b.year == year
  }

  /** `Find(title)`: the books with that title, in collection order. */
  function Find(c: BookCollection, title: string): (r: Result<seq<Book>, Error>)
    ensures c.books.None? ==> r == Failure(ArgumentNull)
    ensures c.books.Some? ==> r.Success? && |r.value| <= |c.books.value|
    ensures r.Success? ==> forall k :: 0 <= k < |r.value| ==> r.value[k].title == title
  {
    match c.books
    case None => Failure(ArgumentNull)
    case Some(s) => Success(Filter(s, TitleIs(title)))
  }

  /** `Find(title, year)`: the books with that title and year, in collection order. */
  function FindWithYear(c: BookCollection, title: string, year: Int32): (r: Result<seq<Book>, Error>)
    ensures c.books.None? ==> r == Failure(ArgumentNull)
    ensures c.books.Some? ==> r.Success? && |r.value| <= |c.books.value|
    ensures r.Success? ==> forall k :: 0 <= k < |r.value| ==> r.value[k].title == title && r.value[k].year == year
  {
    match c.books
    case None => Failure(ArgumentNull)
    case Some(s) => Success(Filter(s, TitleAndYearIs(title, year)))
  }

  /**
   * `Find(title)` reads the collection at exactly the positions whose title matches,
   * in increasing order, and keeps every matching book as often as it occurs.
   */
  lemma FindIsOrderedSubsequence(c: BookCollection, title: string)
    requires c.books.Some?
    ensures var s, r := c.books.value, Find(c, title).value;
      && (exists idx :: Embeds(idx, r, s) && forall i :: 0 <= i < |s| ==> (i in idx <==> s[i].title == title))
      && forall b: Book :: multiset(r)[b] == if b.title == title then multiset(s)[b] else 0
  {
    var s := c.books.value;
    FilterPicksMatches(s, TitleIs(title));
    var idx := MatchIndices(s, TitleIs(title));
    assert Embeds(idx, Find(c, title).value, s);
    forall b: Book
      ensures multiset(Find(c, title).value)[b] == if b.title == title then multiset(s)[b] else 0
    {
      FilterCounts(s, TitleIs(title), b);
    }
  }

  /**
   * `Find(title, year)` reads the collection at exactly the positions matching both, and
   * its result is the year filter applied to `Find(title)`, hence a subsequence of it.
   */
  lemma FindWithYearRefinesFind(c: BookCollection, title: string, year: Int32)
    requires c.books.Some?
    ensures var s, r := c.books.value, FindWithYear(c, title, year).value;
      && (exists idx :: Embeds(idx, r, s) && forall i :: 0 <= i < |s| ==> (i in idx <==> s[i].title == title && s[i].year == year))
      && r == Filter(Find(c, title).value, TitleAndYearIs(title, year))
      && IsSubsequence(r, Find(c, title).value)
  {
    var s := c.books.value;
    FilterPicksMatches(s, TitleAndYearIs(title, year));
    assert Embeds(MatchIndices(s, TitleAndYearIs(title, year)), FindWithYear(c, title, year).value, s);
    FilterOfFilter(s, TitleAndYearIs(title, year), TitleIs(title));
    var t := Find(c, title).value;
    FilterPicksMatches(t, TitleAndYearIs(title, year));
    assert Embeds(MatchIndices(t, TitleAndYearIs(title, year)), FindWithYear(c, title, year).value, t);
  }

  /** A book added with the title looked for is found after all the earlier matches. */
  lemma AddThenFind(c: BookCollection, b: Book, title: string)
    requires c.books.Some?
    ensures Find(Add(c, b).value, title).value
      == Find(c, title).value + (if b.title == title then [b] else [])
  {
    FilterAppend(c.books.value, [b], TitleIs(title));
    assert [b][..0] == [];
  }

  /** The sum of the years, as `Average` accumulates it (without overflow: see README). */
  function SumYears(s: seq<Book>): int
  {
    if |s| == 0 then 0 else SumYears(s[..|s| - 1]) + s[|s| - 1].year
  }

  /** `q` is `a / n` rounded toward zero, the result of casting the quotient to `int`. */
  predicate IsTruncatedQuotient(q: int, a: int, n: int)
  {
    n > 0 && if a >= 0 then q * n <= a < (q + 1) * n else (q - 1) * n < a <= q * n
  }

  function TruncDiv(a: int, n: int): (q: int)
    requires n > 0
    ensures IsTruncatedQuotient(q, a, n)
  {
    if a >= 0 then a / n else -((-a) / n)
  }

  /** Years within `[lo, hi]` sum to between `n * lo` and `n * hi`. */
  lemma {:induction false} SumYearsBounds(s: seq<Book>, lo: int, hi: int)
    requires forall k :: 0 <= k < |s| ==> lo <= s[k].year <= hi
    ensures |s| * lo <= SumYears(s) <= |s| * hi
  {
    if |s| > 0 {
      SumYearsBounds(s[..|s| - 1], lo, hi);
      assert |s| * lo == (|s| - 1) * lo + lo;
      assert |s| * hi == (|s| - 1) * hi + hi;
    }
  }

  /** Truncating a quotient that lies in `[lo, hi]` keeps it in `[lo, hi]`. */
  lemma TruncDivBounds(a: int, n: int, lo: int, hi: int)
    requires n > 0 && n * lo <= a <= n * hi
    ensures lo <= TruncDiv(a, n) <= hi
  {
    var q := TruncDiv(a, n);
    if a >= 0 {
      assert q * n <= a <= n * hi;
      assert n * lo <= a < (q + 1) * n;
    } else {
      assert (q - 1) * n < a <= n * hi;
      assert n * lo <= a <= q * n;
    }
  }

  /** `Avg`: the mean year truncated toward zero; `Average` throws on an empty sequence. */
  function Avg(c: BookCollection): (r: Result<Int32, Error>)
    ensures c.books.None? ==> r == Failure(ArgumentNull)
    ensures c.books == Some([]) ==> r == Failure(NoElements)
    ensures c.books.Some? && |c.books.value| > 0 ==>
      r.Success? && IsTruncatedQuotient(r.value, SumYears(c.books.value), |c.books.value|)
  {
    match c.books
    case None => Failure(ArgumentNull)
    case Some(s) =>
      if |s| == 0 then Failure(NoElements)
      else
        SumYearsBounds(s, Int32Min, Int32Max);
        TruncDivBounds(SumYears(s), |s|, Int32Min, Int32Max);
        Success(TruncDiv(SumYears(s), |s|))
  }

  /** The average year lies between the smallest and the largest year of the collection. */
  lemma AvgWithinYears(c: BookCollection, lo: int, hi: int)
    requires c.books.Some? && |c.books.value| > 0
    requires forall k :: 0 <= k < |c.books.value| ==> lo <= c.books.value[k].year <= hi
    ensures Avg(c).Success? && lo <= Avg(c).value <= hi
  {
    SumYearsBounds(c.books.value, lo, hi);
    TruncDivBounds(SumYears(c.books.value), |c.books.value|, lo, hi);
  }

  const StandardPages: seq<string> := ["text-1", "text-2", "text-3"]

  /** `$"Title-{i}"`. */
  function GeneratedTitle(i: nat): string
  {
    "Title-" + Decimal.Format(i)
  }

  function GeneratedBook(i: Int32): Book
    requires i >= 0
  {
    NewBook(GeneratedTitle(i), i, StandardPages)
  }

  /** The books the `Generate` iterator yields: book `i` is titled "Title-i", from year `i`, with the three standard pages. */
  function Generate(count: Int32): (r: seq<Book>)
    ensures |r| == if count < 0 then 0 else count
    ensures forall i :: 0 <= i < |r| ==>
      && r[i].title == GeneratedTitle(i)
      && r[i].year == i
      && r[i].currentPage == 0
      && r[i].pages == StandardPages
  {
    if count <= 0 then [] else Generate(count - 1) + [GeneratedBook(count - 1)]
  }

  /** `GenerateElementsYield` replaces the contents by the `count` generated books. */
  function GenerateElementsYield(c: BookCollection, count: Int32): (r: BookCollection)
    ensures r.books.Some? && |r.books.value| == if count < 0 then 0 else count
    ensures forall i :: 0 <= i < |r.books.value| ==> r.books.value[i] == GeneratedBook(i)
  {
    BookCollection(Some(Generate(count)))
  }

  /**
   * `GenerateElementsNoYield` appends the generated books one by one to the existing contents.
   * The first `Append` throws when `Books` is null; with no books to generate nothing happens.
   */
  method GenerateElementsNoYield(c: BookCollection, count: Int32) returns (r: Result<BookCollection, Error>)
    ensures c.books.None? && count > 0 ==> r == Failure(ArgumentNull)
    ensures count <= 0 ==> r == Success(c)
    ensures c.books.Some? ==> r.Success? && r.value.books.Some?
    ensures r.Success? && c.books.Some? && r.value.books.Some? ==>
      var before, after := c.books.value, r.value.books.value;
      && |after| == |before| + (if count < 0 then 0 else count)
      && after[..|before|] == before
      && forall i :: 0 <= i < |after| - |before| ==> after[|before| + i] == GeneratedBook(i)
    ensures c.books == Some([]) ==> r == Success(GenerateElementsYield(c, count))
  {
    if count <= 0 {
      return Success(c);
    }
    if c.books.None? {
      return Failure(ArgumentNull);
    }
    var books := c.books.value;
    for i := 0 to count
      invariant books == c.books.value + Generate(i)
    {
      books := books + [GeneratedBook(i)];
    }
    return Success(BookCollection(Some(books)));
  }

  /** Different generated books have different titles. */
  lemma GeneratedTitlesDistinct(i: nat, j: nat)
    requires i != j
    ensures GeneratedTitle(i) != GeneratedTitle(j)
  {
    Decimal.FormatInjective(i, j);
    assert GeneratedTitle(i)[6..] == Decimal.Format(i);
    assert GeneratedTitle(j)[6..] == Decimal.Format(j);
  }

  /** In a generated collection, looking up "Title-k" finds book `k` alone when `k < count`, and nothing otherwise. */
  lemma {:induction false} FindGenerated(count: Int32, k: nat)
    ensures Filter(Generate(count), TitleIs(GeneratedTitle(k)))
      == if k < count then [GeneratedBook(k)] else []
  {
    if count > 0 {
      var s := Generate(count);
      FindGenerated(count - 1, k);
      assert s[..|s| - 1] == Generate(count - 1);
      if k != count - 1 {
        GeneratedTitlesDistinct(k, count - 1);
      }
    }
  }

  /** A title that does not start with "Title-" is found nowhere in a generated collection. */
  lemma {:induction false} FindOtherTitleInGenerated(count: Int32, title: string)
    requires |title| < 6 || title[..6] != "Title-"
    ensures Filter(Generate(count), TitleIs(title)) == []
  {
    if count > 0 {
      var s := Generate(count);
      FindOtherTitleInGenerated(count - 1, title);
      assert s[..|s| - 1] == Generate(count - 1);
      assert GeneratedTitle(count - 1)[..6] == "Title-";
    }
  }

  /** One line of `ToString`: the book's text followed by the line terminator (`AppendLine`). */
  function Line(rt: Runtime): Book -> string
  {
    (b: Book) => rt.text(b) + rt.newline
  }

  /** `ToString`: one line per book, in collection order; `foreach` over a null `Books` throws. */
  function ToString(c: BookCollection, rt: Runtime): (r: Result<string, Error>)
    ensures c.books.None? ==> r == Failure(NullReference)
    ensures c.books.Some? ==> r.Success?
    ensures c.books == Some([]) ==> r == Success("")
  {
    match c.books
    case None => Failure(NullReference)
    case Some(s) => Success(FlatMap(s, Line(rt)))
  }

  /**
   * The text of the i-th book, followed by the line terminator, comes right after the
   * text of the books before it.
   */
  lemma ToStringLineAt(c: BookCollection, rt: Runtime, i: int)
    requires c.books.Some? && 0 <= i < |c.books.value|
    ensures var s, out := c.books.value, ToString(c, rt).value;
      var at, line := |ToString(BookCollection(Some(s[..i])), rt).value|, rt.text(s[i]) + rt.newline;
      && at + |line| <= |out|
      && out[..at] == ToString(BookCollection(Some(s[..i])), rt).value
      && out[at..at + |rt.text(s[i])|] == rt.text(s[i])
      && out[at + |rt.text(s[i])|..at + |line|] == rt.newline
  {
    var s, out := c.books.value, ToString(c, rt).value;
    FlatMapPieceAt(s, Line(rt), i);
    var at, text := |FlatMap(s[..i], Line(rt))|, rt.text(s[i]);
    var line := out[at..at + |text| + |rt.newline|];
    assert line == text + rt.newline;
    assert out[at..at + |text|] == line[..|text|];
    assert out[at + |text|..at + |text| + |rt.newline|] == line[|text|..];
  }

  /** Adding a book adds its line at the end of the text and leaves the earlier text alone. */
  lemma ToStringAdd(c: BookCollection, rt: Runtime, b: Book)
    requires c.books.Some?
    ensures ToString(Add(c, b).value, rt).value == ToString(c, rt).value + rt.text(b) + rt.newline
  {
    FlatMapAppend(c.books.value, [b], Line(rt));
  }
}
