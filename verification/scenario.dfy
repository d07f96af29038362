/** The three books the benchmark builds, and what the catalogue operations give on them. */
module Scenario {
  import opened Outcomes
  import opened Books
  import opened Sequences
  import opened Collection
  import Decimal

  const B1: Book := NewBook("T1", 2023, StandardPages)
  const B2: Book := NewBook("T2", 2024, StandardPages)
  const B3: Book := NewBook("T2", 1924, StandardPages)

  function Sample(): (c: BookCollection)
    ensures c.books.Some? && |c.books.value| == 3
  {
    BookCollection(Some([B1, B2, B3]))
  }

  /** `Find("T2")` yields the second and third books, in that order. */
  lemma SampleFind()
    ensures Find(Sample(), "T2") == Success([B2, B3])
  {
    assert [B1, B2, B3] == [B1, B2] + [B3] && [B1, B2] == [B1] + [B2];
    assert "T1"[1] != "T2"[1];
    assert Filter([B1], TitleIs("T2")) == [];
    assert Filter([B2], TitleIs("T2")) == [B2];
    assert Filter([B3], TitleIs("T2")) == [B3];
    FilterAppend([B1], [B2], TitleIs("T2"));
    assert Filter([B1, B2], TitleIs("T2")) == [B2];
    FilterAppend([B1, B2], [B3], TitleIs("T2"));
    assert Filter([B1, B2, B3], TitleIs("T2")) == [B2, B3];
  }

  /** `Find("T2", 1924)` yields the third book alone. */
  lemma SampleFindWithYear()
    ensures FindWithYear(Sample(), "T2", 1924) == Success([B3])
  {
    assert [B1, B2, B3] == [B1, B2] + [B3] && [B1, B2] == [B1] + [B2];
    assert Filter([B1], TitleAndYearIs("T2", 1924)) == [];
    assert Filter([B2], TitleAndYearIs("T2", 1924)) == [];
    assert Filter([B3], TitleAndYearIs("T2", 1924)) == [B3];
    FilterAppend([B1], [B2], TitleAndYearIs("T2", 1924));
    FilterAppend([B1, B2], [B3], TitleAndYearIs("T2", 1924));
  }

  /** The years sum to 5971 and the truncated mean is 1990. */
  lemma SampleAvg()
    ensures Avg(Sample()) == Success(1990)
  {
    var s := [B1, B2, B3];
    assert s[..2] == [B1, B2] && s[..2][..1] == [B1] && [B1][..0] == [];
    assert SumYears([B1]) == 2023;
    assert SumYears([B1, B2]) == 4047;
    assert SumYears(s) == 5971;
  }

  /** The text holds the three books' lines in input order. */
  lemma SampleText(rt: Runtime)
    ensures ToString(Sample(), rt) == Success(
      (rt.text(B1) + rt.newline) + (rt.text(B2) + rt.newline) + (rt.text(B3) + rt.newline))
  {
    assert [B1, B2, B3] == [B1, B2] + [B3] && [B1, B2] == [B1] + [B2];
    assert FlatMap([B1], Line(rt)) == rt.text(B1) + rt.newline;
    assert FlatMap([B2], Line(rt)) == rt.text(B2) + rt.newline;
    assert FlatMap([B3], Line(rt)) == rt.text(B3) + rt.newline;
    FlatMapAppend([B1], [B2], Line(rt));
    FlatMapAppend([B1, B2], [B3], Line(rt));
    assert FlatMap([B1, B2, B3], Line(rt))
      == (rt.text(B1) + rt.newline) + (rt.text(B2) + rt.newline) + (rt.text(B3) + rt.newline);
  }

  /** The number of books the benchmark generates. */
  const Million: Int32 := 1_000_000

  /**
   * The benchmark replaces the three books by a million generated ones before looking up
   * "T2", so the lookup finds nothing.
   */
  lemma BenchmarkFindsNothing()
    ensures Find(GenerateElementsYield(Sample(), Million), "T2") == Success([])
  {
    FindOtherTitleInGenerated(Million, "T2");
  }

  /** In the generated collection "Title-42" names exactly one book. */
  lemma BenchmarkFindsGenerated()
    ensures Find(GenerateElementsYield(Sample(), Million), "Title-42") == Success([GeneratedBook(42)])
  {
    FindGenerated(Million, 42);
    TitleOf42();
  }

  /** The text of the title of generated book 42. */
  lemma TitleOf42()
    ensures GeneratedTitle(42) == "Title-42"
  {
    var t := Decimal.Format(42);
    assert t == Decimal.Format(4) + [Decimal.DigitChar(2)];
    assert t[0] == '4' && t[1] == '2';
  }
}
