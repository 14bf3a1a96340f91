/**
 * The filter-map-reduce example of Ranges_06, Ranges_Ex_06 and Ranges_Ex_03: keep the books
 * that appeared in 1990 or later, take their titles, and fold them with std::accumulate from
 * an empty string, writing the title alone while the accumulator is still empty and
 * `accumulator + ", " + title` afterwards. The price (a double) plays no part.
 */
module Books {
  import opened Views

  datatype Book = Book(title: string, author: string, year: int)

  /** `[](auto&& b) { return b.m_year >= 1990; }` */
  predicate Recent(b: Book) { b.year >= 1990 }

  /** `[](auto&& b) { return b.m_title; }` */
  function Title(b: Book): string { b.title }

  function Titles(books: seq<Book>): (r: seq<string>)
    ensures |r| <= |books|
  {
    Map(Title, Filter(Recent, books))
  }

  /** The binary operation passed to std::accumulate. */
  function Combine(a: string, b: string): string
  {
    if a == "" then b else a + ", " + b
  }

  /** std::accumulate(first, last, init, Combine): a left fold. */
  function Accumulate(init: string, xs: seq<string>): string
    decreases |xs|
  {
    if xs == [] then init else Accumulate(Combine(init, xs[0]), xs[1..])
  }

  /** The example's result. */
  function JoinTitles(books: seq<Book>): string
  {
    Accumulate("", Titles(books))
  }

  /** ", x1, x2, ...": every element preceded by the separator. */
  function Prefixed(xs: seq<string>): string
  {
    if xs == [] then "" else ", " + xs[0] + Prefixed(xs[1..])
  }

  /** The reference: the elements joined with ", ", no separator in front ("" for none). */
  function Join(xs: seq<string>): string
  {
    if xs == [] then "" else xs[0] + Prefixed(xs[1..])
  }

  /** The sequence without its leading empty strings. */
  function DropLeadingEmpty(xs: seq<string>): (r: seq<string>)
    ensures r == [] || r[0] != ""
    ensures exists k :: 0 <= k <= |xs| && r == xs[k..] && forall i :: 0 <= i < k ==> xs[i] == ""
  {
    if xs == [] then assert xs == xs[0..]; []
    else if xs[0] == "" then
      var r := DropLeadingEmpty(xs[1..]);
      var k :| 0 <= k <= |xs[1..]| && r == xs[1..][k..] && forall i :: 0 <= i < k ==> xs[1..][i] == "";
      assert r == xs[k + 1..] && forall i :: 0 <= i < k + 1 ==> xs[i] == "";
      r
    else
      assert xs == xs[0..];
      xs
  }

  /** Once the accumulator is not empty, every further title comes with a separator. */
  lemma {:induction false} AccumulateFromNonEmpty(acc: string, xs: seq<string>)
    requires acc != ""
    ensures Accumulate(acc, xs) == acc + Prefixed(xs)
    decreases |xs|
  {
    if xs != [] {
      var next := acc + ", " + xs[0];
      AccumulateFromNonEmpty(next, xs[1..]);
      assert next + Prefixed(xs[1..]) == acc + (", " + xs[0] + Prefixed(xs[1..]));
    }
  }

  /**
   * The fold is the ", "-join of the titles after the leading empty ones: the separator is
   * left out exactly as long as nothing has been written yet.
   */
  lemma {:induction false} AccumulateIsJoin(xs: seq<string>)
    ensures Accumulate("", xs) == Join(DropLeadingEmpty(xs))
    decreases |xs|
  {
    if xs != [] {
      if xs[0] == "" {
        AccumulateIsJoin(xs[1..]);
      } else {
        AccumulateFromNonEmpty(xs[0], xs[1..]);
      }
    }
  }

  /** With no empty title, the result is exactly the ", "-join of the recent titles. */
  lemma JoinTitlesMeaning(books: seq<Book>)
    requires forall i :: 0 <= i < |books| ==> books[i].title != ""
    ensures JoinTitles(books) == Join(Titles(books))
  {
    var ts := Titles(books);
    AccumulateIsJoin(ts);
    if ts != [] {
      var f := Filter(Recent, books);
      FilterMembership(Recent, books, f[0]);
      assert ts[0] == f[0].title;
    }
  }

  /** An empty first title swallows the separator of the next one. */
  lemma EmptyTitleDropsSeparator()
    ensures Accumulate("", ["", "Java"]) == "Java"
    ensures Join(["", "Java"]) == ", Java"
  {
  }

  /** No recent book, no text. */
  lemma NoRecentBook(books: seq<Book>)
    requires forall i :: 0 <= i < |books| ==> books[i].year < 1990
    ensures JoinTitles(books) == ""
  {
    var f := Filter(Recent, books);
    if f != [] {
      FilterMembership(Recent, books, f[0]);
      assert false;
    }
  }

  function Sample(): seq<Book>
  {
    [Book("C", "Dennis Ritchie", 1972), Book("Java", "James Gosling", 1995),
     Book("C++", "Bjarne Stroustrup", 1985), Book("C#", "Anders Hejlsberg", 2000)]
  }

  /** The example list gives "Java, C#". */
  lemma SampleResult()
    ensures JoinTitles(Sample()) == "Java, C#"
  {
    var s := Sample();
    assert Filter(Recent, s[3..]) == [s[3]];
    assert Filter(Recent, s[2..]) == [s[3]];
    assert Filter(Recent, s[1..]) == [s[1], s[3]];
    assert Filter(Recent, s) == [s[1], s[3]];
    assert Titles(s) == ["Java", "C#"];
  }
}
