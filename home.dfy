/**
 * The list view: the books whose title, author or genre contains the search query,
 * ignoring letter case, and the choice between skeleton, empty notice and cards.
 */
module Home {
  import opened JsText
  import opened Books

  /**
   * The filter's callback: the lower-cased query occurs somewhere in the lower-cased
   * title, author or genre.
   */
  predicate Matches(b: Book, query: string)
    ensures Matches(b, query) <==>
      || Occurs(ToLower(b.title), ToLower(query))
      || Occurs(ToLower(b.author), ToLower(query))
      || Occurs(ToLower(b.genre), ToLower(query))
  {
    || Includes(ToLower(b.title), ToLower(query))
    || Includes(ToLower(b.author), ToLower(query))
    || Includes(ToLower(b.genre), ToLower(query))
  }

  /**
   * `books.filter(...)`: every copy of every matching book and nothing else, in the
   * original order (FilterIsSubsequence).
   */
  function FilterBooks(books: seq<Book>, query: string): (r: seq<Book>)
    ensures |r| <= |books|
    ensures forall b :: b in r <==> b in books && Matches(b, query)
    ensures forall b :: multiset(r)[b] == if Matches(b, query) then multiset(books)[b] else 0
  {
    if books == [] then []
    else
      assert books == [books[0]] + books[1..];
      (if Matches(books[0], query) then [books[0]] else []) + FilterBooks(books[1..], query)
  }

  /** `r` is `s` with some elements left out and the rest in the same order. */
  ghost predicate IsSubsequence(r: seq<Book>, s: seq<Book>)
    decreases |s|
  {
    if r == [] then true
    else if s == [] then false
    else (r[0] == s[0] && IsSubsequence(r[1..], s[1..])) || IsSubsequence(r, s[1..])
  }

  /** The filtered list keeps the books' order. */
  lemma {:induction false} FilterIsSubsequence(books: seq<Book>, query: string)
    ensures IsSubsequence(FilterBooks(books, query), books)
    decreases |books|
  {
    if books != [] {
      FilterIsSubsequence(books[1..], query);
      var rest := FilterBooks(books[1..], query);
      if Matches(books[0], query) {
        var r := FilterBooks(books, query);
        assert r[0] == books[0] && r[1..] == rest;
      } else {
        assert FilterBooks(books, query) == rest;
      }
    }
  }

  /** A list whose books all match is kept whole. */
  lemma {:induction false} FilterKeepsAllMatching(books: seq<Book>, query: string)
    requires forall b :: b in books ==> Matches(b, query)
    ensures FilterBooks(books, query) == books
    decreases |books|
  {
    if books != [] {
      assert books[0] in books;
      FilterKeepsAllMatching(books[1..], query);
      assert books == [books[0]] + books[1..];
    }
  }

  /** An empty query keeps every book, in order. */
  lemma EmptyQueryKeepsAll(books: seq<Book>)
    ensures FilterBooks(books, "") == books
  {
    forall b | b in books
      ensures Matches(b, "")
    {
      IncludesEmpty(ToLower(b.title));
    }
    FilterKeepsAllMatching(books, "");
  }

  /** Filtering the filtered list again with the same query changes nothing. */
  lemma FilterIdempotent(books: seq<Book>, query: string)
    ensures FilterBooks(FilterBooks(books, query), query) == FilterBooks(books, query)
  {
    FilterKeepsAllMatching(FilterBooks(books, query), query);
  }

  /** Two queries that lower-case alike select the same books. */
  lemma {:induction false} FilterIgnoresQueryCase(books: seq<Book>, q1: string, q2: string)
    requires ToLower(q1) == ToLower(q2)
    ensures FilterBooks(books, q1) == FilterBooks(books, q2)
    decreases |books|
  {
    if books != [] {
      FilterIgnoresQueryCase(books[1..], q1, q2);
    }
  }

  /** Lower-casing the query first gives the same list. */
  lemma LowerCaseQuerySameResult(books: seq<Book>, query: string)
    ensures FilterBooks(books, ToLower(query)) == FilterBooks(books, query)
  {
    ToLowerIdempotent(query);
    FilterIgnoresQueryCase(books, ToLower(query), query);
  }

  /** What the list view renders. */
  datatype View = Skeleton | NoBookFound | Cards(books: seq<Book>)

  /** The loader while loading; otherwise the empty notice, or the cards of exactly the filtered list. */
  function HomeView(books: seq<Book>, loading: bool, query: string): (v: View)
    ensures v == Skeleton <==> loading
    ensures v == NoBookFound <==> !loading && forall b :: b in books ==> !Matches(b, query)
    ensures v.Cards? ==> v.books == FilterBooks(books, query) && v.books != []
  {
    if loading then Skeleton
    else
      var filteredBooks := FilterBooks(books, query);
      if |filteredBooks| > 0 then
        assert filteredBooks[0] in filteredBooks;
        Cards(filteredBooks)
      else NoBookFound
  }

  /** With no query, a loaded non-empty collection is shown in full. */
  lemma EmptyQueryShowsEverything(books: seq<Book>)
    requires books != []
    ensures HomeView(books, false, "") == Cards(books)
  {
    EmptyQueryKeepsAll(books);
  }
}
