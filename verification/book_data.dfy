/** The data half of the book view: book records, the page-count and
    century buckets, the view parameters, the filter over the catalog and
    the facet option lists (the `useBookData` hook). */
module BookData {
  import opened Seqs
  import opened Text
  import opened Facets

  /** One catalog record. */
  datatype Book = Book(
    title: string,
    author: string,
    country: string,
    language: string,
    year: int,
    pages: int,
    imageLink: string)

  /** An inclusive range `[min, max]`, or no range at all (`null`). */
  datatype Bounds = Unbounded | Between(min: int, max: int)
  {
    /** `!range || filterByRange(value, range)`: no range admits everything,
        a range admits the values between its ends. */
    function Admits(value: int): (r: bool)
      ensures Unbounded? ==> r
      ensures Between? ==> (r <==> min <= value <= max)
    {
      Unbounded? || FilterByRange(value, min, max)
    }
  }

  /** `filterByRange`: membership of an inclusive range. A value is admitted
      exactly when it lies between the ends, both included, so an inverted
      range admits nothing. */
  function FilterByRange(value: int, min: int, max: int): (r: bool)
    ensures r ==> min <= max
    ensures min <= value <= max ==> r
    ensures value < min || max < value ==> !r
  {
    value >= min && value <= max
  }

  /** The labels of the century dropdown, 16th to 19th, in order. */
  const CenturyLabels: seq<string> := ["16th", "17th", "18th", "19th"]

  /** The labels of the page-count dropdown, in order. */
  const PageLabels: seq<string> := ["1-100", "101-200", "201-300"]

  /** `getCenturyRange`: a known century selector maps to the hundred years of
      that century, any other selector to no range. */
  function CenturyRange(selector: string): (r: Bounds)
    ensures r.Between? <==> selector in CenturyLabels
    ensures r.Between? ==> r.max == r.min + 99
  {
    if selector == "16th" then Between(1501, 1600)
    else if selector == "17th" then Between(1601, 1700)
    else if selector == "18th" then Between(1701, 1800)
    else if selector == "19th" then Between(1801, 1900)
    else Unbounded
  }

  /** `getPageRange`: a known page-count selector maps to its block of one
      hundred pages, any other selector to no range. */
  function PageRange(selector: string): (r: Bounds)
    ensures r.Between? <==> selector in PageLabels
    ensures r.Between? ==> r.max == r.min + 99
  {
    if selector == "1-100" then Between(1, 100)
    else if selector == "101-200" then Between(101, 200)
    else if selector == "201-300" then Between(201, 300)
    else Unbounded
  }

  /** The ordinal century of a year (1501..1600 is the 16th), independent of
      the lookup table. */
  function CenturyOf(year: int): int {
    (year - 1) / 100 + 1
  }

  /** The ordinal hundred-page block of a page count (1..100 is the first). */
  function PageBlockOf(pages: int): int {
    (pages - 1) / 100 + 1
  }

  /** The k-th century selector admits exactly the years of the (16+k)-th century. */
  lemma CenturyRangeIsCentury(k: nat, year: int)
    requires k < |CenturyLabels|
    ensures CenturyRange(CenturyLabels[k]).Admits(year) <==> CenturyOf(year) == 16 + k
  {
  }

  /** The k-th page selector admits exactly the page counts of the (k+1)-th block of one hundred. */
  lemma PageRangeIsBlock(k: nat, pages: int)
    requires k < |PageLabels|
    ensures PageRange(PageLabels[k]).Admits(pages) <==> PageBlockOf(pages) == k + 1
  {
  }

  /** The view parameters the hook keeps in state. */
  datatype ViewState = ViewState(
    currentPage: int,
    booksPerPage: int,
    searchTerm: string,
    searchClicked: bool,
    countryFilter: string,
    languageFilter: string,
    pagesFilter: string,
    yearFilter: string)

  /** The state before any interaction: page 1, twenty per page, nothing filtered. */
  const InitialState: ViewState := ViewState(1, 20, "", false, "", "", "", "")

  /** The search predicate: vacuous until the search is submitted, then a
      case-insensitive substring match on title or author. */
  predicate MatchesSearch(b: Book, term: string, clicked: bool) {
    || !clicked
    || Includes(Lower(b.title), Lower(term))
    || Includes(Lower(b.author), Lower(term))
  }

  /** Before submission the search admits every book; after it, a book
      matches exactly when its lower-cased title or author contains the
      lower-cased term. The empty term matches every book, and the case of the
      term does not matter. */
  lemma SearchSemantics(b: Book, term: string, clicked: bool)
    ensures !clicked ==> MatchesSearch(b, term, clicked)
    ensures clicked ==> (MatchesSearch(b, term, clicked) <==>
      Occurs(Lower(b.title), Lower(term)) || Occurs(Lower(b.author), Lower(term)))
    ensures term == "" ==> MatchesSearch(b, term, clicked)
    ensures MatchesSearch(b, Lower(term), clicked) <==> MatchesSearch(b, term, clicked)
  {
    LowerIdempotent(term);
  }

  /** An exact-match facet, where the empty filter matches everything. */
  predicate MatchesFacet(value: string, filter: string) {
    filter == "" || value == filter
  }

  /** All five predicates of the filter, AND-combined: the submitted search,
      the two exact facets, and the two buckets, where a selector outside
      the tables sets no bound. */
  function Keep(b: Book, st: ViewState): (r: bool)
    ensures r <==>
      && (st.searchClicked ==>
            Occurs(Lower(b.title), Lower(st.searchTerm)) || Occurs(Lower(b.author), Lower(st.searchTerm)))
      && (st.countryFilter == "" || b.country == st.countryFilter)
      && (st.languageFilter == "" || b.language == st.languageFilter)
      && (st.pagesFilter in PageLabels ==> PageRange(st.pagesFilter).min <= b.pages <= PageRange(st.pagesFilter).max)
      && (st.yearFilter in CenturyLabels ==> CenturyRange(st.yearFilter).min <= b.year <= CenturyRange(st.yearFilter).max)
  {
    && MatchesSearch(b, st.searchTerm, st.searchClicked)
    && MatchesFacet(b.country, st.countryFilter)
    && MatchesFacet(b.language, st.languageFilter)
    && PageRange(st.pagesFilter).Admits(b.pages)
    && CenturyRange(st.yearFilter).Admits(b.year)
  }

  /** The filter predicate of a view state, as a function value. */
  function Passes(st: ViewState): Book -> bool {
    b => Keep(b, st)
  }

  /** `books.filter(...)`: the books that satisfy every predicate, in catalog order. */
  function FilteredBooks(books: seq<Book>, st: ViewState): (r: seq<Book>)
    ensures IsSubsequence(r, books)
    ensures forall i :: 0 <= i < |r| ==> Keep(r[i], st)
  {
    Filter(books, Passes(st))
  }

  /** A book is in the filtered list exactly when it is in the catalog and
      passes every predicate; each passing book keeps all its copies. */
  lemma FilteredMembership(books: seq<Book>, st: ViewState, b: Book)
    ensures multiset(FilteredBooks(books, st))[b] == if Keep(b, st) then multiset(books)[b] else 0
    ensures b in FilteredBooks(books, st) <==> b in books && Keep(b, st)
  {
    var r := FilteredBooks(books, st);
    FilterCounts(books, Passes(st), b);
    assert b in r <==> multiset(r)[b] > 0;
    assert b in books <==> multiset(books)[b] > 0;
  }

  /** The filter depends on the view state only through which books it keeps. */
  lemma FilterCongruence(books: seq<Book>, s1: ViewState, s2: ViewState)
    requires forall i :: 0 <= i < |books| ==> (Keep(books[i], s1) <==> Keep(books[i], s2))
    ensures FilteredBooks(books, s1) == FilteredBooks(books, s2)
  {
    FilterCongruent(books, Passes(s1), Passes(s2));
  }

  /** A state that keeps fewer books yields a subsequence of the filtered list. */
  lemma FilterNarrows(books: seq<Book>, wide: ViewState, narrow: ViewState)
    requires forall i :: 0 <= i < |books| ==> Keep(books[i], narrow) ==> Keep(books[i], wide)
    ensures IsSubsequence(FilteredBooks(books, narrow), FilteredBooks(books, wide))
  {
    FilterStronger(books, Passes(wide), Passes(narrow));
  }

  /** A state that constrains nothing: no search submitted, both facets
      empty, and bucket selectors that are empty or not in the tables (an
      unknown selector means no range). */
  predicate Unconstrained(st: ViewState) {
    && !st.searchClicked
    && st.countryFilter == ""
    && st.languageFilter == ""
    && st.pagesFilter !in PageLabels
    && st.yearFilter !in CenturyLabels
  }

  /** With nothing constrained the filtered list is the whole catalog. */
  lemma FilterUnconstrained(books: seq<Book>, st: ViewState)
    requires Unconstrained(st)
    ensures FilteredBooks(books, st) == books
  {
    FilterAllPass(books, Passes(st));
  }

  /** The country column of the catalog. */
  function Countries(books: seq<Book>): (r: seq<string>)
    ensures |r| == |books| && forall i :: 0 <= i < |books| ==> r[i] == books[i].country
  {
    seq(|books|, i requires 0 <= i < |books| => books[i].country)
  }

  /** The language column of the catalog. */
  function Languages(books: seq<Book>): (r: seq<string>)
    ensures |r| == |books| && forall i :: 0 <= i < |books| ==> r[i] == books[i].language
  {
    seq(|books|, i requires 0 <= i < |books| => books[i].language)
  }

  /** `uniqueCountries`: the countries of the whole catalog, ascending, each once. */
  function UniqueCountries(books: seq<Book>): (r: seq<string>)
    ensures StrictlySorted(r) && NoDuplicates(r)
    ensures forall c :: c in r <==> exists i :: 0 <= i < |books| && books[i].country == c
  {
    var cs := Countries(books);
    var r := UniqueSorted(cs);
    assert forall c :: c in cs <==> exists i :: 0 <= i < |books| && books[i].country == c by {
      forall c | c in cs
        ensures exists i :: 0 <= i < |books| && books[i].country == c
      {
        var i :| 0 <= i < |cs| && cs[i] == c;
      }
    }
    r
  }

  /** `uniqueLanguages`: the languages of the whole catalog, ascending, each once. */
  function UniqueLanguages(books: seq<Book>): (r: seq<string>)
    ensures StrictlySorted(r) && NoDuplicates(r)
    ensures forall l :: l in r <==> exists i :: 0 <= i < |books| && books[i].language == l
  {
    var ls := Languages(books);
    var r := UniqueSorted(ls);
    assert forall l :: l in ls <==> exists i :: 0 <= i < |books| && books[i].language == l by {
      forall l | l in ls
        ensures exists i :: 0 <= i < |books| && books[i].language == l
      {
        var i :| 0 <= i < |ls| && ls[i] == l;
      }
    }
    r
  }
}
