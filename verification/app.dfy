/** The app component: the handlers that change the view state, the list of
    books on screen and the page count. */
module App {
  import opened Seqs
  import opened BookData
  import opened Paging

  /** The page sizes the dropdown offers. */
  predicate AllowedPageSize(n: int) {
    n == 20 || n == 50 || n == 100
  }

  /** What every reachable state satisfies: a page number of at least 1 and
      an offered page size. */
  predicate Valid(st: ViewState) {
    st.currentPage >= 1 && AllowedPageSize(st.booksPerPage)
  }

  lemma InitialValid()
    ensures Valid(InitialState)
  {
  }

  /** `handleSearchInputChange`: typing changes the search term and nothing else. */
  function SearchInputChange(st: ViewState, text: string): (r: ViewState)
    ensures r.searchTerm == text
    ensures r.(searchTerm := st.searchTerm) == st
    ensures Valid(st) ==> Valid(r)
  {
    st.(searchTerm := text)
  }

  /** `handleSearchClick`: the search takes effect and the view returns to page 1. */
  function SearchClick(st: ViewState): (r: ViewState)
    ensures r.searchClicked && r.currentPage == 1
    ensures r.(searchClicked := st.searchClicked, currentPage := st.currentPage) == st
    ensures Valid(st) ==> Valid(r)
  {
    st.(searchClicked := true, currentPage := 1)
  }

  /** `handleClearFilters`: back to the initial state, except that the page
      size is kept. */
  function ClearFilters(st: ViewState): (r: ViewState)
    ensures Unconstrained(r) && r.searchTerm == ""
    ensures r == InitialState.(booksPerPage := st.booksPerPage)
    ensures Valid(st) ==> Valid(r)
  {
    st.(countryFilter := "", languageFilter := "", pagesFilter := "", yearFilter := "",
        searchTerm := "", searchClicked := false, currentPage := 1)
  }

  /** `handlePageClick`: moves to page `n` as given, without comparing it to the page count. */
  function PageClick(st: ViewState, n: int): (r: ViewState)
    ensures r.currentPage == n
    ensures r.(currentPage := st.currentPage) == st
    ensures Valid(st) && n >= 1 ==> Valid(r)
  {
    st.(currentPage := n)
  }

  /** `onBooksPerPageChange`: a new page size, and back to page 1. */
  function BooksPerPageChange(st: ViewState, n: int): (r: ViewState)
    ensures r.booksPerPage == n && r.currentPage == 1
    ensures r.(booksPerPage := st.booksPerPage, currentPage := st.currentPage) == st
    ensures Valid(st) && AllowedPageSize(n) ==> Valid(r)
  {
    st.(booksPerPage := n, currentPage := 1)
  }

  /** `onCountryChange`: sets the country filter; the page is NOT reset. */
  function SetCountryFilter(st: ViewState, v: string): (r: ViewState)
    ensures r.countryFilter == v && r.currentPage == st.currentPage
    ensures r.(countryFilter := st.countryFilter) == st
    ensures Valid(st) ==> Valid(r)
  {
    st.(countryFilter := v)
  }

  /** `onLanguageChange`: sets the language filter; the page is NOT reset. */
  function SetLanguageFilter(st: ViewState, v: string): (r: ViewState)
    ensures r.languageFilter == v && r.currentPage == st.currentPage
    ensures r.(languageFilter := st.languageFilter) == st
    ensures Valid(st) ==> Valid(r)
  {
    st.(languageFilter := v)
  }

  /** `onPagesChange`: sets the page-count selector; the page is NOT reset. */
  function SetPagesFilter(st: ViewState, v: string): (r: ViewState)
    ensures r.pagesFilter == v && r.currentPage == st.currentPage
    ensures r.(pagesFilter := st.pagesFilter) == st
    ensures Valid(st) ==> Valid(r)
  {
    st.(pagesFilter := v)
  }

  /** `onYearChange`: sets the century selector; the page is NOT reset. */
  function SetYearFilter(st: ViewState, v: string): (r: ViewState)
    ensures r.yearFilter == v && r.currentPage == st.currentPage
    ensures r.(yearFilter := st.yearFilter) == st
    ensures Valid(st) ==> Valid(r)
  {
    st.(yearFilter := v)
  }

  /** `currentBooks`: the books shown, at most one page of them, each passing the filter. */
  function CurrentBooks(books: seq<Book>, st: ViewState): (r: seq<Book>)
    ensures Valid(st) ==> |r| <= st.booksPerPage
    ensures Valid(st) ==> forall i :: 0 <= i < |r| ==> Keep(r[i], st)
  {
    CurrentPage(FilteredBooks(books, st), st.currentPage, st.booksPerPage)
  }

  /** `totalPages`: the fewest pages of `booksPerPage` that hold the filtered list. */
  function TotalPages(books: seq<Book>, st: ViewState): (r: nat)
    requires st.booksPerPage >= 1
    ensures r == 0 <==> FilteredBooks(books, st) == []
    ensures r > 0 ==> (r - 1) * st.booksPerPage < |FilteredBooks(books, st)| <= r * st.booksPerPage
  {
    var n := |FilteredBooks(books, st)|;
    CeilDiv(n, st.booksPerPage)
  }

  /** Pages 1 to `TotalPages` show every filtered book once, in order. */
  lemma PagesShowEveryBook(books: seq<Book>, st: ViewState)
    requires st.booksPerPage >= 1
    ensures PagesUpTo(FilteredBooks(books, st), TotalPages(books, st), st.booksPerPage)
         == FilteredBooks(books, st)
  {
    PagesCoverAll(FilteredBooks(books, st), st.booksPerPage);
  }

  /** The screen holds books exactly when the current page is one of the first `TotalPages`. */
  lemma CurrentBooksNonEmptyIff(books: seq<Book>, st: ViewState)
    requires Valid(st)
    ensures CurrentBooks(books, st) != [] <==> st.currentPage <= TotalPages(books, st)
  {
    PageNonEmptyIff(FilteredBooks(books, st), st.currentPage, st.booksPerPage);
  }

  /** Typing without submitting leaves the filtered list as it was. */
  lemma SearchInputDefersFiltering(books: seq<Book>, st: ViewState, text: string)
    requires !st.searchClicked
    ensures FilteredBooks(books, SearchInputChange(st, text)) == FilteredBooks(books, st)
  {
    FilterCongruence(books, SearchInputChange(st, text), st);
  }

  /** Submitting a search can only remove books from the filtered list, and shows its first page. */
  lemma SearchClickNarrows(books: seq<Book>, st: ViewState)
    ensures IsSubsequence(FilteredBooks(books, SearchClick(st)), FilteredBooks(books, st))
    ensures CurrentBooks(books, SearchClick(st))
         == CurrentPage(FilteredBooks(books, SearchClick(st)), 1, st.booksPerPage)
  {
    FilterNarrows(books, st, SearchClick(st));
  }

  /** Clearing twice is clearing once, and a cleared view shows the first page of the whole catalog. */
  lemma ClearFiltersShowsCatalog(books: seq<Book>, st: ViewState)
    requires st.booksPerPage >= 1
    ensures ClearFilters(ClearFilters(st)) == ClearFilters(st)
    ensures FilteredBooks(books, ClearFilters(st)) == books
    ensures CurrentBooks(books, ClearFilters(st)) == books[..Min(st.booksPerPage, |books|)]
    ensures TotalPages(books, ClearFilters(st)) == CeilDiv(|books|, st.booksPerPage)
  {
    FilterUnconstrained(books, ClearFilters(st));
  }

  /** The page count does not depend on the current page, and a page past
      the last one shows nothing (no clamping). */
  lemma PageClickPastLastIsEmpty(books: seq<Book>, st: ViewState, n: int)
    requires Valid(st) && n >= 1
    ensures TotalPages(books, PageClick(st, n)) == TotalPages(books, st)
    ensures CurrentBooks(books, PageClick(st, n)) == [] <==> n > TotalPages(books, st)
  {
    FilterCongruence(books, PageClick(st, n), st);
    CurrentBooksNonEmptyIff(books, PageClick(st, n));
  }

  /** A new page size keeps the filtered list and shows its first page. */
  lemma BooksPerPageChangeShowsFirstPage(books: seq<Book>, st: ViewState, n: int)
    requires AllowedPageSize(n)
    ensures FilteredBooks(books, BooksPerPageChange(st, n)) == FilteredBooks(books, st)
    ensures CurrentBooks(books, BooksPerPageChange(st, n))
         == FilteredBooks(books, st)[..Min(n, |FilteredBooks(books, st)|)]
  {
    FilterCongruence(books, BooksPerPageChange(st, n), st);
  }

  /** Setting a country filter where there was none can only remove books. */
  lemma SetCountryFilterNarrows(books: seq<Book>, st: ViewState, v: string)
    requires st.countryFilter == ""
    ensures IsSubsequence(FilteredBooks(books, SetCountryFilter(st, v)), FilteredBooks(books, st))
  {
    FilterNarrows(books, st, SetCountryFilter(st, v));
  }

  /** Because a facet change keeps the page, it can leave the screen empty
      although books match: twenty books from one (named) country and one from
      another, page 2 shows the last book; choosing the first country leaves
      one page of results and an empty page 2. */
  lemma FacetChangeCanStrandPage(a: Book, b: Book)
    requires a.country != "" && a.country != b.country
    ensures var books := seq(20, i => a) + [b];
            var st := PageClick(InitialState, 2);
            var after := SetCountryFilter(st, a.country);
            && Valid(st) && Valid(after)
            && CurrentBooks(books, st) == [b]
            && |FilteredBooks(books, after)| == 20
            && TotalPages(books, after) == 1
            && CurrentBooks(books, after) == []
  {
    var twenty := seq(20, i => a);
    var books := twenty + [b];
    var st := PageClick(InitialState, 2);
    var after := SetCountryFilter(st, a.country);
    FilterUnconstrained(books, st);
    FilterAppend(twenty, [b], Passes(after));
    FilterAllPass(twenty, Passes(after));
    FilterNonePass([b], Passes(after));
    assert FilteredBooks(books, after) == twenty;
    CeilDivUnique(20, 20, 1);
  }

  /** Twenty-five books at twenty per page make two pages, and page 2 holds books 21 to 25. */
  lemma TwentyFiveBooksExample(books: seq<Book>)
    requires |books| == 25
    ensures TotalPages(books, PageClick(InitialState, 2)) == 2
    ensures CurrentBooks(books, PageClick(InitialState, 2)) == books[20..25]
  {
    FilterUnconstrained(books, PageClick(InitialState, 2));
    CeilDivUnique(25, 20, 2);
  }

  /** Of books with 50, 150 and 250 pages, the "1-100" selector keeps only the first. */
  lemma PagesFilterExample(x: Book, y: Book, z: Book)
    requires x.pages == 50 && y.pages == 150 && z.pages == 250
    ensures FilteredBooks([x, y, z], SetPagesFilter(InitialState, "1-100")) == [x]
  {
    var st := SetPagesFilter(InitialState, "1-100");
    FilterAppend([x], [y, z], Passes(st));
    FilterAllPass([x], Passes(st));
    FilterNonePass([y, z], Passes(st));
    assert [x, y, z] == [x] + [y, z];
  }
}
