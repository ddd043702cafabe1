# Book list view pipeline, in Dafny

This project models the client-side view pipeline of the BookLists app. It
takes a catalog of book records and a set of view parameters and derives what
is shown:

- the filtered list, where all predicates are AND-combined: a case-insensitive
  title/author search that applies only once submitted, exact country and
  language facets, and page-count and century buckets;
- the facet option lists, sorted and free of duplicates;
- the window of the filtered list shown on the current page;
- the page count.

It also models the handlers that change the view parameters. Everything is a
pure function over an immutable `Book` sequence and a `ViewState` record.

Modules, one per concern:

- `Seqs`: order-preserving subsequences, `NoDuplicates`, and a generic
  `Filter` (`Array.prototype.filter`) with its lemmas.
- `Text`: ASCII lower-casing, substring containment
  (`String.prototype.includes`, proved equal to a reference "occurs at some
  position" predicate), and the lexicographic character order used by the
  default `sort`.
- `Facets`: `Distinct` (`[...new Set(xs)]`, proved to list each value once,
  in order of first appearance), an insertion sort that models the default
  `sort`, and `UniqueSorted`. `StrictlySortedUnique` shows that the sorted
  option list depends only on the set of values.
- `BookData` (the `useBookData` hook): `Book`, `Bounds`, the bucket tables,
  `ViewState`, the filter predicate, `FilteredBooks`, and the facet lists.
- `Paging`: `slice` with JavaScript's index rules, the page window, ceiling
  division, and the proof that the pages together hold the list exactly.
- `App` (the `App` component): the handlers, `CurrentBooks`, `TotalPages`, and
  lemmas that tie each handler to its effect on the view.

How the current page moves:

- Submitting a search (src/App.js:44-47), clearing the filters
  (src/App.js:50-58) and changing the page size (src/App.js:93-96) set the
  page back to 1.
- The country, language, page-count and century dropdowns are wired straight
  to the state setters (src/App.js:89-92), so changing a facet keeps the
  current page.
- The page can therefore end up past the last page of the filtered list.
  `App.FacetChangeCanStrandPage` gives an example. There are twenty books from
  one country and one from another, and page 2 shows the last book. Choosing
  the first country leaves one page of results, but the screen still shows
  page 2, which is empty. The model keeps only `currentPage >= 1` and an
  offered page size (`App.Valid`), and every handler preserves that.

## Model

| member | source | states |
|---|---|---|
| `Seqs.Filter` | src/hooks/useBookData.js:52 | `filter` returns an order-preserving subsequence of its input, and every element it returns passes the predicate |
| `Seqs.FilterCounts` | src/hooks/useBookData.js:52 | `filter` keeps every copy of an element that passes and no copy of one that fails |
| `Text.Includes` | src/hooks/useBookData.js:55-56 | `s.includes(t)` is true exactly when `t` occurs in `s` at some position; the empty string is included in every string |
| `Text.Lower` | src/hooks/useBookData.js:55-56 | lower-casing keeps the length, leaves no capital letter, and maps each character on its own |
| `Text.LowerIdempotent` | src/hooks/useBookData.js:55-56 | lower-casing an already lower-cased term changes nothing, so the search is insensitive to the case of the term |
| `Text.LessTotal` | src/hooks/useBookData.js:43 | the sort order compares any two different strings one way or the other |
| `Text.LessTransitive` | src/hooks/useBookData.js:43 | the sort order is transitive, so a sorted list is ordered pairwise |
| `Facets.Distinct` | src/hooks/useBookData.js:43 | `[...new Set(xs)]` has no repeats and holds exactly the values of `xs`. It is a subsequence of `xs`, and it lists the values in the order of their first occurrence in `xs` |
| `Facets.Insert` | src/hooks/useBookData.js:43 | inserting into an ascending list gives an ascending list with one more copy of the value, every other count unchanged |
| `Facets.SortStrings` | src/hooks/useBookData.js:43 | `sort` yields an ascending permutation of its input, repeats included |
| `Facets.UniqueSorted` | src/hooks/useBookData.js:43 | `[...new Set(xs)].sort()` is ascending without repeats and holds exactly the values of `xs` |
| `Facets.StrictlySortedUnique` | src/hooks/useBookData.js:43 | two strictly ascending lists with the same values are equal, so the option list is the only ascending listing of the distinct values |
| `BookData.FilterByRange` | src/hooks/useBookData.js:3 | `filterByRange` admits a value exactly when it lies between the ends, both included; an inverted range admits nothing |
| `BookData.Bounds.Admits` | src/hooks/useBookData.js:61-65 | a missing range (`null`) admits every value; a range admits exactly the values between its ends, both included |
| `BookData.CenturyRange` | src/hooks/useBookData.js:5-13 | exactly the four labels '16th'..'19th' give a range, each spanning one hundred years; any other label gives no range |
| `BookData.PageRange` | src/hooks/useBookData.js:15-22 | exactly the labels '1-100', '101-200', '201-300' give a range of one hundred page counts; any other label gives no range |
| `BookData.CenturyRangeIsCentury` | src/hooks/useBookData.js:3-13 | the k-th century label admits a year exactly when the year lies in the (16+k)-th century, inclusive at both ends (1501..1600 for '16th') |
| `BookData.PageRangeIsBlock` | src/hooks/useBookData.js:15-22 | the k-th page label admits a page count exactly when it lies in the (k+1)-th block of one hundred (1..100, 101..200, 201..300) |
| `BookData.SearchSemantics` | src/hooks/useBookData.js:53-56 | before submission every book passes the search; after it, a book passes exactly when its lower-cased title or author contains the lower-cased term; the empty term passes every book; the case of the term does not matter |
| `BookData.Keep` | src/hooks/useBookData.js:53-67 | a book passes exactly when, if a search was submitted, its lower-cased title or author contains the lower-cased term; it matches each non-empty facet exactly; and its pages and year lie inside the ranges of any known selectors |
| `BookData.FilteredBooks` | src/hooks/useBookData.js:52-68 | the filtered list is an order-preserving subsequence of the catalog, and every book in it passes all five predicates |
| `BookData.FilteredMembership` | src/hooks/useBookData.js:52-68 | a book is kept exactly when it is in the catalog and passes all five predicates; every copy of a passing book is kept, and no copy of a failing one |
| `BookData.FilterCongruence` | src/hooks/useBookData.js:52-68 | two view states that keep the same books filter the catalog to the same list |
| `BookData.FilterNarrows` | src/hooks/useBookData.js:67 | a view state whose predicates are stricter yields a subsequence of the other's filtered list |
| `BookData.FilterUnconstrained` | src/hooks/useBookData.js:53-67 | with no search submitted, the country and language filters empty, and bucket selectors that are empty or unknown, the filtered list is the whole catalog |
| `BookData.UniqueCountries` | src/hooks/useBookData.js:42-45 | the country options are ascending, without repeats, and are exactly the countries of the catalog; they depend on the catalog only |
| `BookData.UniqueLanguages` | src/hooks/useBookData.js:47-50 | the language options are ascending, without repeats, and are exactly the languages of the catalog; they depend on the catalog only |
| `Paging.RelativeIndex` | src/hooks/useBookData.js:72 | a `slice` bound lies between 0 and the length: a non-negative bound is capped at the length, and a negative one counts back from the end, stopping at 0 |
| `Paging.Slice` | src/hooks/useBookData.js:72 | `slice` never fails; with `0 <= start <= end` it is the window between the bounds, clamped to the length; with non-negative bounds it is empty when the start is at or past the end of the list or at or past `end` |
| `Paging.CurrentPage` | src/hooks/useBookData.js:70-72 | page `p` of size `n` is the contiguous window starting at `(p-1)*n`, clamped to the list; it holds at most `n` items, is empty when the start is at or past the end, and otherwise holds `min(n, length - start)` items |
| `Paging.CeilDiv` | src/App.js:67 | `Math.ceil(len / n)` is 0 exactly for an empty list, and otherwise `(pages-1)*n < len <= pages*n` |
| `Paging.CeilDivUnique` | src/App.js:67 | any page count `k >= 1` with `(k-1)*n < len <= k*n` is the ceiling, so the bounds characterise it |
| `Paging.PageNonEmptyIff` | src/hooks/useBookData.js:70-72 | a page is non-empty exactly when its number is at most the page count |
| `Paging.PagesUpToIsPrefix` | src/hooks/useBookData.js:70-72 | pages 1 to k, one after the other, are the first k*n items, with none skipped or repeated |
| `Paging.PagesCoverAll` | src/App.js:67 | pages 1 to the page count, one after the other, are exactly the list |
| `App.InitialValid` | src/hooks/useBookData.js:26-27 | the initial state, page 1 with twenty per page, satisfies the state invariant |
| `App.SearchInputChange` | src/App.js:41 | typing sets the search term and changes no other field; the state invariant is kept |
| `App.SearchClick` | src/App.js:44-47 | submitting sets `searchClicked` and returns to page 1, changing no other field; the state invariant is kept |
| `App.ClearFilters` | src/App.js:50-58 | clearing empties the four filters and the term, unsets `searchClicked`, and returns to page 1; the result is the initial state with the page size kept |
| `App.PageClick` | src/App.js:61-62 | a page click sets the page to the number given, with no clamping, and changes no other field |
| `App.BooksPerPageChange` | src/App.js:93-96 | a new page size is stored and the page returns to 1; no other field changes |
| `App.SetCountryFilter` | src/App.js:89 | the country filter is set and the current page is kept; no other field changes |
| `App.SetLanguageFilter` | src/App.js:90 | the language filter is set and the current page is kept; no other field changes |
| `App.SetPagesFilter` | src/App.js:91 | the page-count selector is set and the current page is kept; no other field changes |
| `App.SetYearFilter` | src/App.js:92 | the century selector is set and the current page is kept; no other field changes |
| `App.CurrentBooks` | src/hooks/useBookData.js:70-72 | the books on screen number at most one page size, and each passes the filter |
| `App.TotalPages` | src/App.js:67 | the page count is 0 exactly when nothing passes the filter, and otherwise is the fewest pages that hold the filtered list |
| `App.PagesShowEveryBook` | src/App.js:67 | paging through pages 1 to the page count shows every filtered book once, in order |
| `App.CurrentBooksNonEmptyIff` | src/hooks/useBookData.js:70-72 | the screen shows books exactly when the current page is at most the page count |
| `App.SearchInputDefersFiltering` | src/App.js:41 | before a search is submitted, typing leaves the filtered list unchanged |
| `App.SearchClickNarrows` | src/App.js:44-47 | submitting a search can only remove books from the filtered list, and the screen then shows its first page |
| `App.ClearFiltersShowsCatalog` | src/App.js:50-58 | clearing twice is the same as clearing once; after clearing, the filtered list is the whole catalog, the screen shows its first page, and the page count is that of the catalog |
| `App.PageClickPastLastIsEmpty` | src/App.js:61-62 | a page click does not change the page count, and the screen is empty exactly when the chosen page is past the last |
| `App.BooksPerPageChangeShowsFirstPage` | src/App.js:93-96 | a new page size keeps the filtered list and shows its first `n` books |
| `App.SetCountryFilterNarrows` | src/App.js:89 | choosing a country where none was chosen can only remove books from the filtered list |
| `App.FacetChangeCanStrandPage` | src/App.js:89-92 | because a facet change keeps the page, a valid state on a non-empty page 2 can turn into one whose filtered list fills one page while the screen shows the empty page 2 |
| `App.TwentyFiveBooksExample` | src/App.js:67 | twenty-five books at twenty per page make two pages, and page 2 shows books 21 to 25 |
| `App.PagesFilterExample` | src/hooks/useBookData.js:61-62 | of books with 50, 150 and 250 pages, the '1-100' selector keeps only the first |

## Left out

- The catalog load (`fetch('/books.json')` in `useEffect`,
  src/hooks/useBookData.js:36-40) is network I/O. The catalog is an input
  sequence. A failed load leaves the catalog empty, and the model covers the
  empty catalog like any other.
- React state, memoisation and re-rendering are not modelled. State is an
  immutable `ViewState` record, handlers are pure functions from state to
  state, and the derived values are functions of the catalog and the state.
- `window.scrollTo` in `handlePageClick` (src/App.js:63) and the `BackToTop`
  component are scroll side effects.
- The presentational components `Header`, `SearchBar`, `BookList` (including
  the image URL concatenation), `Filters` and `Pagination` only map props to
  markup. The model takes from them only the offered values: page sizes 20,
  50 and 100 (`App.AllowedPageSize`), and page buttons numbered from 1.
- `Text.Lower`: lower-cases only the ASCII capitals, not the full Unicode case
  mapping of `toLowerCase`.
- `Text.Less`: compares Dafny characters (Unicode scalar values). JavaScript's
  default `sort` compares UTF-16 code units. The two orders differ only for
  characters outside the Basic Multilingual Plane.
- `App.BooksPerPageChange`: takes the page size as an integer. The
  `Number(val)` parsing of the dropdown's string (src/App.js:94) is not
  modelled.
- `App.TotalPages`: uses exact integer ceiling division where the source uses
  floating-point `Math.ceil(length / booksPerPage)`. The two agree for every
  list length below 2^53. It requires a positive page size, which every
  reachable state has.
- `Slice` does cover JavaScript's negative indices. The model proves
  properties of the page window only for page numbers of at least 1, the only
  numbers the page buttons produce.
