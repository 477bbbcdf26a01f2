# Book finder search core, in Dafny

This project models the search and analytics core of a small Flask book finder (`app.py`). The
app runs a query against the Google Books API and caches each response document on disk. It
turns every returned item into a `Book`, applies optional author, genre and minimum-rating
filters, and then builds views over the book list: a genre graph, genres ranked by how many
books list them, and books ranked by rating. Alongside the books it searches OMDb for movies
and the News API for articles. `data_checkpoint/app.py` is a byte-identical copy of `app.py`,
so every citation below holds for both files.

Modules:

- `Wrappers`: `Option`, `Result` and the error values. An error is either a failed request or
  a missing JSON key, i.e. the `KeyError` the app would raise.
- `Text`: the Python string operations the core relies on. These are `[:n]` slicing,
  `', '.join`, `str.lower`, the substring `in`, `str(int)` and lexicographic `<`.
- `Sorting`: Python's stable `sorted` with a key, written as an insertion sort. The lemmas prove
  that it gives a permutation, that it is sorted, that it is stable, and that it is the only
  stable sort.
- `Books`: the `Book` record and `Book(json=...)` normalisation of one API item, plus
  `Book.info`.
- `Catalog`: `search_books`. This covers the response cache (a class whose map is keyed by
  the cache key), the request URL, the normalisation loop and the filter loop.
- `Companion`: `search_movies` and `search_articles`.
- `Analytics`: `create_genre_graph`, `find_most_common_genres` and `find_highest_rated_books`.

The HTTP service is a function parameter from request URL to parsed document (or error), so
the search operations are stated for every possible service response. A dict's key order is
kept as an explicit sequence next to the map, because `most_common_genres` depends on insertion
order when group sizes tie.

Where the code and its documentation disagree, the model follows the code:

- A missing `publishedDate` gives the release year `"No R"`: the default `"No Release Year"`
  is cut to four characters too. A date shorter than four characters is kept as is. The
  release year is therefore not "4 characters or the literal default".
- The rating is whatever `averageRating` holds, or `0` when it is absent. Nothing makes it
  non-negative.
- When no filter is set, `search_books` returns the unfiltered list. When filters are set, the
  returned `totalItems` is still the service's unfiltered count.
- `search_articles` never checks the HTTP status, unlike `search_books` and `search_movies`.
  A News API error reply (a 401, say) is parsed like any other body. It has no `articles`
  key, so the search returns no articles instead of failing. In the model the news service
  fails only on a transport or decoding error, and an error reply arrives as a response
  without `articles`.

## Model

| member | source | states |
|---|---|---|
| Books.FromItem | app.py:46-52 | Normalising an item fails exactly when it has no `volumeInfo`, and the failure is the missing `volumeInfo` key |
| Books.ReleaseYearIsDatePrefix | app.py:49 | The release year is a prefix of `publishedDate`, four characters long or the whole date if it is shorter |
| Books.MissingDateGivesTruncatedDefault | app.py:49 | Without `publishedDate` the release year is `"No R"`, the four-character cut of the default |
| Books.EmptyVolumeInfoGivesDefaults | app.py:47-52 | An empty `volumeInfo` gives title "No Title", author "No Author", year "No R", url "No URL", no genres and rating 0 |
| Books.EachFieldDefaultsAlone | app.py:47-52 | Each field falls back on its own: an absent title gives "No Title", absent authors "No Author", an absent date "No R", an absent link "No URL", absent categories no genres, an absent rating 0, and each present field is kept, whatever the other fields hold |
| Books.AuthorNamesEachAuthor | app.py:48 | The joined author string contains every listed author, and a single author is the author string itself |
| Books.InfoRoundTrip | app.py:70 | `info()` keeps title, author and release year recoverable: parsing the `"T by A (Y)"` text gives them back |
| Catalog.BooksUrlOptionalParams | app.py:105-109 | The request URL carries `&langRestrict=` exactly when `lang` is truthy and `&orderBy=` exactly when `order_by` is truthy, in that order |
| Catalog.EmptyParamIsOmitted | app.py:106-109 | An empty language or order string adds nothing to the URL |
| Catalog.CacheFileNameInjective | app.py:100 | Two cache keys `"{query}_{start_index}.json"` are equal if and only if the queries and start indexes are equal |
| Catalog.ResponseCache.constructor | app.py:94-97 | A fresh cache holds no documents and no request has been sent |
| Catalog.ResponseCache.Store | app.py:117-119 | Storing writes the document under its file name and leaves every other entry as it was |
| Catalog.NormalizeAllMapsItems | app.py:122-126 | Normalisation succeeds if and only if every item has `volumeInfo`. It then yields one book per item, in order; otherwise it fails with the missing `volumeInfo` key |
| Catalog.NormalizeItems | app.py:123-126 | The append loop computes exactly the normalised item list, failing at the first item without `volumeInfo` |
| Catalog.FilteredIsSubsequence | app.py:129-139 | The filtered books are a subsequence of the books: order is kept and nothing is added |
| Catalog.FilteredKeepsExactlyPassing | app.py:129-139 | Each book occurs in the result as often as in the input when it passes every truthy filter, and not at all otherwise |
| Catalog.NoFilterKeepsAll | app.py:129 | With author, genre and minimum rating all falsy, every book is kept |
| Catalog.AuthorFilterMatchesEachAuthor | app.py:132 | A book passes the author filter when the filter is, ignoring case, a substring of any one of its listed authors |
| Catalog.ApplyFilters | app.py:130-139 | The filter loop with its three `continue` tests keeps exactly the books of the conjunctive filter |
| Catalog.BooksFromDocumentFilters | app.py:121-141 | A document with normalisable items gives the filtered books with `totalItems` (0 when absent), and the unfiltered books when no filter is set |
| Catalog.SearchBooks | app.py:73-141 | On a cache hit nothing is fetched and the cached document is used. On a miss the URL is requested once: a failed request is returned and nothing is cached; a successful one is cached before its items are processed |
| Catalog.RepeatedSearchFetchesOnce | app.py:99-119 | Searching `dune` twice at start index 0 (with other options changed) and once at start index 10 sends exactly two requests |
| Companion.MoviesMapsEntries | app.py:165-166 | The movie list is one `{Title, imdbID}` per `Search` entry, in order, if and only if every entry has both keys. Otherwise the error is that of the first incomplete entry, with `Title` checked before `imdbID` |
| Companion.MoviesOf | app.py:163-168 | A missing `Response` is an error, a `Response` other than `"True"` gives no movies, and a non-empty result needs `"True"` and a `Search` list |
| Companion.SearchMovies | app.py:156-168 | A failed request raises its error, and any result comes from a successful response |
| Companion.FoundMovies | app.py:163-166 | A `"True"` response with complete entries gives one movie per entry, in order, each holding that entry's `Title` and `imdbID` |
| Companion.NewsUrlLanguage | app.py:184-187 | The news URL carries `&language=` exactly when `lang` is truthy |
| Companion.ToArticle | app.py:195-200 | An article entry converts exactly when it has title, url, source, source name and publication time |
| Companion.ArticlesMapsEntries | app.py:194-201 | Collection succeeds if and only if every entry is readable, and then gives one article per entry, in order |
| Companion.ArticlesStopAtFirstUnreadable | app.py:194-201 | The first unreadable entry decides the error |
| Companion.CollectArticles | app.py:193-201 | The append loop computes exactly the collected article list or its first error |
| Companion.StrLtIsStrictTotalOrder | app.py:203 | Python's string `<` on publication times is a strict total order |
| Companion.EarliestArticles | app.py:203-205 | The result has `min(max_articles, n)` articles drawn from the input and sorted by publication time. No dropped article was published strictly earlier than a kept one, and articles with equal times keep the response order |
| Companion.ArticlesOf | app.py:190-205 | A response without `articles` gives no articles; otherwise the result succeeds exactly when collection does |
| Companion.SearchArticles | app.py:184-205 | Builds the URL, fetches, and returns the fetch error or the sorted, truncated articles of the response; a response without `articles`, such as an error reply, gives no articles |
| Analytics.CreateGenreGraph | app.py:218-222 | The defaultdict loop builds the genre graph: keys in first-seen order, each key mapped to the books listing it |
| Analytics.FindMostCommonGenres | app.py:229-241 | The explicit-dict loop builds the same genre graph. Its lists hold one entry per genre listing in total, and the returned ranking is the stable sort of its keys by list size |
| Analytics.GenreGraphMembers | app.py:229-239 | The graph has a key exactly for each genre some book lists, and each list holds exactly the books listing that genre |
| Analytics.FirstSeenMembers | app.py:231-237 | The dict's key order holds each listed genre once and nothing else |
| Analytics.GroupMembers | app.py:231-237 | A book is in a genre's list if and only if it is one of the books and lists that genre |
| Analytics.RankGenresOrdersKeys | app.py:240 | The ranked genres are the dict's keys, each once, by non-increasing list size; keys with equal sizes keep first-seen order |
| Analytics.GenreGraphExample | app.py:229-239 | Books listing ["sci-fi", "drama"] and ["drama"] give keys sci-fi then drama, with lists [first book] and [both books] |
| Analytics.GenreExample | app.py:229-240 | Books listing ["sci-fi", "drama"] and ["drama"]: drama holds both books and ranks before sci-fi |
| Analytics.HighestRatedBooks | app.py:254 | The ranked books are a permutation of the input in non-increasing rating, and equally rated books keep input order |
| Analytics.HighestRatedExample | app.py:254 | Ratings 3.0, 5.0, 5.0 come out as the two 5.0 books in input order, then the 3.0 book |
| Sorting.SortByIsStableSort | app.py:254 | Sorting with a key under a strict total order gives a permutation that is sorted and keeps the input order within each key |
| Sorting.StableSortIsUnique | app.py:254 | Any sorted permutation that keeps the order within each key equals the sort, so the model pins down Python's `sorted` exactly |
| Sorting.SelectPrefix | app.py:205 | Cutting a sorted list short keeps, for each key, a prefix of that key's elements |
| Sorting.PrefixOfSort | app.py:203-205 | A prefix of the sorted list is drawn from the input and sorted. Nothing left out comes strictly before a kept element, and each key keeps a prefix of its elements in input order |
| Text.Take | app.py:49 | `s[:n]` is a prefix of `s`, of length `n` capped at `len(s)`, and of length `len(s) + n` (at least 0) for negative `n` |
| Text.JoinContainsEachPart | app.py:48 | `sep.join(parts)` contains every part |
| Text.ContainsIffOccurs | app.py:132 | Substring `in` holds exactly when the needle occurs at some position |
| Text.LowerIsLowerCase | app.py:132 | Lower-cased text has no upper-case letter, lower-casing is idempotent, and a character changes exactly when it is an upper-case letter |
| Text.LowerKeepsContains | app.py:132 | Lower-casing keeps every substring relation |
| Text.IntStr | app.py:100 | `str(i)` is a non-empty string of digits with a leading `-` exactly for negative `i` |
| Text.IntStrInjective | app.py:100 | Different integers print differently |
| Text.StrLtIrreflexive | app.py:203 | No string is less than itself |
| Text.StrLtTransitive | app.py:203 | String `<` is transitive |
| Text.StrLtConnected | app.py:203 | Of two different strings one is less than the other |

## Left out

- The Flask routes, form and query-string parsing, template rendering, the `search_history` list and the server start-up are outside the modelled core.
- `get_movie_description` (lines 255-282: an IMDb page fetched with `requests` and its plot read with BeautifulSoup) is not part of this model. The Selenium imports (lines 10-16) are unused.
- The HTTP requests and JSON decoding become a function parameter from URL to parsed document or error. A failed request is one error value. For books and movies that covers a non-2xx status (`raise_for_status`); for news it covers only transport and decoding errors.
- The cache directory is a map from cache key `"{query}_{start_index}.json"` to document. Creating the directory is dropped. Writing with `json.dump` and reading back with `json.load` are taken to give back the same document.
- Catalog.CacheFileNameInjective: keys are told apart as strings, but `os.path.join` (line 100) makes the file a path. So `./dune` and `dune` share the file `cache/dune_0.json`. A query holding `/`, such as `AC/DC`, names a missing subdirectory, so the write at line 118 raises after a successful fetch. Paths are not modelled.
- The movie URL is built but not proved about: it has no optional parts.
- The keyword-argument branch of `Book.__init__` (lines 53-59) is left out. `search_books` reaches it for an `items` entry that is JSON `null`: `Book(json=None)` (line 125) fails the `json is not None` test (line 46). That book has release year "No Release Year", not cut, and rating `None`, so a truthy `min_rating` raises `TypeError` at line 136. An `Item` cannot be `null` in the model.
- JSON `null` and an absent key are not told apart: both are `None`. JSON values of the wrong type (a non-string `publishedAt`, a non-numeric `averageRating`) are not modelled.
- Ratings are `real`, not IEEE floats. `float()` conversion, NaN and infinities are not modelled.
- Books.FromItem: `averageRating` is taken as a number already, so a failing `float()` conversion is not modelled.
- Text.Lower: lower-cases ASCII letters only, not the full Unicode case mapping of `str.lower`.
- Text.StrLt: compares characters by code point, as Python does, but strings are sequences of Dafny characters and no encoding is modelled.
- Companion.EarliestArticles: `sorted` over a `None` publication time would raise `TypeError`; publication times are always strings in the model.
- The environment keys, `load_dotenv` and the unused imports are left out.
