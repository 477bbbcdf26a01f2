/**
 * `search_books`: the on-disk response cache keyed by query and start index, the request URL,
 * the normalisation of every item and the conjunctive post-filter on author, genre and rating.
 */
module Catalog {
  import opened Wrappers
  import opened Text
  import opened Books

  /** A Google Books search response. */
  datatype SearchDocument = SearchDocument(totalItems: Option<int>, items: Option<seq<Item>>)

  /** Python truthiness of an optional string: `None` and `""` are both false. */
  predicate Truthy(s: Option<string>)
  {
    s.Some? && s.value != ""
  }

  /** Python truthiness of an optional rating: `None` and `0` are both false. */
  predicate RatingTruthy(m: Option<real>)
  {
    m.Some? && m.value != 0.0
  }

  // ----- Request URL -----

  function BooksBaseUrl(query: string, apiKey: string, maxResults: int, startIndex: int): string
  {
    "https://www.googleapis.com/books/v1/volumes?q=" + query + "&maxResults=" + IntStr(maxResults)
      + "&startIndex=" + IntStr(startIndex) + "&key=" + apiKey
  }

  /** The query-string fragment `&name=value`. */
  function Param(name: string, value: string): string
  {
    "&" + name + "=" + value
  }

  /** `&name=value` when the value is truthy, nothing otherwise. */
  function OptionalParam(name: string, value: Option<string>): string
  {
    if Truthy(value) then Param(name, value.value) else ""
  }

  function BooksUrl(query: string, apiKey: string, maxResults: int, startIndex: int,
                    lang: Option<string>, orderBy: Option<string>): string
  {
    BooksBaseUrl(query, apiKey, maxResults, startIndex)
      + OptionalParam("langRestrict", lang) + OptionalParam("orderBy", orderBy)
  }

  /** `langRestrict` and `orderBy` are appended, in that order, exactly when they are truthy. */
  lemma BooksUrlOptionalParams(query: string, apiKey: string, maxResults: int, startIndex: int,
                               lang: Option<string>, orderBy: Option<string>)
    ensures var base, url := BooksBaseUrl(query, apiKey, maxResults, startIndex),
                             BooksUrl(query, apiKey, maxResults, startIndex, lang, orderBy);
            && (!Truthy(lang) && !Truthy(orderBy) ==> url == base)
            && (Truthy(lang) && !Truthy(orderBy) ==> url == base + Param("langRestrict", lang.value))
            && (!Truthy(lang) && Truthy(orderBy) ==> url == base + Param("orderBy", orderBy.value))
            && (Truthy(lang) && Truthy(orderBy)
                ==> url == base + Param("langRestrict", lang.value) + Param("orderBy", orderBy.value))
  {
    var base := BooksBaseUrl(query, apiKey, maxResults, startIndex);
    var withLang := base + OptionalParam("langRestrict", lang);
    if !Truthy(lang) {
      assert withLang == base;
    }
    if !Truthy(orderBy) {
      assert withLang + OptionalParam("orderBy", orderBy) == withLang;
    }
  }

  /** An empty string omits a parameter just as `None` does. */
  lemma EmptyParamIsOmitted(query: string, apiKey: string, maxResults: int, startIndex: int,
                            lang: Option<string>, orderBy: Option<string>)
    ensures BooksUrl(query, apiKey, maxResults, startIndex, Some(""), orderBy)
         == BooksUrl(query, apiKey, maxResults, startIndex, None, orderBy)
    ensures BooksUrl(query, apiKey, maxResults, startIndex, lang, Some(""))
         == BooksUrl(query, apiKey, maxResults, startIndex, lang, None)
  {
  }

  // ----- Response cache -----

  /** The cache key `f"{query}_{start_index}.json"`; the other request options play no part. */
  function CacheFileName(query: string, startIndex: int): string
  {
    query + "_" + IntStr(startIndex) + ".json"
  }

  /** The position of the last '_' in `x`, or -1 when it has none. */
  function LastUnderscore(x: string): int
  {
    if |x| == 0 then -1
    else if x[|x| - 1] == '_' then |x| - 1
    else LastUnderscore(x[..|x| - 1])
  }

  lemma {:induction false} LastUnderscoreFollowsQuery(q: string, d: string)
    requires forall k :: 0 <= k < |d| ==> d[k] != '_'
    ensures LastUnderscore(q + "_" + d) == |q|
  {
    var x := q + "_" + d;
    if |d| > 0 {
      assert x[..|x| - 1] == q + "_" + d[..|d| - 1];
      LastUnderscoreFollowsQuery(q, d[..|d| - 1]);
    }
  }

  /**
   * Two searches share a cache key exactly when they have the same query and start index. The
   * key is not always the file: the path joins it onto the cache directory, so keys such as
   * "./dune_0.json" and "dune_0.json" name one file.
   */
  lemma CacheFileNameInjective(q1: string, s1: int, q2: string, s2: int)
    ensures CacheFileName(q1, s1) == CacheFileName(q2, s2) <==> q1 == q2 && s1 == s2
  {
    var n1, n2 := CacheFileName(q1, s1), CacheFileName(q2, s2);
    if n1 == n2 {
      var x1, x2 := q1 + "_" + IntStr(s1), q2 + "_" + IntStr(s2);
      assert x1 == n1[..|n1| - 5] && x2 == n2[..|n2| - 5];
      // The last '_' sits right after the query, since the digits of a number hold none.
      LastUnderscoreFollowsQuery(q1, IntStr(s1));
      LastUnderscoreFollowsQuery(q2, IntStr(s2));
      assert q1 == x1[..|q1|] && q2 == x2[..|q2|];
      assert IntStr(s1) == x1[|q1| + 1..] && IntStr(s2) == x2[|q2| + 1..];
      IntStrInjective(s1, s2);
    }
  }

  /** The `cache` directory: one stored response document per cache key, never evicted. */
  class ResponseCache {
    var entries: map<string, SearchDocument>
    /** The request URLs sent to the book service so far. */
    ghost var requested: seq<string>

    constructor ()
      ensures entries == map[] && requested == []
    {
      entries := map[];
      requested := [];
    }

    /** `json.dump` of a fetched document into its cache file. */
    method Store(fileName: string, doc: SearchDocument)
      modifies this
      ensures entries == old(entries)[fileName := doc]
      ensures requested == old(requested)
    {
      entries := entries[fileName := doc];
    }
  }

  // ----- Normalisation and filtering -----

  /** The items normalised in order; the first item without `volumeInfo` raises. */
  function NormalizeAll(items: seq<Item>): Result<seq<Book>, Error>
  {
    if |items| == 0 then Ok([])
    else
      match NormalizeAll(items[..|items| - 1])
      case Err(e) => Err(e)
      case Ok(books) =>
        match FromItem(items[|items| - 1])
        case Err(e) => Err(e)
        case Ok(b) => Ok(books + [b])
  }

  /** Normalisation succeeds exactly when every item has `volumeInfo`, and then maps item to book one for one. */
  lemma {:induction false} NormalizeAllMapsItems(items: seq<Item>)
    ensures NormalizeAll(items).Ok? <==> forall i :: 0 <= i < |items| ==> items[i].volumeInfo.Some?
    ensures NormalizeAll(items).Err? ==> NormalizeAll(items).error == MissingKey("volumeInfo")
    ensures NormalizeAll(items).Ok? ==>
              && |NormalizeAll(items).value| == |items|
              && forall i :: 0 <= i < |items| ==> NormalizeAll(items).value[i] == FromItem(items[i]).value
  {
    if |items| > 0 {
      var init := items[..|items| - 1];
      NormalizeAllMapsItems(init);
      assert forall i :: 0 <= i < |init| ==> init[i] == items[i];
    }
  }

  /** The `for result in results` loop of `search_books`. */
  method NormalizeItems(items: seq<Item>) returns (r: Result<seq<Book>, Error>)
    ensures r == NormalizeAll(items)
  {
    var bookList: seq<Book> := [];
    for i := 0 to |items|
      invariant NormalizeAll(items[..i]) == Ok(bookList)
    {
      assert items[..i + 1][..i] == items[..i];
      var book := FromItem(items[i]);
      if book.Err? {
        // Every later prefix fails with the same error.
        NormalizeAllMapsItems(items[..i + 1]);
        NormalizeAllMapsItems(items);
        assert items[..i + 1][i] == items[i];
        return Err(book.error);
      }
      bookList := bookList + [book.value];
    }
    assert items[..|items|] == items;
    r := Ok(bookList);
  }

  predicate PassesAuthor(b: Book, author: Option<string>)
  {
    !Truthy(author) || Contains(Lower(b.author), Lower(author.value))
  }

  predicate PassesGenre(b: Book, genre: Option<string>)
  {
    !Truthy(genre) || genre.value in b.genres
  }

  predicate PassesRating(b: Book, minRating: Option<real>)
  {
    !RatingTruthy(minRating) || b.averageRating >= minRating.value
  }

  /** The post-filter is conjunctive: a book is kept when it passes every truthy filter. */
  predicate Keep(b: Book, author: Option<string>, genre: Option<string>, minRating: Option<real>)
  {
    PassesAuthor(b, author) && PassesGenre(b, genre) && PassesRating(b, minRating)
  }

  /** Whether `search_books` runs its filtering pass at all. */
  predicate AnyFilter(author: Option<string>, genre: Option<string>, minRating: Option<real>)
  {
    Truthy(author) || Truthy(genre) || RatingTruthy(minRating)
  }

  function Filtered(books: seq<Book>, author: Option<string>, genre: Option<string>, minRating: Option<real>): seq<Book>
  {
    if |books| == 0 then []
    else
      var last := books[|books| - 1];
      Filtered(books[..|books| - 1], author, genre, minRating)
        + (if Keep(last, author, genre, minRating) then [last] else [])
  }

  /** `xs` can be obtained from `ys` by deleting elements. */
  ghost predicate IsSubsequence<T>(xs: seq<T>, ys: seq<T>)
  {
    |xs| == 0 ||
    (|ys| > 0 &&
     ((xs[|xs| - 1] == ys[|ys| - 1] && IsSubsequence(xs[..|xs| - 1], ys[..|ys| - 1]))
      || IsSubsequence(xs, ys[..|ys| - 1])))
  }

  /** The filtered list is an order-preserving subsequence of the books. */
  lemma {:induction false} FilteredIsSubsequence(books: seq<Book>, author: Option<string>,
                                                 genre: Option<string>, minRating: Option<real>)
    ensures IsSubsequence(Filtered(books, author, genre, minRating), books)
  {
    if |books| > 0 {
      var init, last := books[..|books| - 1], books[|books| - 1];
      FilteredIsSubsequence(init, author, genre, minRating);
      var f := Filtered(init, author, genre, minRating);
      assert init == books[..|books| - 1];
      if Keep(last, author, genre, minRating) {
        var g := f + [last];
        assert Filtered(books, author, genre, minRating) == g;
        assert g[..|g| - 1] == f && g[|g| - 1] == last;
      } else {
        assert Filtered(books, author, genre, minRating) == f;
      }
    }
  }

  /** The filtered list holds every book that passes as often as the input does, and no other book. */
  lemma {:induction false} FilteredKeepsExactlyPassing(books: seq<Book>, author: Option<string>,
                                                       genre: Option<string>, minRating: Option<real>, b: Book)
    ensures multiset(Filtered(books, author, genre, minRating))[b]
            == if Keep(b, author, genre, minRating) then multiset(books)[b] else 0
  {
    if |books| > 0 {
      var init, last := books[..|books| - 1], books[|books| - 1];
      FilteredKeepsExactlyPassing(init, author, genre, minRating, b);
      assert books == init + [last];
      assert multiset(books) == multiset(init) + multiset{last};
      var f := Filtered(init, author, genre, minRating);
      if Keep(last, author, genre, minRating) {
        assert Filtered(books, author, genre, minRating) == f + [last];
        assert multiset(f + [last]) == multiset(f) + multiset{last};
      } else {
        assert Filtered(books, author, genre, minRating) == f;
      }
    }
  }

  /** With every filter falsy the books come back unchanged, in their original order. */
  lemma {:induction false} NoFilterKeepsAll(books: seq<Book>, author: Option<string>,
                                            genre: Option<string>, minRating: Option<real>)
    requires !AnyFilter(author, genre, minRating)
    ensures Filtered(books, author, genre, minRating) == books
  {
    if |books| > 0 {
      NoFilterKeepsAll(books[..|books| - 1], author, genre, minRating);
      assert books == books[..|books| - 1] + [books[|books| - 1]];
    }
  }

  /** A book passes the author filter when the filter occurs, case aside, in any one of its authors' names. */
  lemma AuthorFilterMatchesEachAuthor(v: VolumeInfo, k: nat, author: string)
    requires v.authors.Some? && k < |v.authors.value|
    requires author != "" && Contains(Lower(v.authors.value[k]), Lower(author))
    ensures PassesAuthor(FromItem(Item(Some(v))).value, Some(author))
  {
    var name, joined := v.authors.value[k], FromItem(Item(Some(v))).value.author;
    AuthorNamesEachAuthor(v, k);
    LowerKeepsContains(joined, name);
    ContainsTransitive(Lower(joined), Lower(name), Lower(author));
  }

  lemma ContainsTransitive(s: string, t: string, u: string)
    requires Contains(s, t) && Contains(t, u)
    ensures Contains(s, u)
  {
    ContainsIffOccurs(s, t);
    ContainsIffOccurs(t, u);
    var i: nat :| OccursAt(s, t, i);
    var j: nat :| OccursAt(t, u, j);
    forall k | 0 <= k < |u| ensures s[i + j + k] == u[k] {
      assert s[i..i + |t|][j + k] == t[j + k];
      assert t[j..j + |u|][k] == u[k];
    }
    assert s[i + j..i + j + |u|] == u;
    assert OccursAt(s, u, i + j);
    ContainsIffOccurs(s, u);
  }

  /** The filtering pass, with its `continue` checks in the order of the source. */
  method ApplyFilters(books: seq<Book>, author: Option<string>, genre: Option<string>, minRating: Option<real>)
    returns (kept: seq<Book>)
    ensures kept == Filtered(books, author, genre, minRating)
  {
    kept := [];
    for i := 0 to |books|
      invariant kept == Filtered(books[..i], author, genre, minRating)
    {
      var book := books[i];
      assert books[..i + 1][..i] == books[..i];
      if Truthy(author) && !Contains(Lower(book.author), Lower(author.value)) {
        continue;
      }
      if Truthy(genre) && genre.value !in book.genres {
        continue;
      }
      if RatingTruthy(minRating) && book.averageRating < minRating.value {
        continue;
      }
      kept := kept + [book];
    }
    assert books[..|books|] == books;
  }

  // ----- The whole search -----

  /** What `search_books` makes of a response document: the (filtered) books and `totalItems`. */
  function BooksFromDocument(doc: SearchDocument, author: Option<string>, genre: Option<string>,
                             minRating: Option<real>): Result<(seq<Book>, int), Error>
  {
    match NormalizeAll(doc.items.GetOr([]))
    case Err(e) => Err(e)
    case Ok(books) =>
      Ok((if AnyFilter(author, genre, minRating) then Filtered(books, author, genre, minRating) else books,
          doc.totalItems.GetOr(0)))
  }

  /**
   * The reported total is the document's `totalItems` (0 when absent) whatever the filters drop;
   * the books are the normalised items filtered by `Keep`, or all of them in order when no filter is set.
   */
  lemma BooksFromDocumentFilters(doc: SearchDocument, author: Option<string>, genre: Option<string>,
                                 minRating: Option<real>)
    requires NormalizeAll(doc.items.GetOr([])).Ok?
    ensures var r := BooksFromDocument(doc, author, genre, minRating);
            var normalized := NormalizeAll(doc.items.GetOr([])).value;
            && r.Ok?
            && r.value.1 == doc.totalItems.GetOr(0)
            && r.value.0 == Filtered(normalized, author, genre, minRating)
            && (!AnyFilter(author, genre, minRating) ==> r.value.0 == normalized)
  {
    var normalized := NormalizeAll(doc.items.GetOr([])).value;
    if !AnyFilter(author, genre, minRating) {
      NoFilterKeepsAll(normalized, author, genre, minRating);
    }
  }

  /** The second half of `search_books`: read `totalItems`, normalise the items, filter. */
  method ProcessDocument(data: SearchDocument, author: Option<string>, genre: Option<string>,
                         minRating: Option<real>)
    returns (r: Result<(seq<Book>, int), Error>)
    ensures r == BooksFromDocument(data, author, genre, minRating)
  {
    var totalItems := data.totalItems.GetOr(0);
    var normalized := NormalizeItems(data.items.GetOr([]));
    if normalized.Err? {
      return Err(normalized.error);
    }
    var bookList := normalized.value;
    if AnyFilter(author, genre, minRating) {
      bookList := ApplyFilters(bookList, author, genre, minRating);
    }
    r := Ok((bookList, totalItems));
  }

  /**
   * `search_books`. The response comes from the cache file when it exists; otherwise the request
   * is sent, a failure propagates with nothing cached, and a fetched document is cached before it
   * is processed (so a document that later raises stays cached).
   */
  method SearchBooks(cache: ResponseCache, fetch: string -> Result<SearchDocument, Error>,
                     query: string, apiKey: string, maxResults: int, startIndex: int,
                     lang: Option<string>, orderBy: Option<string>,
                     author: Option<string>, genre: Option<string>, minRating: Option<real>)
    returns (r: Result<(seq<Book>, int), Error>)
    modifies cache
    ensures var name := CacheFileName(query, startIndex);
            var url := BooksUrl(query, apiKey, maxResults, startIndex, lang, orderBy);
            if name in old(cache.entries) then
              && r == BooksFromDocument(old(cache.entries)[name], author, genre, minRating)
              && cache.entries == old(cache.entries)
              && cache.requested == old(cache.requested)
            else
              && cache.requested == old(cache.requested) + [url]
              && match fetch(url)
                 case Err(e) => r == Err(e) && cache.entries == old(cache.entries)
                 case Ok(doc) =>
                   && r == BooksFromDocument(doc, author, genre, minRating)
                   && cache.entries == old(cache.entries)[name := doc]
  {
    var cacheFile := CacheFileName(query, startIndex);
    var data: SearchDocument;
    if cacheFile in cache.entries {
      data := cache.entries[cacheFile];
    } else {
      var url := BooksBaseUrl(query, apiKey, maxResults, startIndex);
      if Truthy(lang) {
        url := url + Param("langRestrict", lang.value);
      }
      if Truthy(orderBy) {
        url := url + Param("orderBy", orderBy.value);
      }
      BooksUrlOptionalParams(query, apiKey, maxResults, startIndex, lang, orderBy);
      assert url == BooksUrl(query, apiKey, maxResults, startIndex, lang, orderBy);
      var response := fetch(url);
      cache.requested := cache.requested + [url];
      if response.Err? {
        return Err(response.error);
      }
      data := response.value;
      cache.Store(cacheFile, data);
    }

    r := ProcessDocument(data, author, genre, minRating);
  }

  /**
   * Two searches for "dune" at start index 0 send one request; the same query at start index 10
   * sends another, whatever the other options are.
   */
  method RepeatedSearchFetchesOnce(fetch: string -> Result<SearchDocument, Error>, apiKey: string)
    returns (cache: ResponseCache)
    requires forall url :: fetch(url).Ok?
    ensures cache.requested == [BooksUrl("dune", apiKey, 10, 0, None, None),
                                BooksUrl("dune", apiKey, 10, 10, None, None)]
  {
    cache := new ResponseCache();
    var first := SearchBooks(cache, fetch, "dune", apiKey, 10, 0, None, None, None, None, None);
    var second := SearchBooks(cache, fetch, "dune", apiKey, 40, 0, Some("en"), None, None, None, None);
    CacheFileNameInjective("dune", 0, "dune", 10);
    var third := SearchBooks(cache, fetch, "dune", apiKey, 10, 10, None, None, None, None, None);
  }
}
