/**
 * The two companion searches of the book finder: movies by title, from the OMDb search
 * response, and news articles about the book, from the News API response.
 */
module Companion {
  import opened Wrappers
  import opened Text
  import opened Sorting
  import Catalog

  // ----- Movies -----

  /** One entry of the OMDb `Search` list; `None` is an absent key. */
  datatype MovieEntry = MovieEntry(title: Option<string>, imdbID: Option<string>)

  /** The OMDb response body: its `Response` flag and its `Search` list. */
  datatype MovieResponse = MovieResponse(response: Option<string>, search: Option<seq<MovieEntry>>)

  /** The `{"Title", "imdbID"}` dict the search returns per movie. */
  datatype Movie = Movie(title: string, imdbID: string)

  function MoviesUrl(bookTitle: string, apiKey: string): string
  {
    "http://www.omdbapi.com/?apikey=" + apiKey + "&s=" + bookTitle + "&type=movie"
  }

  /** The dict display reads `Title` before `imdbID`, so a missing `Title` is reported first. */
  function ToMovie(e: MovieEntry): Result<Movie, Error>
  {
    if e.title.None? then Err(MissingKey("Title"))
    else if e.imdbID.None? then Err(MissingKey("imdbID"))
    else Ok(Movie(e.title.value, e.imdbID.value))
  }

  predicate Complete(e: MovieEntry)
  {
    e.title.Some? && e.imdbID.Some?
  }

  /** The list comprehension over `Search`: the first entry that fails ends it. */
  function Movies(entries: seq<MovieEntry>): Result<seq<Movie>, Error>
  {
    if |entries| == 0 then Ok([])
    else
      var m := ToMovie(entries[0]);
      if m.Err? then Err(m.error)
      else
        var rest := Movies(entries[1..]);
        if rest.Err? then rest else Ok([m.value] + rest.value)
  }

  /**
   * Every complete entry becomes one movie, in order; otherwise the error is the one of the
   * first incomplete entry.
   */
  lemma {:induction false} MoviesMapsEntries(entries: seq<MovieEntry>)
    ensures Movies(entries).Ok? <==> forall i :: 0 <= i < |entries| ==> Complete(entries[i])
    ensures Movies(entries).Ok? ==>
              && |Movies(entries).value| == |entries|
              && forall i :: 0 <= i < |entries| ==>
                   Movies(entries).value[i] == Movie(entries[i].title.value, entries[i].imdbID.value)
    ensures Movies(entries).Err? ==>
              exists k :: && 0 <= k < |entries| && !Complete(entries[k])
                          && (forall i :: 0 <= i < k ==> Complete(entries[i]))
                          && Movies(entries).error == ToMovie(entries[k]).error
  {
    if |entries| > 0 {
      var tail := entries[1..];
      MoviesMapsEntries(tail);
      assert forall i :: 1 <= i < |entries| ==> entries[i] == tail[i - 1];
      if Movies(entries).Err? && Complete(entries[0]) {
        var k' :| && 0 <= k' < |tail| && !Complete(tail[k'])
                  && (forall i :: 0 <= i < k' ==> Complete(tail[i]))
                  && Movies(tail).error == ToMovie(tail[k']).error;
        assert !Complete(entries[k' + 1]);
      }
    }
  }

  /**
   * `search_movies` once the body is parsed: a `Response` of `"True"` turns the `Search` list
   * into movies, any other value gives no movies, and a missing key is an error.
   */
  function MoviesOf(data: MovieResponse): (r: Result<seq<Movie>, Error>)
    ensures data.response.None? ==> r == Err(MissingKey("Response"))
    ensures data.response.Some? && data.response.value != "True" ==> r == Ok([])
    ensures r.Ok? && r.value != [] ==> data.response == Some("True") && data.search.Some?
  {
    if data.response.None? then Err(MissingKey("Response"))
    else if data.response.value != "True" then Ok([])
    else if data.search.None? then Err(MissingKey("Search"))
    else Movies(data.search.value)
  }

  /** `search_movies`: a failed request raises; otherwise the response decides the movies. */
  function SearchMovies(fetch: string -> Result<MovieResponse, Error>, bookTitle: string,
                        apiKey: string): (r: Result<seq<Movie>, Error>)
    ensures fetch(MoviesUrl(bookTitle, apiKey)).Err? ==> r == Err(fetch(MoviesUrl(bookTitle, apiKey)).error)
    ensures r.Ok? ==> fetch(MoviesUrl(bookTitle, apiKey)).Ok?
  {
    var response := fetch(MoviesUrl(bookTitle, apiKey));
    if response.Err? then Err(response.error) else MoviesOf(response.value)
  }

  /** A response saying `"True"` with complete entries yields one movie per entry, in order. */
  lemma FoundMovies(data: MovieResponse)
    requires data.response == Some("True") && data.search.Some?
    requires forall i :: 0 <= i < |data.search.value| ==> Complete(data.search.value[i])
    ensures MoviesOf(data).Ok?
    ensures |MoviesOf(data).value| == |data.search.value|
    ensures forall i :: 0 <= i < |data.search.value| ==>
              && Complete(data.search.value[i])
              && MoviesOf(data).value[i]
                 == Movie(data.search.value[i].title.value, data.search.value[i].imdbID.value)
  {
    MoviesMapsEntries(data.search.value);
  }

  // ----- Articles -----

  datatype SourceEntry = SourceEntry(name: Option<string>)

  /** One entry of the News API `articles` list; `None` is an absent key. */
  datatype ArticleEntry = ArticleEntry(title: Option<string>, url: Option<string>,
                                       source: Option<SourceEntry>, publishedAt: Option<string>)

  datatype NewsResponse = NewsResponse(articles: Option<seq<ArticleEntry>>)

  /** The `{title, url, source, publishedAt}` dict the search returns per article. */
  datatype Article = Article(title: string, url: string, source: string, publishedAt: string)

  function NewsBaseUrl(query: string, apiKey: string, page: int): string
  {
    "https://newsapi.org/v2/everything?q=" + query + "&apiKey=" + apiKey + "&page=" + IntStr(page)
  }

  function NewsUrl(query: string, apiKey: string, page: int, lang: Option<string>): string
  {
    NewsBaseUrl(query, apiKey, page) + Catalog.OptionalParam("language", lang)
  }

  /** The language filter is sent exactly when `lang` is truthy. */
  lemma NewsUrlLanguage(query: string, apiKey: string, page: int, lang: Option<string>)
    ensures var base := NewsBaseUrl(query, apiKey, page);
            NewsUrl(query, apiKey, page, lang)
              == if Catalog.Truthy(lang) then base + Catalog.Param("language", lang.value) else base
  {
    if !Catalog.Truthy(lang) {
      assert NewsUrl(query, apiKey, page, lang) == NewsBaseUrl(query, apiKey, page) + [];
    }
  }

  predicate Readable(e: ArticleEntry)
  {
    e.title.Some? && e.url.Some? && e.source.Some? && e.source.value.name.Some? && e.publishedAt.Some?
  }

  /** The dict display reads `title`, `url`, `source`, its `name`, then `publishedAt`. */
  function ToArticle(e: ArticleEntry): (r: Result<Article, Error>)
    ensures r.Ok? <==> Readable(e)
  {
    if e.title.None? then Err(MissingKey("title"))
    else if e.url.None? then Err(MissingKey("url"))
    else if e.source.None? then Err(MissingKey("source"))
    else if e.source.value.name.None? then Err(MissingKey("name"))
    else if e.publishedAt.None? then Err(MissingKey("publishedAt"))
    else Ok(Article(e.title.value, e.url.value, e.source.value.name.value, e.publishedAt.value))
  }

  /** The append loop over `articles`, as a function of the entries read so far. */
  function Articles(entries: seq<ArticleEntry>): Result<seq<Article>, Error>
  {
    if |entries| == 0 then Ok([])
    else
      var done := Articles(entries[..|entries| - 1]);
      if done.Err? then done
      else
        var a := ToArticle(entries[|entries| - 1]);
        if a.Err? then Err(a.error) else Ok(done.value + [a.value])
  }

  /** Every readable entry becomes one article, field by field, in order. */
  lemma {:induction false} ArticlesMapsEntries(entries: seq<ArticleEntry>)
    ensures Articles(entries).Ok? <==> forall i :: 0 <= i < |entries| ==> Readable(entries[i])
    ensures Articles(entries).Ok? ==>
              && |Articles(entries).value| == |entries|
              && forall i :: 0 <= i < |entries| ==> Articles(entries).value[i] == ToArticle(entries[i]).value
  {
    if |entries| > 0 {
      var init := entries[..|entries| - 1];
      ArticlesMapsEntries(init);
      assert forall i :: 0 <= i < |init| ==> init[i] == entries[i];
    }
  }

  /** An unreadable entry ends the loop with its own error once every entry before it was read. */
  lemma {:induction false} ArticlesStopAtFirstUnreadable(entries: seq<ArticleEntry>, k: nat)
    requires k < |entries| && !Readable(entries[k])
    requires forall i :: 0 <= i < k ==> Readable(entries[i])
    ensures Articles(entries) == Err(ToArticle(entries[k]).error)
  {
    var init := entries[..|entries| - 1];
    if k == |entries| - 1 {
      ArticlesMapsEntries(init);
      assert forall i :: 0 <= i < |init| ==> init[i] == entries[i];
    } else {
      assert init[k] == entries[k];
      ArticlesStopAtFirstUnreadable(init, k);
    }
  }

  method CollectArticles(entries: seq<ArticleEntry>) returns (r: Result<seq<Article>, Error>)
    ensures r == Articles(entries)
  {
    var articles: seq<Article> := [];
    for i := 0 to |entries|
      invariant Articles(entries[..i]) == Ok(articles)
    {
      assert entries[..i + 1][..i] == entries[..i];
      var article := ToArticle(entries[i]);
      if article.Err? {
        // The first unreadable entry decides the error.
        ArticlesMapsEntries(entries[..i]);
        ArticlesStopAtFirstUnreadable(entries, i);
        return Err(article.error);
      }
      articles := articles + [article.value];
    }
    assert entries[..|entries|] == entries;
    r := Ok(articles);
  }

  function PublishedAt(a: Article): string
  {
    a.publishedAt
  }

  lemma StrLtIsStrictTotalOrder()
    ensures StrictTotalOrder(StrLt)
  {
    forall a ensures !StrLt(a, a) {
      StrLtIrreflexive(a);
    }
    forall a, b, c | StrLt(a, b) && StrLt(b, c) ensures StrLt(a, c) {
      StrLtTransitive(a, b, c);
    }
    forall a, b | a != b ensures StrLt(a, b) || StrLt(b, a) {
      StrLtConnected(a, b);
    }
  }

  /** `sorted(articles, key=publishedAt)[:max_articles]`. */
  function Earliest(articles: seq<Article>, maxArticles: int): seq<Article>
  {
    Take(SortBy(articles, PublishedAt, StrLt), maxArticles)
  }

  /**
   * The kept articles are the earliest ones: no dropped article was published strictly before a
   * kept one, they come in publication order, and articles published at the same time keep
   * the response's order.
   */
  lemma EarliestArticles(articles: seq<Article>, maxArticles: int)
    ensures var r := Earliest(articles, maxArticles);
            && (0 <= maxArticles ==> |r| == if maxArticles <= |articles| then maxArticles else |articles|)
            && multiset(r) <= multiset(articles)
            && SortedBy(r, PublishedAt, StrLt)
            && (forall x, y :: x in r && y in multiset(articles) - multiset(r) ==> !StrLt(y.publishedAt, x.publishedAt))
            && (forall t :: Select(r, PublishedAt, t) <= Select(articles, PublishedAt, t))
  {
    var r := Earliest(articles, maxArticles);
    assert 0 <= maxArticles ==> |r| == if maxArticles <= |articles| then maxArticles else |articles| by {
      var sorted := SortBy(articles, PublishedAt, StrLt);
      SortPermutes(articles, PublishedAt, StrLt);
      assert |sorted| == |multiset(sorted)| == |articles|;
    }
    StrLtIsStrictTotalOrder();
    PrefixOfSort(r, articles, PublishedAt, StrLt);
    forall x, y | x in r && y in multiset(articles) - multiset(r) ensures !StrLt(y.publishedAt, x.publishedAt) {
      assert !StrLt(PublishedAt(y), PublishedAt(x));
    }
  }

  /** `search_articles` once the body is parsed: no `articles` key gives no articles. */
  function ArticlesOf(data: NewsResponse, maxArticles: int): (r: Result<seq<Article>, Error>)
    ensures data.articles.None? ==> r == Ok([])
    ensures data.articles.Some? ==> (r.Ok? <==> Articles(data.articles.value).Ok?)
  {
    if data.articles.None? then Ok([])
    else
      var all := Articles(data.articles.value);
      if all.Err? then Err(all.error) else Ok(Earliest(all.value, maxArticles))
  }

  /**
   * `search_articles`: build the URL, fetch, collect, sort by publication time and cut. Unlike the
   * book and movie searches this one never checks the HTTP status, so `fetch` fails only on a
   * transport or decoding error; an error reply (a 401 body, say) has no `articles` and arrives
   * as `Ok(NewsResponse(None))`, which gives `Ok([])`.
   */
  method SearchArticles(fetch: string -> Result<NewsResponse, Error>, query: string, apiKey: string,
                        page: int, maxArticles: int, lang: Option<string>)
    returns (r: Result<seq<Article>, Error>)
    ensures var response := fetch(NewsUrl(query, apiKey, page, lang));
            r == if response.Err? then Err(response.error) else ArticlesOf(response.value, maxArticles)
  {
    var url := NewsBaseUrl(query, apiKey, page);
    if Catalog.Truthy(lang) {
      url := url + Catalog.Param("language", lang.value);
    }
    NewsUrlLanguage(query, apiKey, page, lang);
    var response := fetch(url);
    if response.Err? {
      return Err(response.error);
    }
    var data := response.value;
    if data.articles.None? {
      return Ok([]);
    }
    var all := CollectArticles(data.articles.value);
    if all.Err? {
      return Err(all.error);
    }
    r := Ok(Earliest(all.value, maxArticles));
  }
}
