/** The `Book` record and its construction from one Google Books search result (`Book.__init__` with `json=`). */
module Books {
  import opened Wrappers
  import opened Text

  /** The `volumeInfo` object of one search result; each field may be absent. */
  datatype VolumeInfo = VolumeInfo(
    title: Option<string>,
    authors: Option<seq<string>>,
    publishedDate: Option<string>,
    previewLink: Option<string>,
    categories: Option<seq<string>>,
    averageRating: Option<real>)

  /** One element of the `items` array of a search response. */
  datatype Item = Item(volumeInfo: Option<VolumeInfo>)

  /** A normalised book. The rating is a number that is only ever compared. */
  datatype Book = Book(
    title: string,
    author: string,
    releaseYear: string,
    url: string,
    genres: seq<string>,
    averageRating: real)

  const NoTitle := "No Title"
  const NoAuthor := "No Author"
  const NoReleaseYear := "No Release Year"
  const NoUrl := "No URL"
  const AuthorSeparator := ", "

  /**
   * Normalises one search result. Every absent field takes its default; the release year is the
   * first four characters of the date, or of the default when the date is absent. A result
   * without `volumeInfo` raises `KeyError('volumeInfo')`.
   */
  function FromItem(item: Item): (r: Result<Book, Error>)
    ensures r.Err? <==> item.volumeInfo.None?
    ensures r.Err? ==> r.error == MissingKey("volumeInfo")
  {
    match item.volumeInfo
    case None => Err(MissingKey("volumeInfo"))
    case Some(v) =>
      Ok(Book(
        v.title.GetOr(NoTitle),
        Join(v.authors.GetOr([NoAuthor]), AuthorSeparator),
        Take(v.publishedDate.GetOr(NoReleaseYear), 4),
        v.previewLink.GetOr(NoUrl),
        v.categories.GetOr([]),
        v.averageRating.GetOr(0.0)))
  }

  /** The release year is the date cut to at most four leading characters, never padded. */
  lemma ReleaseYearIsDatePrefix(v: VolumeInfo, date: string)
    requires v.publishedDate == Some(date)
    ensures var y := FromItem(Item(Some(v))).value.releaseYear;
            && y <= date
            && |y| == (if |date| < 4 then |date| else 4)
  {
  }

  /** An absent date leaves the truncated default "No R", not "No Release Year". */
  lemma MissingDateGivesTruncatedDefault(v: VolumeInfo)
    requires v.publishedDate.None?
    ensures FromItem(Item(Some(v))).value.releaseYear == "No R"
  {
    assert NoReleaseYear[..4] == "No R";
  }

  /** A result whose `volumeInfo` is empty becomes the all-defaults book. */
  lemma EmptyVolumeInfoGivesDefaults()
    ensures FromItem(Item(Some(VolumeInfo(None, None, None, None, None, None))))
         == Ok(Book("No Title", "No Author", "No R", "No URL", [], 0.0))
  {
    MissingDateGivesTruncatedDefault(VolumeInfo(None, None, None, None, None, None));
  }

  /** Each field falls back to its own default when absent and is kept as given when present. */
  lemma EachFieldDefaultsAlone(v: VolumeInfo)
    ensures var b := FromItem(Item(Some(v))).value;
            && b.title == (if v.title.Some? then v.title.value else "No Title")
            && (v.authors.None? ==> b.author == "No Author")
            && (v.authors.Some? ==> b.author == Join(v.authors.value, ", "))
            && (v.publishedDate.None? ==> b.releaseYear == "No R")
            && b.url == (if v.previewLink.Some? then v.previewLink.value else "No URL")
            && b.genres == (if v.categories.Some? then v.categories.value else [])
            && b.averageRating == (if v.averageRating.Some? then v.averageRating.value else 0.0)
  {
    if v.publishedDate.None? {
      MissingDateGivesTruncatedDefault(v);
    }
  }

  /** The author string lists the authors in order, joined by ", ", so each author name occurs in it. */
  lemma AuthorNamesEachAuthor(v: VolumeInfo, k: nat)
    requires v.authors.Some? && k < |v.authors.value|
    ensures Contains(FromItem(Item(Some(v))).value.author, v.authors.value[k])
    ensures |v.authors.value| == 1 ==> FromItem(Item(Some(v))).value.author == v.authors.value[0]
  {
    JoinContainsEachPart(v.authors.value, AuthorSeparator, k);
  }

  /** Python's `Book.info()`: `"{title} by {author} ({release_year})"`. */
  function Info(b: Book): string
  {
    b.title + " by " + b.author + " (" + b.releaseYear + ")"
  }

  /**
   * Reads title, author and release year back out of an info line, given the lengths of the
   * title and the year; `None` when the separators are not where they belong.
   */
  function ParseInfo(s: string, titleLen: nat, yearLen: nat): Option<(string, string, string)>
  {
    if titleLen + yearLen + 7 > |s| then None
    else
      var authorEnd := |s| - yearLen - 3;
      if s[titleLen..titleLen + 4] == " by " && s[authorEnd..authorEnd + 2] == " (" && s[|s| - 1] == ')'
      then Some((s[..titleLen], s[titleLen + 4..authorEnd], s[authorEnd + 2..|s| - 1]))
      else None
  }

  /** The info line keeps title, author and year apart: they can be read back from it. */
  lemma InfoRoundTrip(b: Book)
    ensures ParseInfo(Info(b), |b.title|, |b.releaseYear|) == Some((b.title, b.author, b.releaseYear))
  {
    var s := Info(b);
    var t, a, y := |b.title|, |b.author|, |b.releaseYear|;
    assert |s| == t + a + y + 7;
    assert s[..t] == b.title;
    assert s[t..t + 4] == " by ";
    assert s[t + 4..t + 4 + a] == b.author;
    assert s[t + 4 + a..t + 4 + a + 2] == " (";
    assert s[t + a + 6..|s| - 1] == b.releaseYear;
  }
}
