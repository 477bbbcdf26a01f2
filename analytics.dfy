/**
 * The analytics over a list of books: grouping by genre (`create_genre_graph`,
 * `find_most_common_genres`), ranking genres by group size, and ranking books by rating
 * (`find_highest_rated_books`).
 */
module Analytics {
  import opened Sorting
  import opened Books

  /** A Python dict from genre to books: its keys in insertion order, and the lists. */
  datatype GenreGraph = GenreGraph(order: seq<string>, groups: map<string, seq<Book>>)

  // ----- Specification of the grouping -----

  /** How many times `g` occurs in `genres`. */
  function Count(genres: seq<string>, g: string): nat
  {
    if |genres| == 0 then 0
    else Count(genres[..|genres| - 1], g) + (if genres[|genres| - 1] == g then 1 else 0)
  }

  function Repeat(b: Book, n: nat): (r: seq<Book>)
    ensures |r| == n && forall i :: 0 <= i < n ==> r[i] == b
  {
    seq(n, _ => b)
  }

  /** `graph[g]`: the books in input order, each once per occurrence of `g` among its genres. */
  function Group(books: seq<Book>, g: string): seq<Book>
  {
    if |books| == 0 then []
    else
      var last := books[|books| - 1];
      Group(books[..|books| - 1], g) + Repeat(last, Count(last.genres, g))
  }

  /** Appends to `order` each genre of `genres` that it does not hold yet. */
  function AddNew(order: seq<string>, genres: seq<string>): seq<string>
  {
    if |genres| == 0 then order
    else
      var o := AddNew(order, genres[..|genres| - 1]);
      var g := genres[|genres| - 1];
      if g in o then o else o + [g]
  }

  /** The genres in the order they are first met while scanning the books: the dict's key order. */
  function FirstSeen(books: seq<Book>): seq<string>
  {
    if |books| == 0 then []
    else AddNew(FirstSeen(books[..|books| - 1]), books[|books| - 1].genres)
  }

  function GenreGraphOf(books: seq<Book>): GenreGraph
  {
    var order := FirstSeen(books);
    GenreGraph(order, map g | g in order :: Group(books, g))
  }

  /** The total number of genre entries over all books. */
  function GenreTokens(books: seq<Book>): nat
  {
    if |books| == 0 then 0 else GenreTokens(books[..|books| - 1]) + |books[|books| - 1].genres|
  }

  /** The sum of the group sizes over the keys in `order`. */
  function SumSizes(order: seq<string>, groups: map<string, seq<Book>>): nat
  {
    if |order| == 0 then 0
    else
      var g := order[|order| - 1];
      SumSizes(order[..|order| - 1], groups) + (if g in groups then |groups[g]| else 0)
  }

  function TotalSize(graph: GenreGraph): nat
  {
    SumSizes(graph.order, graph.groups)
  }

  // ----- Lemmas about the grouping -----

  lemma {:induction false} CountZero(genres: seq<string>, g: string)
    requires g !in genres
    ensures Count(genres, g) == 0
  {
    if |genres| > 0 {
      CountZero(genres[..|genres| - 1], g);
    }
  }

  lemma {:induction false} AddNewMembers(order: seq<string>, genres: seq<string>)
    ensures forall g :: g in AddNew(order, genres) <==> g in order || g in genres
    ensures Distinct(order) ==> Distinct(AddNew(order, genres))
    ensures order <= AddNew(order, genres)
  {
    if |genres| > 0 {
      var init := genres[..|genres| - 1];
      AddNewMembers(order, init);
      assert genres == init + [genres[|genres| - 1]];
    }
  }

  /** The keys are exactly the genres that occur in some book, each once. */
  lemma {:induction false} FirstSeenMembers(books: seq<Book>)
    ensures forall g :: g in FirstSeen(books) <==> exists i :: 0 <= i < |books| && g in books[i].genres
    ensures Distinct(FirstSeen(books))
  {
    if |books| > 0 {
      var init := books[..|books| - 1];
      FirstSeenMembers(init);
      AddNewMembers(FirstSeen(init), books[|books| - 1].genres);
      forall g ensures g in FirstSeen(books) <==> exists i :: 0 <= i < |books| && g in books[i].genres {
        if g in FirstSeen(books) && g !in books[|books| - 1].genres {
          var i :| 0 <= i < |init| && g in init[i].genres;
          assert books[i] == init[i];
        }
        if exists i :: 0 <= i < |books| && g in books[i].genres {
          var i :| 0 <= i < |books| && g in books[i].genres;
          if i < |init| { assert init[i] == books[i]; }
        }
      }
    }
  }

  /** A genre no book lists has an empty group. */
  lemma {:induction false} GroupOfUnseen(books: seq<Book>, g: string)
    requires g !in FirstSeen(books)
    ensures Group(books, g) == []
  {
    if |books| > 0 {
      var init := books[..|books| - 1];
      AddNewMembers(FirstSeen(init), books[|books| - 1].genres);
      GroupOfUnseen(init, g);
      CountZero(books[|books| - 1].genres, g);
    }
  }

  /** The group of `g` holds exactly the books that list `g`. */
  lemma {:induction false} GroupMembers(books: seq<Book>, g: string, b: Book)
    ensures b in Group(books, g) <==> b in books && g in b.genres
  {
    if |books| > 0 {
      var init, last := books[..|books| - 1], books[|books| - 1];
      GroupMembers(init, g, b);
      assert books == init + [last];
      var rep := Repeat(last, Count(last.genres, g));
      assert Group(books, g) == Group(init, g) + rep;
      if g !in last.genres {
        CountZero(last.genres, g);
      } else {
        CountPositive(last.genres, g);
        assert rep[0] == last;
      }
    }
  }

  lemma {:induction false} CountPositive(genres: seq<string>, g: string)
    requires g in genres
    ensures Count(genres, g) > 0
  {
    var init := genres[..|genres| - 1];
    if genres[|genres| - 1] != g {
      assert g in init;
      CountPositive(init, g);
    }
  }

  lemma {:induction false} SumSizesOtherKey(order: seq<string>, groups: map<string, seq<Book>>, g: string, v: seq<Book>)
    requires g !in order
    ensures SumSizes(order, groups[g := v]) == SumSizes(order, groups)
  {
    if |order| > 0 {
      SumSizesOtherKey(order[..|order| - 1], groups, g, v);
    }
  }

  /** Appending one book to one group adds one to the total. */
  lemma {:induction false} SumSizesAppend(order: seq<string>, groups: map<string, seq<Book>>, g: string, b: Book)
    requires Distinct(order) && g in order && g in groups
    ensures SumSizes(order, groups[g := groups[g] + [b]]) == SumSizes(order, groups) + 1
  {
    var init, last := order[..|order| - 1], order[|order| - 1];
    if last == g {
      assert g !in init;
      SumSizesOtherKey(init, groups, g, groups[g] + [b]);
    } else {
      assert g in init;
      SumSizesAppend(init, groups, g, b);
    }
  }

  // ----- The loops -----

  /** After the books of `prefix`: the key order, the keys and the lists are those of `prefix`. */
  ghost predicate Grouped(prefix: seq<Book>, order: seq<string>, groups: map<string, seq<Book>>)
  {
    && order == FirstSeen(prefix) && Distinct(order)
    && (forall g :: g in groups <==> g in order)
    && (forall g :: g in groups ==> groups[g] == Group(prefix, g))
    && SumSizes(order, groups) == GenreTokens(prefix)
  }

  /** After the books of `prefix` and the first `j` genres of `book`. */
  ghost predicate GroupedPartly(prefix: seq<Book>, book: Book, j: nat, order: seq<string>, groups: map<string, seq<Book>>)
  {
    && j <= |book.genres|
    && order == AddNew(FirstSeen(prefix), book.genres[..j]) && Distinct(order)
    && (forall g :: g in groups <==> g in order)
    && ListsSoFar(prefix, book, j, groups)
    && SumSizes(order, groups) == GenreTokens(prefix) + j
  }

  ghost predicate ListsSoFar(prefix: seq<Book>, book: Book, j: nat, groups: map<string, seq<Book>>)
    requires j <= |book.genres|
  {
    forall g :: g in groups ==> groups[g] == Group(prefix, g) + Repeat(book, Count(book.genres[..j], g))
  }

  lemma StartBook(prefix: seq<Book>, book: Book, order: seq<string>, groups: map<string, seq<Book>>)
    requires Grouped(prefix, order, groups)
    ensures GroupedPartly(prefix, book, 0, order, groups)
  {
    assert book.genres[..0] == [];
    assert Repeat(book, 0) == [];
  }

  /** The genre order after one more genre of `book`: unchanged if the genre is known, else extended by it. */
  lemma NextOrder(prefix: seq<Book>, book: Book, j: nat)
    requires j < |book.genres|
    ensures var o := AddNew(FirstSeen(prefix), book.genres[..j]);
            var genre := book.genres[j];
            AddNew(FirstSeen(prefix), book.genres[..j + 1]) == if genre in o then o else o + [genre]
    ensures Count(book.genres[..j + 1], book.genres[j]) == Count(book.genres[..j], book.genres[j]) + 1
    ensures forall g :: g != book.genres[j] ==> Count(book.genres[..j + 1], g) == Count(book.genres[..j], g)
  {
    assert book.genres[..j + 1][..j] == book.genres[..j];
  }

  lemma ListsAppend(prefix: seq<Book>, book: Book, j: nat, groups: map<string, seq<Book>>)
    requires j < |book.genres| && book.genres[j] in groups
    requires ListsSoFar(prefix, book, j, groups)
    ensures ListsSoFar(prefix, book, j + 1, groups[book.genres[j] := groups[book.genres[j]] + [book]])
  {
    var genre := book.genres[j];
    var groups' := groups[genre := groups[genre] + [book]];
    NextOrder(prefix, book, j);
    forall g | g in groups'
      ensures groups'[g] == Group(prefix, g) + Repeat(book, Count(book.genres[..j + 1], g))
    {
      if g == genre {
        var c := Count(book.genres[..j], genre);
        assert Repeat(book, c + 1) == Repeat(book, c) + [book];
      }
    }
  }

  lemma ListsCreate(prefix: seq<Book>, book: Book, j: nat, groups: map<string, seq<Book>>)
    requires j < |book.genres| && book.genres[j] !in groups
    requires Group(prefix, book.genres[j]) == [] && Count(book.genres[..j], book.genres[j]) == 0
    requires ListsSoFar(prefix, book, j, groups)
    ensures ListsSoFar(prefix, book, j + 1, groups[book.genres[j] := [book]])
  {
    var genre := book.genres[j];
    var groups' := groups[genre := [book]];
    NextOrder(prefix, book, j);
    forall g | g in groups'
      ensures groups'[g] == Group(prefix, g) + Repeat(book, Count(book.genres[..j + 1], g))
    {
      if g == genre {
        assert Repeat(book, 1) == [book];
      }
    }
  }

  /** `genre_graph[genre].append(book)` for a genre that already has a list: the total grows by one. */
  lemma AppendToGroup(prefix: seq<Book>, book: Book, j: nat, order: seq<string>, groups: map<string, seq<Book>>)
    requires j < |book.genres| && book.genres[j] in groups
    requires GroupedPartly(prefix, book, j, order, groups)
    ensures GroupedPartly(prefix, book, j + 1, order, groups[book.genres[j] := groups[book.genres[j]] + [book]])
  {
    NextOrder(prefix, book, j);
    SumSizesAppend(order, groups, book.genres[j], book);
    ListsAppend(prefix, book, j, groups);
  }

  /** A genre met for the first time gets a new key, last in the order, with a one-book list. */
  lemma CreateGroup(prefix: seq<Book>, book: Book, j: nat, order: seq<string>, groups: map<string, seq<Book>>)
    requires j < |book.genres| && book.genres[j] !in groups
    requires GroupedPartly(prefix, book, j, order, groups)
    ensures GroupedPartly(prefix, book, j + 1, order + [book.genres[j]], groups[book.genres[j] := [book]])
  {
    var genre := book.genres[j];
    NewKeyOrder(prefix, book, j, order);
    NewKeyList(prefix, book, j, order, groups);
    SumSizesCreate(order, groups, genre, book);
  }

  lemma NewKeyOrder(prefix: seq<Book>, book: Book, j: nat, order: seq<string>)
    requires j < |book.genres| && book.genres[j] !in order
    requires order == AddNew(FirstSeen(prefix), book.genres[..j]) && Distinct(order)
    ensures order + [book.genres[j]] == AddNew(FirstSeen(prefix), book.genres[..j + 1])
    ensures Distinct(order + [book.genres[j]])
  {
    NextOrder(prefix, book, j);
    var order' := order + [book.genres[j]];
    forall i | 0 <= i < |order| ensures order'[i] != book.genres[j] {
      assert order'[i] == order[i];
    }
  }

  lemma NewKeyList(prefix: seq<Book>, book: Book, j: nat, order: seq<string>, groups: map<string, seq<Book>>)
    requires j < |book.genres| && book.genres[j] !in order && book.genres[j] !in groups
    requires order == AddNew(FirstSeen(prefix), book.genres[..j])
    requires ListsSoFar(prefix, book, j, groups)
    ensures ListsSoFar(prefix, book, j + 1, groups[book.genres[j] := [book]])
  {
    var genre := book.genres[j];
    AddNewMembers(FirstSeen(prefix), book.genres[..j]);
    GroupOfUnseen(prefix, genre);
    CountZero(book.genres[..j], genre);
    ListsCreate(prefix, book, j, groups);
  }

  lemma SumSizesCreate(order: seq<string>, groups: map<string, seq<Book>>, genre: string, book: Book)
    requires genre !in order && genre !in groups
    ensures SumSizes(order + [genre], groups[genre := [book]]) == SumSizes(order, groups) + 1
  {
    var order' := order + [genre];
    assert order'[..|order'| - 1] == order;
    SumSizesOtherKey(order, groups, genre, [book]);
  }

  /**
   * One step of the inner loop of `find_most_common_genres`, from (`order`, `groups`) to
   * (`order'`, `groups'`): create the key if missing, then append.
   */
  lemma DictStep(prefix: seq<Book>, book: Book, j: nat, order: seq<string>, groups: map<string, seq<Book>>,
                 order': seq<string>, groups': map<string, seq<Book>>)
    requires j < |book.genres|
    requires GroupedPartly(prefix, book, j, order, groups)
    requires var genre := book.genres[j];
             var groups1 := if genre in groups then groups else groups[genre := []];
             && order' == (if genre in groups then order else order + [genre])
             && groups' == groups1[genre := groups1[genre] + [book]]
    ensures GroupedPartly(prefix, book, j + 1, order', groups')
  {
    var genre := book.genres[j];
    if genre in groups {
      AppendToGroup(prefix, book, j, order, groups);
    } else {
      NewListThenAppend(groups, genre, book);
      CreateGroup(prefix, book, j, order, groups);
    }
  }

  lemma NewListThenAppend(groups: map<string, seq<Book>>, genre: string, book: Book)
    ensures var groups1 := groups[genre := []];
            groups1[genre := groups1[genre] + [book]] == groups[genre := [book]]
  {
    var empty: seq<Book> := [];
    assert empty + [book] == [book];
  }

  /** One step of the inner loop of `create_genre_graph`, where reading a missing key creates it empty. */
  lemma DefaultDictStep(prefix: seq<Book>, book: Book, j: nat, order: seq<string>, groups: map<string, seq<Book>>,
                        order': seq<string>, groups': map<string, seq<Book>>)
    requires j < |book.genres|
    requires GroupedPartly(prefix, book, j, order, groups)
    requires var genre := book.genres[j];
             && order' == (if genre in groups then order else order + [genre])
             && groups' == groups[genre := (if genre in groups then groups[genre] else []) + [book]]
    ensures GroupedPartly(prefix, book, j + 1, order', groups')
  {
    var genre := book.genres[j];
    if genre in groups {
      AppendToGroup(prefix, book, j, order, groups);
    } else {
      CreateGroup(prefix, book, j, order, groups);
      var empty: seq<Book> := [];
      assert empty + [book] == [book];
      assert groups' == groups[genre := [book]];
    }
  }

  lemma FinishBook(books: seq<Book>, i: nat, order: seq<string>, groups: map<string, seq<Book>>)
    requires i < |books|
    requires GroupedPartly(books[..i], books[i], |books[i].genres|, order, groups)
    ensures Grouped(books[..i + 1], order, groups)
  {
    var book := books[i];
    assert books[..i + 1][..i] == books[..i];
    assert book.genres[..|book.genres|] == book.genres;
  }

  lemma FinishAll(books: seq<Book>, order: seq<string>, groups: map<string, seq<Book>>)
    requires Grouped(books, order, groups)
    ensures GenreGraph(order, groups) == GenreGraphOf(books)
    ensures TotalSize(GenreGraph(order, groups)) == GenreTokens(books)
  {
    assert groups == map g | g in order :: Group(books, g);
  }

  /** `find_most_common_genres`: the genre dict built by the nested loops, and its keys ranked by group size. */
  method FindMostCommonGenres(books: seq<Book>) returns (ranked: seq<string>, graph: GenreGraph)
    ensures graph == GenreGraphOf(books)
    ensures TotalSize(graph) == GenreTokens(books)
    ensures ranked == RankGenres(graph)
  {
    var order: seq<string> := [];
    var groups: map<string, seq<Book>> := map[];
    for i := 0 to |books|
      invariant Grouped(books[..i], order, groups)
    {
      var book := books[i];
      StartBook(books[..i], book, order, groups);
      for j := 0 to |book.genres|
        invariant GroupedPartly(books[..i], book, j, order, groups)
      {
        var genre := book.genres[j];
        ghost var order0, groups0 := order, groups;
        if genre !in groups {
          groups := groups[genre := []];
          order := order + [genre];
        }
        groups := groups[genre := groups[genre] + [book]];
        DictStep(books[..i], book, j, order0, groups0, order, groups);
      }
      FinishBook(books, i, order, groups);
    }
    assert books[..|books|] == books;
    FinishAll(books, order, groups);
    graph := GenreGraph(order, groups);
    ranked := SortBy(order, SizeKey(groups), MoreThan);
  }

  /** `create_genre_graph`: the same loops over a `defaultdict(list)`, which creates a key on first access. */
  method CreateGenreGraph(books: seq<Book>) returns (graph: GenreGraph)
    ensures graph == GenreGraphOf(books)
  {
    var order: seq<string> := [];
    var groups: map<string, seq<Book>> := map[];
    for i := 0 to |books|
      invariant Grouped(books[..i], order, groups)
    {
      var book := books[i];
      StartBook(books[..i], book, order, groups);
      for j := 0 to |book.genres|
        invariant GroupedPartly(books[..i], book, j, order, groups)
      {
        var genre := book.genres[j];
        ghost var order0, groups0 := order, groups;
        if genre !in groups {
          order := order + [genre];
        }
        groups := groups[genre := (if genre in groups then groups[genre] else []) + [book]];
        DefaultDictStep(books[..i], book, j, order0, groups0, order, groups);
      }
      FinishBook(books, i, order, groups);
    }
    assert books[..|books|] == books;
    FinishAll(books, order, groups);
    graph := GenreGraph(order, groups);
  }

  // ----- Rankings -----

  function SizeKey(groups: map<string, seq<Book>>): string -> int
  {
    g => if g in groups then |groups[g]| else 0
  }

  function MoreThan(a: int, b: int): bool
  {
    a > b
  }

  /** `sorted(genre_graph.keys(), key=lambda x: len(genre_graph[x]), reverse=True)`. */
  function RankGenres(graph: GenreGraph): seq<string>
  {
    SortBy(graph.order, SizeKey(graph.groups), MoreThan)
  }

  /**
   * The genre graph has a key for exactly the genres some book lists, and each key's list holds
   * exactly the books listing that genre.
   */
  lemma GenreGraphMembers(books: seq<Book>)
    ensures var graph := GenreGraphOf(books);
            && (forall g :: g in graph.groups <==> exists i :: 0 <= i < |books| && g in books[i].genres)
            && (forall g, b :: g in graph.groups ==> (b in graph.groups[g] <==> b in books && g in b.genres))
  {
    FirstSeenMembers(books);
    forall g, b | g in GenreGraphOf(books).groups
      ensures b in GenreGraphOf(books).groups[g] <==> b in books && g in b.genres
    {
      GroupMembers(books, g, b);
    }
  }

  lemma MoreThanIsStrictTotalOrder()
    ensures StrictTotalOrder(MoreThan)
  {
  }

  /**
   * `most_common_genres` lists every key of the dict exactly once, by non-increasing group size;
   * genres with equally large groups keep the dict's first-seen order.
   */
  lemma RankGenresOrdersKeys(books: seq<Book>)
    ensures var graph := GenreGraphOf(books);
            var ranked := RankGenres(graph);
            && multiset(ranked) == multiset(graph.order)
            && (forall g :: g in ranked <==> g in graph.groups)
            && Distinct(ranked)
            && (forall i, j :: 0 <= i < j < |ranked| ==> |graph.groups[ranked[i]]| >= |graph.groups[ranked[j]]|)
            && (forall n :: Select(ranked, SizeKey(graph.groups), n) == Select(graph.order, SizeKey(graph.groups), n))
  {
    var graph := GenreGraphOf(books);
    var size := SizeKey(graph.groups);
    var ranked := RankGenres(graph);
    SortPermutes(graph.order, size, MoreThan);
    assert Distinct(ranked) by {
      FirstSeenMembers(books);
      PermutationKeepsDistinct(graph.order, ranked);
    }
    forall g ensures g in ranked <==> g in graph.groups {
      assert g in ranked <==> g in multiset(ranked);
      assert g in graph.order <==> g in multiset(graph.order);
    }
    assert SortedBy(ranked, size, MoreThan) && forall n :: Select(ranked, size, n) == Select(graph.order, size, n) by {
      MoreThanIsStrictTotalOrder();
      SortByIsStableSort(graph.order, size, MoreThan);
    }
    forall i, j | 0 <= i < j < |ranked| ensures |graph.groups[ranked[i]]| >= |graph.groups[ranked[j]]| {
      assert !MoreThan(size(ranked[j]), size(ranked[i]));
    }
  }

  function Rating(b: Book): real
  {
    b.averageRating
  }

  function Higher(x: real, y: real): bool
  {
    x > y
  }

  lemma HigherIsStrictTotalOrder()
    ensures StrictTotalOrder(Higher)
  {
  }

  /**
   * `find_highest_rated_books`: `sorted(book_list, key=average_rating, reverse=True)`. The books
   * are permuted into non-increasing rating, and books rated alike keep their input order.
   */
  function HighestRatedBooks(books: seq<Book>): (r: seq<Book>)
    ensures multiset(r) == multiset(books)
    ensures forall i, j :: 0 <= i < j < |r| ==> r[i].averageRating >= r[j].averageRating
    ensures forall x :: Select(r, Rating, x) == Select(books, Rating, x)
  {
    HigherIsStrictTotalOrder();
    SortByIsStableSort(books, Rating, Higher);
    SortBy(books, Rating, Higher)
  }

  /** Books rated 3.0, 5.0 and 5.0 come out as the two 5.0 books in input order, then the 3.0 book. */
  lemma HighestRatedExample(a: Book, b: Book, c: Book)
    requires a.averageRating == 3.0 && b.averageRating == 5.0 && c.averageRating == 5.0
    ensures HighestRatedBooks([a, b, c]) == [b, c, a]
  {
    assert [a, b, c][1..] == [b, c] && [b, c][1..] == [c];
    assert SortBy([c], Rating, Higher) == [c];
    assert SortBy([b, c], Rating, Higher) == [b, c];
    assert Insert(a, [c], Rating, Higher) == [c, a];
    assert Insert(a, [b, c], Rating, Higher) == [b, c, a];
  }

  /** Books listing ["sci-fi", "drama"] and ["drama"]: both genres become keys, sci-fi first. */
  lemma GenreGraphExample(b1: Book, b2: Book)
    requires b1.genres == ["sci-fi", "drama"] && b2.genres == ["drama"]
    ensures GenreGraphOf([b1, b2]).order == ["sci-fi", "drama"]
    ensures GenreGraphOf([b1, b2]).groups["sci-fi"] == [b1]
    ensures GenreGraphOf([b1, b2]).groups["drama"] == [b1, b2]
  {
    var books := [b1, b2];
    assert FirstSeen(books) == ["sci-fi", "drama"] by {
      assert books[..1] == [b1] && [b1][..0] == [];
      assert b1.genres[..1] == ["sci-fi"] && b1.genres[..0] == [];
      assert b2.genres[..0] == [];
      assert AddNew([], ["sci-fi"]) == ["sci-fi"];
      assert AddNew([], b1.genres) == ["sci-fi", "drama"];
      assert FirstSeen([b1]) == ["sci-fi", "drama"];
      assert AddNew(["sci-fi", "drama"], b2.genres) == ["sci-fi", "drama"];
    }
    assert "sci-fi" != "drama";
    assert b1.genres[..1] == ["sci-fi"] && b1.genres[..0] == [] && b2.genres[..0] == [];
    assert books[..1] == [b1] && [b1][..0] == [];
    assert Group(books, "drama") == [b1, b2] by {
      var one, two: seq<string> := ["drama"], ["sci-fi", "drama"];
      assert one[..0] == [] && two[..1] == ["sci-fi"] && two[..1][..0] == [];
      assert Count(one, "drama") == 1 && Count(two, "drama") == 1;
      assert Group([b1], "drama") == [b1];
    }
    assert Group(books, "sci-fi") == [b1] by {
      var one, two: seq<string> := ["drama"], ["sci-fi", "drama"];
      assert one[..0] == [] && two[..1] == ["sci-fi"] && two[..1][..0] == [];
      assert Count(one, "sci-fi") == 0 && Count(two, "sci-fi") == 1;
      assert Group([b1], "sci-fi") == [b1];
    }
  }

  /** With those books drama holds both of them and ranks before sci-fi. */
  lemma GenreExample(b1: Book, b2: Book)
    requires b1.genres == ["sci-fi", "drama"] && b2.genres == ["drama"]
    ensures GenreGraphOf([b1, b2]).groups["drama"] == [b1, b2]
    ensures RankGenres(GenreGraphOf([b1, b2])) == ["drama", "sci-fi"]
  {
    GenreGraphExample(b1, b2);
    var graph := GenreGraphOf([b1, b2]);
    var size := SizeKey(graph.groups);
    assert size("drama") == 2 && size("sci-fi") == 1;
    assert ["sci-fi", "drama"][1..] == ["drama"];
    assert SortBy(["drama"], size, MoreThan) == ["drama"];
    assert Insert("sci-fi", ["drama"], size, MoreThan) == ["drama", "sci-fi"];
  }
}
