/** The pages routes: the homepage (recent favorites, shelves, labelled
    search history, recently viewed books without repeats, the genre list
    and two Google Books carousels) and the two routes that clear a
    user's recently viewed books or search history. */
module Pages {
  import opened Common
  import opened Catalog
  import opened Text
  import opened Store
  import opened Genres
  import opened Favorites

  // ---------------------------------------------------------------
  // Search history labels

  const AuthorTag: string := "inauthor:"
  const TitleTag: string := "intitle:"
  const SubjectTag: string := "subject:"

  /** The label shown for a past query: an author, title or category
      search is captioned and loses every occurrence of its tag; any
      other query is shown as it is. The tags are tried in that order. */
  function HistoryLabel(item: string): (shown: string)
    ensures !StartsWith(item, AuthorTag) && !StartsWith(item, TitleTag) && !StartsWith(item, SubjectTag) ==>
      shown == item
  {
    if StartsWith(item, AuthorTag) then "Author: " + Replace(item, AuthorTag, "")
    else if StartsWith(item, TitleTag) then "Title: " + Replace(item, TitleTag, "")
    else if StartsWith(item, SubjectTag) then "Category: " + Replace(item, SubjectTag, "")
    else item
  }

  /** An author search shows the searched text after "Author: ", with
      every further "inauthor:" removed from it. */
  lemma AuthorLabel(name: string)
    ensures HistoryLabel(AuthorTag + name) == "Author: " + Replace(name, AuthorTag, "")
    ensures !Occurs(name, AuthorTag) ==> HistoryLabel(AuthorTag + name) == "Author: " + name
  {
    assert (AuthorTag + name)[..|AuthorTag|] == AuthorTag;
    ReplaceLeadingTag(AuthorTag, name);
  }

  /** A title search shows the searched text after "Title: ", with every
      further "intitle:" removed from it; the author tag, tried first,
      never matches. */
  lemma TitleLabel(name: string)
    ensures HistoryLabel(TitleTag + name) == "Title: " + Replace(name, TitleTag, "")
    ensures !Occurs(name, TitleTag) ==> HistoryLabel(TitleTag + name) == "Title: " + name
  {
    var item := TitleTag + name;
    assert item[2] == 't' && AuthorTag[2] == 'a';
    assert !StartsWith(item, AuthorTag);
    assert item[..|TitleTag|] == TitleTag;
    ReplaceLeadingTag(TitleTag, name);
  }

  /** A category search shows the searched text after "Category: ", with
      every further "subject:" removed from it. */
  lemma SubjectLabel(name: string)
    ensures HistoryLabel(SubjectTag + name) == "Category: " + Replace(name, SubjectTag, "")
    ensures !Occurs(name, SubjectTag) ==> HistoryLabel(SubjectTag + name) == "Category: " + name
  {
    var item := SubjectTag + name;
    assert item[0] == 's' && AuthorTag[0] == 'i' && TitleTag[0] == 'i';
    assert !StartsWith(item, AuthorTag) && !StartsWith(item, TitleTag);
    assert item[..|SubjectTag|] == SubjectTag;
    ReplaceLeadingTag(SubjectTag, name);
  }

  /** A tag typed into the searched text is removed too, not only the
      one the filter put in front. */
  lemma RepeatedTagLabel()
    ensures HistoryLabel("inauthor:inauthor:x") == "Author: x"
  {
    assert "inauthor:inauthor:x" == AuthorTag + (AuthorTag + "x");
    AuthorLabel(AuthorTag + "x");
    ReplaceLeadingTag(AuthorTag, "x");
    assert !StartsWith("x", AuthorTag);
  }

  /** `search_history_zipped`: each past query paired with its label, in
      the order the store returned them. */
  method SearchHistoryZipped(raw: seq<string>) returns (zipped: seq<(string, string)>)
    ensures |zipped| == |raw|
    ensures forall i :: 0 <= i < |raw| ==> zipped[i] == (raw[i], HistoryLabel(raw[i]))
  {
    var display: seq<string> := [];
    for i := 0 to |raw|
      invariant |display| == i
      invariant forall k :: 0 <= k < i ==> display[k] == HistoryLabel(raw[k])
    {
      display := display + [HistoryLabel(raw[i])];
    }
    zipped := [];
    for i := 0 to |raw|
      invariant |zipped| == i
      invariant forall k :: 0 <= k < i ==> zipped[k] == (raw[k], display[k])
    {
      zipped := zipped + [(raw[i], display[i])];
    }
  }

  // ---------------------------------------------------------------
  // Recently viewed books

  /** A recently viewed book as the template receives it. */
  datatype ViewedCard = ViewedCard(id: string, title: string, thumbnail: string)

  /** A `recently_viewed` row as a card; a missing thumbnail becomes "". */
  function Card(v: Viewed): (card: ViewedCard)
    ensures card.id == v.bookId && card.title == v.title
    ensures card.thumbnail == if v.thumbnail.Some? then v.thumbnail.value else ""
  {
    ViewedCard(v.bookId, v.title, if v.thumbnail.Some? then v.thumbnail.value else "")
  }

  /** The book ids of some rows. */
  function IdsOf(rows: seq<Viewed>): set<string> {
    set i | 0 <= i < |rows| :: rows[i].bookId
  }

  /** The book ids of some cards. */
  function CardIds(cards: seq<ViewedCard>): set<string> {
    set i | 0 <= i < |cards| :: cards[i].id
  }

  /** The cards for the rows, keeping only the first row of each book. */
  function Deduped(rows: seq<Viewed>): (cards: seq<ViewedCard>)
    ensures |cards| <= |rows|
  {
    if rows == [] then []
    else
      var init, v := rows[..|rows| - 1], rows[|rows| - 1];
      Deduped(init) + (if v.bookId in IdsOf(init) then [] else [Card(v)])
  }

  lemma IdsOfSnoc(rows: seq<Viewed>, v: Viewed)
    ensures IdsOf(rows + [v]) == IdsOf(rows) + {v.bookId}
  {
    var s := rows + [v];
    forall id | id in IdsOf(s) ensures id in IdsOf(rows) + {v.bookId} {
      var i :| 0 <= i < |s| && s[i].bookId == id;
      if i < |rows| {
        assert rows[i] == s[i];
      }
    }
    forall id | id in IdsOf(rows) ensures id in IdsOf(s) {
      var i :| 0 <= i < |rows| && rows[i].bookId == id;
      assert s[i] == rows[i];
    }
    assert s[|rows|] == v;
  }

  lemma CardIdsSnoc(cards: seq<ViewedCard>, c: ViewedCard)
    ensures CardIds(cards + [c]) == CardIds(cards) + {c.id}
  {
    var s := cards + [c];
    forall id | id in CardIds(s) ensures id in CardIds(cards) + {c.id} {
      var i :| 0 <= i < |s| && s[i].id == id;
      if i < |cards| {
        assert cards[i] == s[i];
      }
    }
    forall id | id in CardIds(cards) ensures id in CardIds(s) {
      var i :| 0 <= i < |cards| && cards[i].id == id;
      assert s[i] == cards[i];
    }
    assert s[|cards|] == c;
  }

  /** One more row adds its card exactly when its book has not been seen. */
  lemma DedupedSnoc(rows: seq<Viewed>, i: nat)
    requires i < |rows|
    ensures Deduped(rows[..i + 1]) ==
      Deduped(rows[..i]) + (if rows[i].bookId in IdsOf(rows[..i]) then [] else [Card(rows[i])])
  {
    PrefixOfPrefix(rows, i);
  }

  /** Every book of the rows has a card, and no other book has one. */
  lemma {:induction false} DedupedIds(rows: seq<Viewed>)
    ensures CardIds(Deduped(rows)) == IdsOf(rows)
  {
    if rows != [] {
      var init, v := rows[..|rows| - 1], rows[|rows| - 1];
      DedupedIds(init);
      assert IdsOf(rows) == IdsOf(init) + {v.bookId} by {
        InitLast(rows);
        IdsOfSnoc(init, v);
      }
      if v.bookId !in IdsOf(init) {
        CardIdsSnoc(Deduped(init), Card(v));
      } else {
        assert Deduped(rows) == Deduped(init) + [];
        assert Deduped(init) + [] == Deduped(init);
      }
    }
  }

  /** No book has two cards. */
  lemma {:induction false} DedupedDistinct(rows: seq<Viewed>)
    ensures forall i, j :: 0 <= i < j < |Deduped(rows)| ==> Deduped(rows)[i].id != Deduped(rows)[j].id
  {
    if rows != [] {
      var init, v := rows[..|rows| - 1], rows[|rows| - 1];
      DedupedDistinct(init);
      if v.bookId !in IdsOf(init) {
        DedupedIds(init);
        var d := Deduped(init);
        var cards := d + [Card(v)];
        forall i, j | 0 <= i < j < |cards| ensures cards[i].id != cards[j].id {
          if j == |d| {
            assert cards[i].id == d[i].id && d[i].id in CardIds(d);
          } else {
            assert cards[i] == d[i] && cards[j] == d[j];
          }
        }
      }
    }
  }

  /** `card` is made from row `j`, and no row before `j` has its book. */
  predicate FirstRowCard(rows: seq<Viewed>, card: ViewedCard, j: nat) {
    j < |rows| && card == Card(rows[j]) && rows[j].bookId !in IdsOf(rows[..j])
  }

  lemma FirstRowCardGrows(rows: seq<Viewed>, n: nat, card: ViewedCard, j: nat)
    requires n <= |rows| && FirstRowCard(rows[..n], card, j)
    ensures FirstRowCard(rows, card, j)
  {
    assert rows[..n][..j] == rows[..j];
  }

  /** Some row of `rows` is the first of its book and gives `card`. */
  ghost predicate FromFirstRow(rows: seq<Viewed>, card: ViewedCard) {
    exists j :: 0 <= j < |rows| && FirstRowCard(rows, card, j)
  }

  /** Each card is made from the first row of its book. */
  lemma {:induction false} DedupedFirst(rows: seq<Viewed>)
    ensures forall i :: 0 <= i < |Deduped(rows)| ==> FromFirstRow(rows, Deduped(rows)[i])
  {
    if rows != [] {
      var n := |rows| - 1;
      var init := rows[..n];
      DedupedFirst(init);
      var d := Deduped(init);
      forall i | 0 <= i < |Deduped(rows)| ensures FromFirstRow(rows, Deduped(rows)[i]) {
        if i < |d| {
          assert Deduped(rows)[i] == d[i];
          var j :| FirstRowCard(init, d[i], j);
          FirstRowCardGrows(rows, n, d[i], j);
        } else {
          assert FirstRowCard(rows, Deduped(rows)[i], n);
        }
      }
    }
  }

  /** The index of the first row of the book `id`; for a book with no
      row, the last index (0 for no rows). */
  function FirstIndex(rows: seq<Viewed>, id: string): (k: nat)
    ensures rows != [] ==> k < |rows|
    ensures id in IdsOf(rows) ==> rows[k].bookId == id && forall m :: 0 <= m < k ==> rows[m].bookId != id
  {
    if rows == [] then 0
    else
      var init := rows[..|rows| - 1];
      IdsOfSnoc(init, rows[|rows| - 1]);
      InitLast(rows);
      if id in IdsOf(init) then FirstIndex(init, id) else |rows| - 1
  }

  /** The cards come in the order in which their books were first
      viewed. */
  lemma {:induction false} DedupedOrder(rows: seq<Viewed>)
    ensures var cards := Deduped(rows);
      forall i, j :: 0 <= i < j < |cards| ==> FirstIndex(rows, cards[i].id) < FirstIndex(rows, cards[j].id)
  {
    if rows != [] {
      var n := |rows| - 1;
      var init, v := rows[..n], rows[n];
      DedupedOrder(init);
      DedupedIds(init);
      var d := Deduped(init);
      var cards := Deduped(rows);
      forall i | 0 <= i < |d| ensures FirstIndex(rows, d[i].id) == FirstIndex(init, d[i].id) < n {
        assert d[i].id in CardIds(d);
      }
      forall i, j | 0 <= i < j < |cards| ensures FirstIndex(rows, cards[i].id) < FirstIndex(rows, cards[j].id) {
        assert cards[i] == d[i];
        if j == |d| {
          assert cards[j] == Card(v);
        } else {
          assert cards[j] == d[j];
        }
      }
    }
  }

  /** The de-duplicating loop: a row is turned into a card unless its
      book id is already in `seen_ids`. */
  method DedupViewed(rows: seq<Viewed>) returns (cards: seq<ViewedCard>)
    ensures cards == Deduped(rows)
  {
    var seen: set<string> := {};
    cards := [];
    for i := 0 to |rows|
      invariant seen == IdsOf(rows[..i])
      invariant cards == Deduped(rows[..i])
    {
      DedupedSnoc(rows, i);
      PrefixOfPrefix(rows, i);
      IdsOfSnoc(rows[..i], rows[i]);
      var v := rows[i];
      if v.bookId !in seen {
        seen := seen + {v.bookId};
        cards := cards + [Card(v)];
      }
    }
    FullPrefix(rows);
  }

  // ---------------------------------------------------------------
  // Categories from `add_favorite` to the genre tally

  /** The categories `add_favorite` stores split back into one piece per
      fetched category, which stripped is that category, when no category
      is empty or holds a comma or surrounding whitespace. */
  lemma StoredCategoriesRoundTrip(fav: Favorite, cats: seq<string>)
    requires fav.categories == Some(StoredCategories(Some(cats)))
    requires cats != []
    requires forall i :: 0 <= i < |cats| ==> cats[i] != "" && ',' !in cats[i] && IsStripped(cats[i])
    ensures |CategoryPieces(fav)| == |cats|
    ensures forall i :: 0 <= i < |cats| ==> Strip(CategoryPieces(fav)[i]) == cats[i]
  {
    assert fav.categories.value == Join(cats, ", ") != "";
    JoinSplitRoundTrip(cats);
  }

  /** So the genres the homepage counts for such a favorite are those of
      its fetched categories, in order. */
  lemma StoredCategoriesGenres(fav: Favorite, cats: seq<string>)
    requires fav.categories == Some(StoredCategories(Some(cats)))
    requires cats != []
    requires forall i :: 0 <= i < |cats| ==> cats[i] != "" && ',' !in cats[i] && IsStripped(cats[i])
    ensures AcceptedOf(CategoryPieces(fav)) == AcceptedOf(cats)
  {
    var pieces := CategoryPieces(fav);
    StoredCategoriesRoundTrip(fav, cats);
    forall i | 0 <= i < |pieces| ensures Strip(pieces[i]) == Strip(cats[i]) {
      StripOfStripped(cats[i]);
    }
    AcceptedOfStrips(pieces, cats);
  }

  // ---------------------------------------------------------------
  // Carousels

  /** The carousel query for each known `filter` value. */
  const SearchTerms: map<string, string> := map[
    "week" := "trending books this week",
    "month" := "bestsellers this month",
    "top" := "top rated books",
    "new" := "new book releases"]

  /** The query of any other `filter` value, the empty one included. */
  const DefaultCarouselQuery: string := "trending books"

  const FeaturedQuery: string := "best books of 2024"

  /** `search_terms.get(filter_option, "trending books")`. */
  function CarouselQuery(filter: string): (query: string)
    ensures filter in SearchTerms ==> query == SearchTerms[filter]
    ensures filter !in SearchTerms ==> query == DefaultCarouselQuery
  {
    if filter in SearchTerms then SearchTerms[filter] else DefaultCarouselQuery
  }

  /** Different filters ask for different carousels: the four known
      filters have four different queries, none of them the default. */
  lemma CarouselQueryDistinct(f: string, g: string)
    requires f in SearchTerms && f != g
    ensures CarouselQuery(f) != CarouselQuery(g)
  {
    var q := CarouselQuery(f);
    assert q[0] != 't' || q[1] != 'r' || |q| != |DefaultCarouselQuery|;
    if g in SearchTerms {
      assert q[0] != CarouselQuery(g)[0] || q[1] != CarouselQuery(g)[1];
    }
  }

  // ---------------------------------------------------------------
  // The homepage

  /** What the homepage template receives. */
  datatype HomePage = HomePage(
    favorites: seq<Favorite>,
    shelves: seq<Shelf>,
    history: seq<(string, string)>,
    viewed: seq<ViewedCard>,
    genres: seq<Genre>,
    carousel: seq<Volume>,
    featured: seq<Volume>,
    filter: string)

  /** The genre list the homepage shows for the user's favorites. */
  function HomeGenres(allFavorites: seq<Favorite>): seq<Genre> {
    TopGenres(SortDown(TallyOf(AcceptedPieces(allFavorites)), Rank))
  }

  /** `homepage`. The store's answers are inputs: the user's favorites
      newest first, up to five of the user's shelves, the queries of the
      user's ten newest searches, and the user's five newest recently
      viewed rows. `fetch` answers a Google Books search for a query. */
  method Homepage(
    user: Option<string>, filter: string, allFavorites: seq<Favorite>, shelves: seq<Shelf>,
    historyQueries: seq<string>, viewedRows: seq<Viewed>, fetch: string -> Fetched<SearchResult>)
    returns (r: Response<HomePage>)
    ensures user.None? ==> r == RedirectToLogin
    ensures user.Some? ==> r.Page?
    ensures user.Some? ==> var p := r.content;
      && p.favorites == allFavorites[..if |allFavorites| < 5 then |allFavorites| else 5]
      && p.shelves == shelves
      && |p.history| == |historyQueries|
      && (forall i :: 0 <= i < |historyQueries| ==> p.history[i] == (historyQueries[i], HistoryLabel(historyQueries[i])))
      && p.viewed == Deduped(viewedRows)
      && p.genres == HomeGenres(allFavorites)
      && p.carousel == ItemsOf(fetch(CarouselQuery(filter)))
      && p.featured == ItemsOf(fetch(FeaturedQuery))
      && p.filter == filter
  {
    if user.None? {
      return RedirectToLogin;
    }
    var favorites := if |allFavorites| < 5 then allFavorites else allFavorites[..5];
    var history := SearchHistoryZipped(historyQueries);
    var viewed := DedupViewed(viewedRows);
    var genres := TallyGenres(allFavorites);
    genres := SortDown(genres, Rank);
    genres := TopGenres(genres);
    var carousel := ItemsOf(fetch(CarouselQuery(filter)));
    var featured := ItemsOf(fetch(FeaturedQuery));
    r := Page(HomePage(favorites, shelves, history, viewed, genres, carousel, featured, filter));
  }

  // ---------------------------------------------------------------
  // Clearing

  /** `clear_recently_viewed`: deletes exactly the user's rows. */
  method ClearRecentlyViewed(db: Database, user: Option<string>) returns (r: Response<()>)
    modifies db`recentlyViewed
    ensures user.None? ==> r == RedirectToLogin && db.recentlyViewed == old(db.recentlyViewed)
    ensures user.Some? ==> r == SeeOther("/")
    ensures user.Some? ==> db.recentlyViewed == Where(old(db.recentlyViewed), (v: Viewed) => v.userEmail != user.value)
    ensures user.Some? ==> forall v ::
      multiset(db.recentlyViewed)[v] == if v.userEmail == user.value then 0 else multiset(old(db.recentlyViewed))[v]
  {
    if user.None? {
      return RedirectToLogin;
    }
    var email := user.value;
    db.recentlyViewed := Where(db.recentlyViewed, (v: Viewed) => v.userEmail != email);
    WhereCounts(old(db.recentlyViewed), (v: Viewed) => v.userEmail != email);
    r := SeeOther("/");
  }

  /** `clear_search_history`: deletes exactly the user's rows. */
  method ClearSearchHistory(db: Database, user: Option<string>) returns (r: Response<()>)
    requires db.Valid()
    modifies db`searchHistory
    ensures db.Valid()
    ensures user.None? ==> r == RedirectToLogin && db.searchHistory == old(db.searchHistory)
    ensures user.Some? ==> r == SeeOther("/")
    ensures user.Some? ==> db.searchHistory == Where(old(db.searchHistory), (e: SearchEntry) => e.userEmail != user.value)
    ensures user.Some? ==> forall e ::
      multiset(db.searchHistory)[e] == if e.userEmail == user.value then 0 else multiset(old(db.searchHistory))[e]
  {
    if user.None? {
      return RedirectToLogin;
    }
    var email := user.value;
    db.searchHistory := Where(db.searchHistory, (e: SearchEntry) => e.userEmail != email);
    WhereCounts(old(db.searchHistory), (e: SearchEntry) => e.userEmail != email);
    WhereKeepsKeys(old(db.searchHistory), (e: SearchEntry) => e.userEmail != email, (e: SearchEntry) => e.id, db.nextSearchId);
    r := SeeOther("/");
  }
}
