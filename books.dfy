/** The books routes: a Google Books search that records the query in the
    user's search history, and a book's detail page, served from a
    three-day cache of Google Books answers or fetched by volume id with
    an ISBN search as fallback, which also records the book as recently
    viewed. */
module Books {
  import opened Common
  import opened Catalog
  import opened Text
  import opened Store
  import opened Favorites
  import opened Pages

  // ---------------------------------------------------------------
  // The search query

  /** `str(q)` of an optional query: Python formats a missing one as
      "None". */
  function Shown(q: Option<string>): string {
    if q.Some? then q.value else "None"
  }

  /** The query `search_books` works with: `filter:q` when a filter is
      chosen, otherwise `q` itself. */
  function ComposeQuery(filter: string, q: Option<string>): (query: Option<string>)
    ensures filter == "" ==> query == q
    ensures filter != "" ==> query == Some(filter + ":" + Shown(q)) && |query.value| > |filter|
    ensures query.Some? && query.value != "" <==> filter != "" || (q.Some? && q.value != "")
  {
    if filter != "" then Some(filter + ":" + Shown(q)) else q
  }

  /** Python's truth test on the composed query: whether anything is
      recorded and searched. */
  predicate IsSearched(query: Option<string>) {
    query.Some? && query.value != ""
  }

  /** The caption the history shows for a query made with `filter`. */
  function Caption(filter: string): string {
    if filter == "inauthor" then "Author: "
    else if filter == "intitle" then "Title: "
    else "Category: "
  }

  /** A search with one of the three filters the search form offers comes
      back in the history as the caption of that filter followed by the
      searched text, from which every occurrence of the tag is removed;
      text without the tag is shown as typed. */
  lemma ComposedLabel(filter: string, name: string)
    requires filter == "inauthor" || filter == "intitle" || filter == "subject"
    ensures HistoryLabel(ComposeQuery(filter, Some(name)).value) == Caption(filter) + Replace(name, filter + ":", "")
    ensures !Occurs(name, filter + ":") ==> HistoryLabel(ComposeQuery(filter, Some(name)).value) == Caption(filter) + name
  {
    assert ComposeQuery(filter, Some(name)).value == (filter + ":") + name;
    if filter == "inauthor" {
      assert filter + ":" == AuthorTag;
      AuthorLabel(name);
    } else if filter == "intitle" {
      assert filter + ":" == TitleTag;
      TitleLabel(name);
    } else {
      assert filter + ":" == SubjectTag;
      SubjectLabel(name);
    }
  }

  // ---------------------------------------------------------------
  // Search history upsert

  /** A history row of `user` for `query`. */
  predicate IsSearchOf(e: SearchEntry, user: string, query: string) {
    e.userEmail == user && e.query == query
  }

  /** How many history rows `user` has for `query`. */
  function CountSearches(rows: seq<SearchEntry>, user: string, query: string): nat {
    |Where(rows, (e: SearchEntry) => IsSearchOf(e, user, query))|
  }

  /** The rows with the row whose id is `id` stamped with `at`. */
  function Stamped(rows: seq<SearchEntry>, id: int, at: string): (r: seq<SearchEntry>)
    ensures |r| == |rows|
  {
    seq(|rows|, i requires 0 <= i < |rows| => if rows[i].id == id then rows[i].(createdAt := at) else rows[i])
  }

  /** The history after a search for `query` at time `at`: the first row
      of the user with that query is re-stamped, or a new row with id
      `nextId` is appended when there is none. */
  function WithSearch(rows: seq<SearchEntry>, nextId: int, user: string, query: string, at: string): seq<SearchEntry> {
    var existing := Where(rows, (e: SearchEntry) => IsSearchOf(e, user, query));
    if existing != [] then Stamped(rows, existing[0].id, at)
    else rows + [SearchEntry(nextId, user, query, at)]
  }

  /** Searching never duplicates a history row: afterwards the user has
      the query once, or as often as before. */
  lemma WithSearchOnce(rows: seq<SearchEntry>, nextId: int, user: string, query: string, at: string)
    ensures var n := CountSearches(rows, user, query);
            CountSearches(WithSearch(rows, nextId, user, query, at), user, query) == if n == 0 then 1 else n
  {
    var keep := (e: SearchEntry) => IsSearchOf(e, user, query);
    var existing := Where(rows, keep);
    if existing != [] {
      WherePointwise(Stamped(rows, existing[0].id, at), rows, keep);
    } else {
      WhereAppend(rows, [SearchEntry(nextId, user, query, at)], keep);
    }
  }

  /** After a search the user has a row for the query stamped with the
      search's time, and every row for another user or query is as it
      was, at the same place. When the user had searched the query
      before, no row is added: only their first row for it is re-stamped
      and every other row, matching or not, is as it was; otherwise the
      new row is appended after the others. */
  lemma WithSearchStamps(rows: seq<SearchEntry>, nextId: int, user: string, query: string, at: string)
    requires KeysUnique(rows, (e: SearchEntry) => e.id)
    ensures var r := WithSearch(rows, nextId, user, query, at);
      && |rows| <= |r|
      && (exists i :: 0 <= i < |r| && IsSearchOf(r[i], user, query) && r[i].createdAt == at)
      && (forall i :: 0 <= i < |rows| && !IsSearchOf(rows[i], user, query) ==> r[i] == rows[i])
    ensures CountSearches(rows, user, query) == 0 ==>
      WithSearch(rows, nextId, user, query, at) == rows + [SearchEntry(nextId, user, query, at)]
    ensures var r := WithSearch(rows, nextId, user, query, at);
      CountSearches(rows, user, query) > 0 ==>
        && |r| == |rows|
        && exists m :: 0 <= m < |rows| && IsSearchOf(rows[m], user, query)
             && (forall k :: 0 <= k < m ==> !IsSearchOf(rows[k], user, query))
             && r[m] == rows[m].(createdAt := at)
             && (forall i :: 0 <= i < |rows| && i != m ==> r[i] == rows[i])
  {
    var keep := (e: SearchEntry) => IsSearchOf(e, user, query);
    var existing := Where(rows, keep);
    var r := WithSearch(rows, nextId, user, query, at);
    if existing != [] {
      WhereFirst(rows, keep);
      var m :| 0 <= m < |rows| && rows[m] == existing[0] && keep(rows[m])
               && forall k :: 0 <= k < m ==> !keep(rows[k]);
      assert r[m] == rows[m].(createdAt := at);
      forall i | 0 <= i < |rows| && i != m ensures r[i] == rows[i] {
        assert rows[i].id != rows[m].id;
      }
    } else {
      assert r[|rows|] == SearchEntry(nextId, user, query, at);
    }
  }

  /** Re-stamping a row keeps every id where it was. */
  lemma StampedKeys(rows: seq<SearchEntry>, id: int, at: string, bound: int)
    requires KeysUnique(rows, (e: SearchEntry) => e.id) && KeysBelow(rows, (e: SearchEntry) => e.id, bound)
    ensures var r := Stamped(rows, id, at);
      KeysUnique(r, (e: SearchEntry) => e.id) && KeysBelow(r, (e: SearchEntry) => e.id, bound)
  {
    var r := Stamped(rows, id, at);
    assert forall i :: 0 <= i < |r| ==> r[i].id == rows[i].id;
  }

  /** Appending a row whose id is the counter keeps ids unique, and below
      the counter advanced by one. */
  lemma AppendedKeys(rows: seq<SearchEntry>, e: SearchEntry, bound: int)
    requires KeysUnique(rows, (x: SearchEntry) => x.id) && KeysBelow(rows, (x: SearchEntry) => x.id, bound)
    requires e.id == bound
    ensures KeysUnique(rows + [e], (x: SearchEntry) => x.id) && KeysBelow(rows + [e], (x: SearchEntry) => x.id, bound + 1)
  {
    var r := rows + [e];
    forall i, j | 0 <= i < j < |r| ensures r[i].id != r[j].id {
      if j == |rows| {
        assert r[i] == rows[i] && rows[i].id < bound;
      } else {
        assert r[i] == rows[i] && r[j] == rows[j];
      }
    }
  }

  /** The search-history write of `search_books`: re-stamp the user's row
      for the query, or insert one with the next id. The store stamps an
      inserted row with the current time. */
  method RecordSearch(db: Database, user: string, query: string, now: Clock)
    requires db.Valid()
    modifies db`searchHistory, db`nextSearchId
    ensures db.Valid()
    ensures db.searchHistory == WithSearch(old(db.searchHistory), old(db.nextSearchId), user, query, now.iso)
    ensures db.nextSearchId == old(db.nextSearchId) + if CountSearches(old(db.searchHistory), user, query) == 0 then 1 else 0
  {
    var existing := Where(db.searchHistory, (e: SearchEntry) => IsSearchOf(e, user, query));
    if existing != [] {
      StampedKeys(db.searchHistory, existing[0].id, now.iso, db.nextSearchId);
      db.searchHistory := Stamped(db.searchHistory, existing[0].id, now.iso);
    } else {
      var row := SearchEntry(db.nextSearchId, user, query, now.iso);
      AppendedKeys(db.searchHistory, row, db.nextSearchId);
      db.searchHistory := db.searchHistory + [row];
      db.nextSearchId := db.nextSearchId + 1;
    }
  }

  // ---------------------------------------------------------------
  // Search page

  /** The queries of the first ten rows, in the order given. */
  function RecentQueries(rows: seq<SearchEntry>): (queries: seq<string>)
    ensures |queries| == if |rows| < 10 then |rows| else 10
    ensures forall i :: 0 <= i < |queries| ==> queries[i] == rows[i].query
  {
    var n := if |rows| < 10 then |rows| else 10;
    seq(n, i requires 0 <= i < n => rows[i].query)
  }

  /** What the search template receives. `query` is the text as typed,
      not the composed query. */
  datatype SearchPage = SearchPage(
    books: seq<Volume>,
    query: Option<string>,
    filter: string,
    user: string,
    history: seq<(string, string)>)

  /** `search_books`. `newestFirst` is the store's ordering of history
      rows by `created_at`, newest first; `fetch` answers a Google Books
      search for a query. */
  method SearchBooks(
    db: Database, user: Option<string>, q: Option<string>, filter: string, now: Clock,
    newestFirst: seq<SearchEntry> -> seq<SearchEntry>, fetch: string -> Fetched<SearchResult>)
    returns (r: Response<SearchPage>)
    requires db.Valid()
    requires forall rows :: multiset(newestFirst(rows)) == multiset(rows)
    modifies db`searchHistory, db`nextSearchId
    ensures db.Valid()
    ensures user.None? ==> r == RedirectToLogin
    ensures user.None? || !IsSearched(ComposeQuery(filter, q)) ==>
      db.searchHistory == old(db.searchHistory) && db.nextSearchId == old(db.nextSearchId)
    ensures user.Some? && IsSearched(ComposeQuery(filter, q)) ==>
      db.searchHistory == WithSearch(old(db.searchHistory), old(db.nextSearchId), user.value, ComposeQuery(filter, q).value, now.iso)
    ensures user.Some? && IsSearched(ComposeQuery(filter, q)) ==>
      db.nextSearchId == old(db.nextSearchId) +
        if CountSearches(old(db.searchHistory), user.value, ComposeQuery(filter, q).value) == 0 then 1 else 0
    ensures user.Some? ==> r.Page?
    ensures user.Some? ==> var p, query := r.content, ComposeQuery(filter, q);
      && p.books == (if IsSearched(query) then ItemsOf(fetch(query.value)) else [])
      && p.query == q && p.filter == filter && p.user == user.value
    ensures user.Some? ==>
      var recent := RecentQueries(newestFirst(Where(db.searchHistory, (e: SearchEntry) => e.userEmail == user.value)));
      && |r.content.history| == |recent|
      && forall i :: 0 <= i < |recent| ==> r.content.history[i] == (recent[i], HistoryLabel(recent[i]))
    ensures user.Some? ==> forall i :: 0 <= i < |r.content.history| ==>
      exists e :: e in db.searchHistory && e.userEmail == user.value && e.query == r.content.history[i].0
  {
    if user.None? {
      return RedirectToLogin;
    }
    var email := user.value;
    var books: seq<Volume> := [];
    var query := ComposeQuery(filter, q);
    if IsSearched(query) {
      RecordSearch(db, email, query.value, now);
    }
    var mine := Where(db.searchHistory, (e: SearchEntry) => e.userEmail == email);
    var ordered := newestFirst(mine);
    var recent := RecentQueries(ordered);
    var history := SearchHistoryZipped(recent);
    forall i | 0 <= i < |recent|
      ensures exists e :: e in db.searchHistory && e.userEmail == email && e.query == recent[i]
    {
      var e := ordered[i];
      assert e in multiset(ordered);
      assert e in mine;
    }
    if IsSearched(query) {
      books := ItemsOf(fetch(query.value));
    }
    r := Page(SearchPage(books, q, filter, email, history));
  }

  // ---------------------------------------------------------------
  // Cache freshness

  const CacheExpiryHours: int := 72
  const MicrosPerHour: int := 3_600_000_000

  /** A cache row written at `created` is served at `now` while it is
      less than 72 hours old; at exactly 72 hours it is refetched. */
  predicate IsFresh(created: int, now: int) {
    now - created < CacheExpiryHours * MicrosPerHour
  }

  /** What a look into `books_cache` finds: a fresh row's data, a stale
      row, no row, or a row whose timestamp does not parse. */
  datatype Probe = Fresh(data: Volume) | Stale | Miss | BadStamp

  /** The cache check of `book_detail`. `parseIso` is `fromisoformat` on
      the stamp padded with zeros to 26 characters: the stamp's time in
      microseconds, or `None` when it raises. */
  function ProbeCache(rows: seq<CachedBook>, bookId: string, now: Clock, parseIso: string -> Option<int>): (p: Probe)
    ensures p.Miss? <==> forall c :: c in rows ==> c.id != bookId
    ensures p.Fresh? ==> exists c :: c in rows && c.id == bookId && c.data == p.data
  {
    var hits := Where(rows, (c: CachedBook) => c.id == bookId);
    if hits == [] then Miss
    else
      match parseIso(LJust(hits[0].createdAt, 26, '0'))
      case None => BadStamp
      case Some(t) => if IsFresh(t, now.micros) then Fresh(hits[0].data) else Stale
  }

  // ---------------------------------------------------------------
  // Fetching a book

  /** A volume-id request yields its body when it answered 200 with a
      `volumeInfo`. */
  function FromVolume(reply: Fetched<Volume>): (book: Option<Volume>)
    ensures book.Some? <==> reply.Reply? && reply.status == 200 && reply.body.volumeInfo.Some?
    ensures book.Some? ==> book.value == reply.body
  {
    if reply.Reply? && reply.status == 200 && reply.body.volumeInfo.Some? then Some(reply.body) else None
  }

  /** An ISBN search yields its first item when it answered 200 with a
      positive `totalItems` (0 when absent); a missing or empty `items`
      raises inside the handler's `try` and yields nothing. */
  function FromIsbn(reply: Fetched<SearchResult>): (book: Option<Volume>)
    ensures book.Some? ==> reply.Reply? && reply.status == 200 && reply.body.items.Some?
    ensures book.Some? ==> reply.body.items.value != [] && book.value == reply.body.items.value[0]
    ensures book.Some? ==> reply.body.totalItems.Some? && reply.body.totalItems.value > 0
    ensures (&& reply.Reply? && reply.status == 200
             && reply.body.totalItems.Some? && reply.body.totalItems.value > 0
             && reply.body.items.Some? && reply.body.items.value != [])
            ==> book == Some(reply.body.items.value[0])
  {
    if reply.Reply? && reply.status == 200 && reply.body.totalItems.Some? && reply.body.totalItems.value > 0
       && reply.body.items.Some? && reply.body.items.value != []
    then Some(reply.body.items.value[0])
    else None
  }

  /** The query of the ISBN fallback. */
  function IsbnQuery(bookId: string): string {
    "isbn:" + bookId
  }

  /** Fetch by volume id, and by ISBN only when that yields nothing.
      `fetchVolume` answers a volume-id request, `fetch` a search. */
  function FetchBook(bookId: string, fetchVolume: string -> Fetched<Volume>, fetch: string -> Fetched<SearchResult>)
    : (book: Option<Volume>)
    ensures book.None? <==> FromVolume(fetchVolume(bookId)).None? && FromIsbn(fetch(IsbnQuery(bookId))).None?
    ensures FromVolume(fetchVolume(bookId)).Some? ==> book == FromVolume(fetchVolume(bookId))
    ensures FromVolume(fetchVolume(bookId)).None? ==> book == FromIsbn(fetch(IsbnQuery(bookId)))
    ensures book.Some? && book.value.volumeInfo.None? ==>
      FromVolume(fetchVolume(bookId)).None? && book == FromIsbn(fetch(IsbnQuery(bookId)))
  {
    var byId := FromVolume(fetchVolume(bookId));
    if byId.Some? then byId else FromIsbn(fetch(IsbnQuery(bookId)))
  }

  /** The outcome of the lookup part of `book_detail`. */
  datatype Lookup = StampError | NotFetched | Found(book: Volume, cached: bool)

  /** The cache first, then the network when the cache has no fresh row. */
  function LookupBook(
    cache: seq<CachedBook>, bookId: string, now: Clock, parseIso: string -> Option<int>,
    fetchVolume: string -> Fetched<Volume>, fetch: string -> Fetched<SearchResult>)
    : (l: Lookup)
    ensures ProbeCache(cache, bookId, now, parseIso).BadStamp? <==> l.StampError?
    ensures l.Found? && l.cached <==> ProbeCache(cache, bookId, now, parseIso).Fresh?
    ensures l.Found? && !l.cached ==> FetchBook(bookId, fetchVolume, fetch) == Some(l.book)
    ensures ProbeCache(cache, bookId, now, parseIso).Fresh? ==>
      l == Found(ProbeCache(cache, bookId, now, parseIso).data, true)
    ensures ProbeCache(cache, bookId, now, parseIso).Miss? || ProbeCache(cache, bookId, now, parseIso).Stale? ==>
      (l.NotFetched? <==> FetchBook(bookId, fetchVolume, fetch).None?)
  {
    match ProbeCache(cache, bookId, now, parseIso)
    case BadStamp => StampError
    case Fresh(data) => Found(data, true)
    case _ =>
      var fetched := FetchBook(bookId, fetchVolume, fetch);
      if fetched.Some? then Found(fetched.value, false) else NotFetched
  }

  // ---------------------------------------------------------------
  // The cache write

  /** The `books_cache` row written for a fetched book. */
  function CacheRow(bookId: string, info: VolumeInfo, data: Volume, at: string): (c: CachedBook)
    ensures c.id == bookId && c.data == data && c.createdAt == at
  {
    CachedBook(bookId, info.title, if info.authors.Some? then info.authors.value else [], info.thumbnail, data, at)
  }

  /** The rows with every row whose id is `row.id` replaced by `row`. */
  function ReplaceRows(rows: seq<CachedBook>, row: CachedBook): (r: seq<CachedBook>)
    ensures |r| == |rows|
  {
    seq(|rows|, i requires 0 <= i < |rows| => if rows[i].id == row.id then row else rows[i])
  }

  /** Replacing rows removes the old rows with that id, keeps the others,
      and brings in the new row when some row had its id. */
  lemma ReplaceRowsMembers(rows: seq<CachedBook>, row: CachedBook, k: nat)
    requires k < |rows| && rows[k].id == row.id
    ensures var r := ReplaceRows(rows, row);
      && row in r
      && (forall c :: c in r && c.id == row.id ==> c == row)
      && (forall c :: c in rows && c.id != row.id ==> c in r)
      && (forall c :: c in r && c != row ==> c in rows)
  {
    var r := ReplaceRows(rows, row);
    assert r[k] == row;
    forall c | c in rows && c.id != row.id ensures c in r {
      var i :| 0 <= i < |rows| && rows[i] == c;
      assert r[i] == c;
    }
  }

  /** An upsert on the primary key `id`: the rows with the new row's id
      are replaced by it, or it is appended when there is none. */
  function UpsertCache(rows: seq<CachedBook>, row: CachedBook): (r: seq<CachedBook>)
    ensures row in r
    ensures forall c :: c in r && c.id == row.id ==> c == row
    ensures forall c :: c in rows && c.id != row.id ==> c in r
    ensures forall c :: c in r && c != row ==> c in rows
  {
    var w := Where(rows, (c: CachedBook) => c.id == row.id);
    if w == [] then rows + [row]
    else
      assert w[0] in rows && w[0].id == row.id;
      var k :| 0 <= k < |rows| && rows[k] == w[0];
      ReplaceRowsMembers(rows, row, k);
      ReplaceRows(rows, row)
  }

  /** The upsert keeps `books_cache` ids unique. */
  lemma UpsertCacheKeys(rows: seq<CachedBook>, row: CachedBook)
    requires KeysUnique(rows, (c: CachedBook) => c.id)
    ensures KeysUnique(UpsertCache(rows, row), (c: CachedBook) => c.id)
  {
    var r := UpsertCache(rows, row);
    if Where(rows, (c: CachedBook) => c.id == row.id) == [] {
      forall i, j | 0 <= i < j < |r| ensures r[i].id != r[j].id {
        assert r[i] == rows[i];
        if j < |rows| {
          assert r[j] == rows[j];
        } else {
          assert r[j] == row;
        }
      }
    } else {
      forall i, j | 0 <= i < j < |r| ensures r[i].id != r[j].id {
        if r[i].id == row.id {
          assert rows[i].id == row.id && rows[j].id != row.id;
        } else {
          assert r[i] == rows[i];
        }
      }
    }
  }

  /** A book just cached is served from the cache until 72 hours after
      it was written, and refetched from then on, provided the store
      hands the time back in a form that parses to itself. */
  lemma CachedThenFresh(
    rows: seq<CachedBook>, bookId: string, info: VolumeInfo, data: Volume, written: Clock, later: Clock,
    parseIso: string -> Option<int>)
    requires parseIso(LJust(written.iso, 26, '0')) == Some(written.micros)
    ensures var p := ProbeCache(UpsertCache(rows, CacheRow(bookId, info, data, written.iso)), bookId, later, parseIso);
      p == if later.micros - written.micros < CacheExpiryHours * MicrosPerHour then Fresh(data) else Stale
  {
    var row := CacheRow(bookId, info, data, written.iso);
    var r := UpsertCache(rows, row);
    var hits := Where(r, (c: CachedBook) => c.id == bookId);
    assert row in hits;
    assert hits[0] in r && hits[0].id == bookId;
  }

  /** A book fetched from the network and cached by `book_detail` is
      answered from the cache by the next lookup within 72 hours, without
      the network: whatever the Google Books API would answer then, the
      lookup finds the book just fetched. */
  lemma LookupCachedAgain(
    cache: seq<CachedBook>, bookId: string, now: Clock, later: Clock, parseIso: string -> Option<int>,
    fetchVolume: string -> Fetched<Volume>, fetch: string -> Fetched<SearchResult>,
    laterVolume: string -> Fetched<Volume>, laterFetch: string -> Fetched<SearchResult>)
    requires var l := LookupBook(cache, bookId, now, parseIso, fetchVolume, fetch);
      l.Found? && !l.cached && l.book.volumeInfo.Some?
    requires parseIso(LJust(now.iso, 26, '0')) == Some(now.micros)
    requires later.micros - now.micros < CacheExpiryHours * MicrosPerHour
    ensures var l := LookupBook(cache, bookId, now, parseIso, fetchVolume, fetch);
      LookupBook(CacheAfter(cache, bookId, l, now), bookId, later, parseIso, laterVolume, laterFetch) == Found(l.book, true)
  {
    var l := LookupBook(cache, bookId, now, parseIso, fetchVolume, fetch);
    CachedThenFresh(cache, bookId, l.book.volumeInfo.value, l.book, now, later, parseIso);
  }

  // ---------------------------------------------------------------
  // Recently viewed

  /** The `recently_viewed` row written for a viewed book: a missing
      title becomes "Untitled", a missing thumbnail "". */
  function ViewedRow(user: string, bookId: string, info: VolumeInfo, at: string): (v: Viewed)
    ensures v.userEmail == user && v.bookId == bookId && v.createdAt == at
    ensures info.title.None? ==> v.title == "Untitled"
    ensures info.thumbnail.None? ==> v.thumbnail == Some("")
    ensures info.title.Some? ==> v.title == info.title.value
    ensures info.thumbnail.Some? ==> v.thumbnail == info.thumbnail
  {
    Viewed(user, bookId, if info.title.Some? then info.title.value else "Untitled",
           Some(if info.thumbnail.Some? then info.thumbnail.value else ""), at)
  }

  /** Whether `v` records `user` viewing `bookId`. */
  predicate IsViewOf(v: Viewed, user: string, bookId: string) {
    v.userEmail == user && v.bookId == bookId
  }

  /** Delete the user's rows for the book, then insert `row`. */
  function ReplaceViewed(rows: seq<Viewed>, row: Viewed): seq<Viewed> {
    Where(rows, (v: Viewed) => !IsViewOf(v, row.userEmail, row.bookId)) + [row]
  }

  /** After a view the user has exactly one row for the book, the new one
      and last; every other row stays, as often as before. */
  lemma ReplaceViewedOnce(rows: seq<Viewed>, row: Viewed)
    ensures var r := ReplaceViewed(rows, row);
      && r[|r| - 1] == row
      && |Where(r, (v: Viewed) => IsViewOf(v, row.userEmail, row.bookId))| == 1
      && forall v :: !IsViewOf(v, row.userEmail, row.bookId) ==> multiset(r)[v] == multiset(rows)[v]
  {
    var keep := (v: Viewed) => !IsViewOf(v, row.userEmail, row.bookId);
    var same := (v: Viewed) => IsViewOf(v, row.userEmail, row.bookId);
    var kept := Where(rows, keep);
    WhereCounts(rows, keep);
    WhereAppend(kept, [row], same);
    assert forall i :: 0 <= i < |kept| ==> keep(kept[i]);
    WhereNone(kept, same);
  }

  /** Viewing a book twice leaves the table as viewing it once, with the
      later row. */
  lemma ReplaceViewedTwice(rows: seq<Viewed>, first: Viewed, second: Viewed)
    requires second.userEmail == first.userEmail && second.bookId == first.bookId
    ensures ReplaceViewed(ReplaceViewed(rows, first), second) == ReplaceViewed(rows, second)
  {
    var keep := (v: Viewed) => !IsViewOf(v, first.userEmail, first.bookId);
    var kept := Where(rows, keep);
    WhereAppend(kept, [first], keep);
    WhereTwice(rows, keep);
    assert Where([first], keep) == [];
    assert Where(kept + [first], keep) == kept;
  }

  // ---------------------------------------------------------------
  // The detail page

  /** The ids of the shelves, of any user, that hold the book. */
  function ShelfIdsHolding(rows: seq<ShelfBook>, bookId: string): (ids: seq<int>)
    ensures |ids| <= |rows|
    ensures forall id :: id in ids <==> exists b :: b in rows && b.bookId == bookId && b.shelfId == id
  {
    if rows == [] then []
    else
      var rest := ShelfIdsHolding(rows[1..], bookId);
      assert forall b :: b in rows <==> b == rows[0] || b in rows[1..];
      (if rows[0].bookId == bookId then [rows[0].shelfId] else []) + rest
  }

  /** Whether the user has the book among their favorites. */
  function HasFavorite(rows: seq<Favorite>, user: string, bookId: string): (b: bool)
    ensures b <==> exists f :: f in rows && IsFavoriteOf(f, user, bookId)
  {
    var w := Where(rows, (f: Favorite) => IsFavoriteOf(f, user, bookId));
    assert w != [] ==> w[0] in rows && IsFavoriteOf(w[0], user, bookId);
    w != []
  }

  /** What the detail template receives. */
  datatype BookPage = BookPage(book: Volume, isFavorite: bool, shelves: seq<Shelf>, shelfIds: seq<int>)

  /** `books_cache` after a lookup: a book fetched from the network is
      upserted when it has a `volumeInfo` (without one, reading it raises
      inside the `try` and nothing is written). */
  function CacheAfter(cache: seq<CachedBook>, bookId: string, l: Lookup, now: Clock): seq<CachedBook> {
    if l.Found? && !l.cached && l.book.volumeInfo.Some?
    then UpsertCache(cache, CacheRow(bookId, l.book.volumeInfo.value, l.book, now.iso))
    else cache
  }

  /** `book_detail`. A stamp that does not parse raises (500); a book
      neither cached nor fetched is a 404 that changes nothing; a book
      without `volumeInfo` raises when its title is read for the
      recently viewed row (500); otherwise the page shows the book,
      whether it is a favorite, the user's shelves and the shelves
      holding it, and the view is recorded. */
  method BookDetail(
    db: Database, user: Option<string>, bookId: string, now: Clock, parseIso: string -> Option<int>,
    fetchVolume: string -> Fetched<Volume>, fetch: string -> Fetched<SearchResult>)
    returns (r: Response<BookPage>)
    requires db.Valid()
    modifies db`booksCache, db`recentlyViewed
    ensures db.Valid()
    ensures user.None? ==> r == RedirectToLogin
    ensures var l := LookupBook(old(db.booksCache), bookId, now, parseIso, fetchVolume, fetch);
      user.None? || l.StampError? || l.NotFetched? ==>
        db.booksCache == old(db.booksCache) && db.recentlyViewed == old(db.recentlyViewed)
    ensures var l := LookupBook(old(db.booksCache), bookId, now, parseIso, fetchVolume, fetch);
      user.Some? ==>
        && (l.StampError? ==> r == ServerError)
        && (l.NotFetched? ==> r == NotFound)
        && (l.Found? ==> db.booksCache == CacheAfter(old(db.booksCache), bookId, l, now))
        && (l.Found? && l.book.volumeInfo.None? ==> r == ServerError && db.recentlyViewed == old(db.recentlyViewed))
    ensures var l := LookupBook(old(db.booksCache), bookId, now, parseIso, fetchVolume, fetch);
      user.Some? && l.Found? && l.book.volumeInfo.Some? ==>
        && r.Page? && r.content.book == l.book
        && (r.content.isFavorite <==> exists f :: f in db.favorites && IsFavoriteOf(f, user.value, bookId))
        && r.content.shelves == Where(db.shelves, (s: Shelf) => s.userEmail == user.value)
        && r.content.shelfIds == ShelfIdsHolding(db.shelfBooks, bookId)
        && db.recentlyViewed ==
           ReplaceViewed(old(db.recentlyViewed), ViewedRow(user.value, bookId, l.book.volumeInfo.value, now.iso))
  {
    if user.None? {
      return RedirectToLogin;
    }
    var email := user.value;
    ghost var l := LookupBook(db.booksCache, bookId, now, parseIso, fetchVolume, fetch);
    var probe := ProbeCache(db.booksCache, bookId, now, parseIso);
    if probe.BadStamp? {
      return ServerError;
    }
    var bookData: Option<Volume> := if probe.Fresh? then Some(probe.data) else None;
    if bookData.None? {
      bookData := FetchBook(bookId, fetchVolume, fetch);
      if bookData.Some? && bookData.value.volumeInfo.Some? {
        var row := CacheRow(bookId, bookData.value.volumeInfo.value, bookData.value, now.iso);
        UpsertCacheKeys(db.booksCache, row);
        db.booksCache := UpsertCache(db.booksCache, row);
      }
    }
    if bookData.None? {
      return NotFound;
    }
    var book := bookData.value;
    assert l.Found? && l.book == book;
    var isFavorite := HasFavorite(db.favorites, email, bookId);
    var shelves := Where(db.shelves, (s: Shelf) => s.userEmail == email);
    var shelfIds := ShelfIdsHolding(db.shelfBooks, bookId);
    if book.volumeInfo.None? {
      return ServerError;
    }
    db.recentlyViewed := ReplaceViewed(db.recentlyViewed, ViewedRow(email, bookId, book.volumeInfo.value, now.iso));
    r := Page(BookPage(book, isFavorite, shelves, shelfIds));
  }
}
