# bookapi routers in Dafny

A model of the four FastAPI routers of `bookapi`, a small reading-list web
application. It stores its data in a hosted database and looks books up
through the Google Books API. The model covers the following routes:

- **pages**: the homepage and the routes that clear a user's history. The
  homepage shows:
  - the user's five newest favorites and up to five shelves;
  - their ten newest searches, each with a label;
  - their recently viewed books, de-duplicated;
  - a genre list tallied from the categories of all their favorites;
  - two carousels of Google Books results.
- **books**: the search route and the book detail route.
  - Search records the query in the user's history and asks Google Books.
  - Detail serves a book from a 72-hour cache or fetches it, first by
    volume id and then by ISBN. It caches what it fetched and records the
    view.
- **favorites**: list, add (with the book's categories fetched once) and
  remove favorites.
- **shelves**: list, create, delete and view shelves, and add or remove a
  book on a shelf.

Each table of the database is a `seq` field of the class
`Store.Database`. Row ids that the database assigns come from counters.
`Database.Valid` says the keys are unique and the counters are ahead of
every id.

Each route is a method that changes exactly the fields it names. Its
`ensures` gives the whole new state and the response in terms of
specification functions. Lemmas then prove what the routes promise:
- an add never duplicates a row;
- a delete removes exactly the matching rows;
- a search is recorded once and re-stamped when repeated;
- a cached book is served for 72 hours and refetched after that;
- viewing a book twice equals viewing it once.

The homepage's genre tally is a loop over the favorites. That loop updates
a list of genres together with a dictionary aliasing its entries. It is
proved equal to an independent reference definition (`Genres.TallyOf`),
and the lemmas about the tally and the sort are stated over that
definition.

Modules:
- `Common`: shared types and generic sequence facts.
- `Catalog`: Google Books bodies.
- `Text`: the ASCII models of the Python string methods used.
- `Store`: the database tables and the generic filter facts.
- `Genres`, `Pages`, `Books`, `Favorites` and `Shelves`.

## Model

| member | source | states |
|---|---|---|
| Text.Title | routers/pages.py:132 | `str.title`: same length; non-letters unchanged; a letter becomes upper case exactly when no letter precedes it |
| Text.TitleLower | routers/pages.py:132-134 | lower-casing the title-cased name gives the same key as lower-casing the name, so title-casing never changes which genre a name counts for |
| Text.TitleKeepsStripped | routers/pages.py:121-132 | title-casing keeps a stripped name free of surrounding whitespace |
| Text.StripSpec | routers/pages.py:121 | `strip` keeps a contiguous middle part and removes only whitespace, at both ends |
| Text.StripOfStripped | routers/pages.py:121-125 | `strip` leaves text without surrounding whitespace unchanged, so the second strip of a category is a no-op |
| Text.StripLeadingSpace | routers/pages.py:121 | a leading whitespace character does not survive `strip` |
| Text.StripThenCut | routers/pages.py:121-123 | cutting the stripped text at its first separator and stripping again gives the stripped text before the first separator of the original, for a separator that is not whitespace |
| Text.StripKeeps | routers/pages.py:121-122 | a non-whitespace character is in the stripped text exactly when it is in the text |
| Text.Find | routers/pages.py:122-123 | the index of the first separator: no separator before it, the separator at it |
| Text.Split | routers/pages.py:120 | `split(",")` gives at least one piece and no piece contains the separator |
| Text.SplitAt | routers/pages.py:120 | the text before the first separator is the first piece, and the rest splits on its own |
| Text.SplitJoinPieces | routers/pages.py:120 | splitting `p, tail` gives `p`, then the pieces of `tail` with one more space before the first |
| Text.Join | routers/favorites.py:52 | `", ".join` of no parts is "", of one part is that part, and every character comes from a part or the separator |
| Text.JoinSplitRoundTrip | routers/favorites.py:52 | splitting the joined categories on "," gives one piece per category, and each stripped piece is its category, when no category contains a comma or surrounding whitespace |
| Text.ReplaceLeadingTag | routers/pages.py:61 | removing every occurrence of a tag from `tag + rest` removes the leading tag and every occurrence in `rest`, which is `rest` itself when it has none |
| Text.Replace | routers/pages.py:61-65 | `replace` leaves text without an occurrence of the pattern unchanged |
| Text.LJust | routers/books.py:130 | `ljust(26, "0")` keeps the text as a prefix, pads it with zeros to 26 characters, and leaves longer text as it is |
| Store.Where | routers/favorites.py:21 | a filtered select returns only rows that pass, every row that passes, and no more rows than the table has |
| Store.WhereCounts | routers/favorites.py:82-86 | a filtered delete keeps each non-matching row as often as before and no matching row |
| Store.WhereAppend | routers/favorites.py:63-71 | filtering distributes over appending rows |
| Store.WhereTwice | routers/books.py:233-235 | deleting the same rows twice deletes them once |
| Store.WhereFirst | routers/books.py:48-52 | the first row a select returns is the table's first row that passes its filter |
| Store.InsertIfAbsentCount | routers/favorites.py:57-71 | after insert-if-absent the rows clashing with the new row number one, or as many as before |
| Store.InsertIfAbsentIdempotent | routers/favorites.py:57-71 | offering a clashing row again changes nothing |
| Store.WhereKeepsKeys | routers/shelves.py:108 | deleting rows keeps ids unique and below the id counter |
| Favorites.StoredCategories | routers/favorites.py:44-54 | the stored categories are "" when the fetch raised or found no categories, and otherwise the categories joined with ", " |
| Favorites.WithFavoriteCount | routers/favorites.py:56-71 | after an add the user has the book once, or as often as before |
| Favorites.WithFavoriteIdempotent | routers/favorites.py:56-71 | adding the same book again changes nothing, whatever the other columns say |
| Favorites.ViewFavorites | routers/favorites.py:14-28 | redirect when unauthenticated; otherwise exactly the user's rows, in table order |
| Favorites.AddFavorite | routers/favorites.py:31-73 | redirect with no change when unauthenticated; otherwise the row with the stored categories is inserted only when the user lacks the book, then 303 to the book page |
| Favorites.RemoveFavorite | routers/favorites.py:75-88 | redirect with no change when unauthenticated; otherwise every row of the user for the book goes and every other row stays, as often as before |
| Shelves.AddToShelfOnce | routers/shelves.py:28-42 | after an add the book sits on the shelf once, or as often as before, and offering it again changes nothing |
| Shelves.AddToShelf | routers/shelves.py:15-44 | redirect with no change when unauthenticated; otherwise the (shelf, book) pair is inserted when absent, without any check of who owns the shelf |
| Shelves.RemoveFromShelf | routers/shelves.py:47-59 | exactly the rows of the (shelf, book) pair are deleted; every other row stays as often as before |
| Shelves.ShelvesPage | routers/shelves.py:62-73 | exactly the user's shelves, in table order |
| Shelves.WithShelfOnce | routers/shelves.py:82-93 | a user never gets two shelves of the same name, and asking twice is the same as asking once |
| Shelves.CreateShelf | routers/shelves.py:76-95 | a shelf with the next id is appended, and the id counter advanced, exactly when the user is signed in and has no shelf of that name; otherwise neither changes; ids stay unique |
| Shelves.DeleteShelf | routers/shelves.py:98-110 | every book row of the shelf id goes, whoever owns the shelf; the shelf row goes only when it is the user's; nothing else changes |
| Shelves.ViewShelf | routers/shelves.py:113-130 | 404 unless the user owns a shelf with that id; otherwise that shelf and every book row placed on its id |
| Pages.HistoryLabel | routers/pages.py:58-68 | a query with none of the three tags is shown as it is |
| Pages.AuthorLabel | routers/pages.py:60-61 | an `inauthor:` query is shown as "Author: " and the searched text with every further `inauthor:` removed; text without the tag is shown as typed |
| Pages.TitleLabel | routers/pages.py:60-63 | an `intitle:` query is shown as "Title: " and the searched text with every further `intitle:` removed, because the author tag is tried first and never matches |
| Pages.SubjectLabel | routers/pages.py:60-65 | a `subject:` query is shown as "Category: " and the searched text with every further `subject:` removed |
| Pages.RepeatedTagLabel | routers/pages.py:60-61 | a tag typed into the searched text is removed too: `inauthor:inauthor:x` is shown as "Author: x" |
| Pages.SearchHistoryZipped | routers/pages.py:58-69 | one pair per past query, in order, holding the query and its label |
| Pages.Card | routers/pages.py:89-93 | a card keeps the row's book id and title; a missing thumbnail becomes "" |
| Pages.DedupedIds | routers/pages.py:82-94 | every viewed book has a card, and no other book has one |
| Pages.DedupedDistinct | routers/pages.py:82-94 | no book has two cards |
| Pages.DedupedFirst | routers/pages.py:85-94 | each card is made from the first row of its book |
| Pages.FirstIndex | routers/pages.py:85-88 | the position of a book's first viewed row: that row has the book and no earlier row does |
| Pages.DedupedOrder | routers/pages.py:82-94 | the cards come in the order in which their books were first viewed |
| Pages.DedupViewed | routers/pages.py:82-94 | the loop with `seen_ids` produces exactly the de-duplicated cards |
| Pages.StoredCategoriesRoundTrip | routers/pages.py:119-121 | the categories `add_favorite` stores split back into one piece per fetched category, and each stripped piece is that category |
| Pages.StoredCategoriesGenres | routers/pages.py:118-139 | such a favorite adds to the tally exactly the genres of its fetched categories |
| Pages.CarouselQuery | routers/pages.py:153-159 | the four known filters get their own queries; any other filter gets "trending books" |
| Pages.CarouselQueryDistinct | routers/pages.py:153-159 | different filters ask for different carousels |
| Pages.Homepage | routers/pages.py:17-196 | redirect when unauthenticated; otherwise the five newest favorites, the shelves, the labelled history, the de-duplicated viewed books, the sorted and truncated genre tally, both carousels and the filter |
| Pages.ClearRecentlyViewed | routers/pages.py:199-206 | exactly the user's recently viewed rows are deleted; the others stay as often as before |
| Pages.ClearSearchHistory | routers/pages.py:209-216 | exactly the user's history rows are deleted; the others stay and ids stay unique |
| Genres.DefaultKeysDistinct | routers/pages.py:97-115 | the eight defaults have eight different lower-case keys, so each has its own entry in `genre_map` |
| Genres.CategoryPieces | routers/pages.py:119-120 | a favorite with missing or empty categories contributes no pieces |
| Genres.NormalizeCategory | routers/pages.py:121-125 | the normal form of a piece is the stripped piece when it holds no "/", and otherwise the stripped text before its first "/"; it has no surrounding whitespace and no "/" |
| Genres.AcceptCategory | routers/pages.py:127-132 | a piece is skipped exactly when its normal form is shorter than four characters; otherwise its name has the same lower-case key as that normal form; every accepted name is at least four characters long, has no "/" and no surrounding whitespace, and is title-cased |
| Genres.NormalizeIgnoresSpace | routers/pages.py:121 | whitespace around a piece never changes its normal form |
| Genres.AcceptedOfStrips | routers/pages.py:120-132 | pieces that agree once stripped contribute the same names |
| Genres.TitleIdempotent | routers/pages.py:132 | title-casing a title-cased name changes nothing |
| Genres.AcceptedPiecesShape | routers/pages.py:118-132 | every counted name is at least four characters long, contains no "/", has no surrounding whitespace and is title-cased |
| Genres.NewKeys | routers/pages.py:134-139 | the keys that get a new genre: each once, and exactly the keys of counted names that are no default's |
| Genres.TallyDefault | routers/pages.py:112-115 | each default keeps its place and name and counts the names with its key |
| Genres.TallyAdded | routers/pages.py:137-139 | after the defaults, one genre per new key in order of first appearance, named after its first name and counting every name with that key |
| Genres.TallyCounts | routers/pages.py:135-139 | every genre links to its own name and counts exactly the names with its key |
| Genres.TallyKeysUnique | routers/pages.py:134-139 | no two genres share a key |
| Genres.TallyHasKey | routers/pages.py:134-139 | a key has a genre exactly when it is a default key or the key of a counted name |
| Genres.TallyCovers | routers/pages.py:134-139 | every counted name's key has a genre |
| Genres.TallyOfBump | routers/pages.py:135-136 | a name whose key has a genre adds one to that genre's count and changes nothing else |
| Genres.TallyOfAppend | routers/pages.py:137-139 | a name whose key has no genre appends a genre named after it with count one |
| Genres.TallyTotal | routers/pages.py:118-139 | the counts add up to the number of counted names |
| Genres.StartTally | routers/pages.py:112-115 | the defaults in order with count 0, each key mapped to its position |
| Genres.CountName | routers/pages.py:134-139 | one name bumps the genre that `genre_map` points at or appends a new one and maps it, matching the reference tally |
| Genres.TallyCategory | routers/pages.py:121-139 | one piece is normalised, skipped when short, or title-cased and counted, matching the reference tally |
| Genres.TallyPieces | routers/pages.py:120-139 | the loop over a favorite's pieces matches the reference tally |
| Genres.TallyFavorite | routers/pages.py:119-139 | a favorite with missing or empty categories adds nothing; otherwise its pieces are counted in order |
| Genres.TallyGenres | routers/pages.py:109-139 | the whole tally loop produces exactly the reference tally of the favorites' counted names |
| Genres.SortDown | routers/pages.py:142-149 | the sort keeps the length and puts the genres in non-increasing key order |
| Genres.SortDownPermutes | routers/pages.py:142-149 | the sort only reorders: the same genres, each as often |
| Genres.SortDownStable | routers/pages.py:142-149 | genres with equal sort keys keep their relative order |
| Genres.SortGenresOrder | routers/pages.py:142-149 | counts never increase down the list, and at equal counts no default comes before a user-added genre |
| Genres.TopGenres | routers/pages.py:152 | `genres[:15]`: the first min(15, n) genres |
| Genres.HomepageGenresLength | routers/pages.py:109-152 | the homepage shows min(15, 8 + number of new keys) genres |
| Catalog.ItemsOf | routers/pages.py:164-170 | a failed request or a status other than 200 gives no items; a 200 gives the body's items, or none when the body has no `items` |
| Books.ComposeQuery | routers/books.py:34 | with no filter the query is `q`; with one it is `filter:q`, where a missing `q` shows as "None", so it is always recorded and searched; the query is non-empty exactly when a filter is chosen or `q` is non-empty |
| Books.ComposedLabel | routers/books.py:34 | an author, title or subject search appears in the history as its caption followed by the searched text with every occurrence of the tag removed, which is the searched text itself when it has none |
| Books.WithSearchOnce | routers/books.py:38-57 | searching never duplicates a history row: the user has the query once, or as often as before |
| Books.WithSearchStamps | routers/books.py:38-57 | a repeated search adds no row: only the user's first row for the query is re-stamped with the search's time and every other row, matching or not, stays in place; a new search appends its row after the others |
| Books.StampedKeys | routers/books.py:50-52 | re-stamping a row keeps ids unique and below the counter |
| Books.AppendedKeys | routers/books.py:55-57 | inserting a row with the next id keeps ids unique |
| Books.RecordSearch | routers/books.py:38-57 | the history write is the upsert above; the id counter advances only on an insert; ids stay unique |
| Books.RecentQueries | routers/books.py:60-70 | the queries of the first ten rows, in order |
| Books.SearchBooks | routers/books.py:25-109 | redirect with no change when unauthenticated; an empty query records and searches nothing; otherwise the query is recorded and the id counter advances only on an insert; the page shows Google Books' items for the query, the query as typed, the filter, and the labelled ten newest history entries, each one a query of the user's own history |
| Books.ProbeCache | routers/books.py:118-132 | "no row" exactly when the cache has no row for the book; fresh data always comes from a row for the book |
| Books.FromVolume | routers/books.py:137-146 | a volume-id answer is used exactly when it is a 200 with `volumeInfo` |
| Books.FromIsbn | routers/books.py:148-158 | an ISBN answer gives a book exactly when it is a 200 with positive `totalItems` and a non-empty `items`, and the book is then the first item |
| Books.FetchBook | routers/books.py:134-158 | the volume-id answer is used whenever it gives a book; only when it gives none is the ISBN answer used; nothing is found exactly when both give nothing |
| Books.LookupBook | routers/books.py:118-158 | a bad cache stamp is an error; a fresh cache row answers with its own data and without the network; with no row or a stale one the book is fetched, and nothing is found exactly when the fetch finds nothing |
| Books.CacheRow | routers/books.py:162-177 | the cache row is keyed by the book id and holds the data and the time it was written |
| Books.ReplaceRowsMembers | routers/books.py:168-177 | replacing by key brings in the new row, removes the old rows with its id and keeps the others |
| Books.UpsertCache | routers/books.py:168-177 | after the upsert the new row is the only row with its id, every row with another id stays, and no other row appears |
| Books.UpsertCacheKeys | routers/books.py:168-177 | the upsert keeps cache ids unique |
| Books.CachedThenFresh | routers/books.py:128-132 | a book just cached (the 72-hour limit is set at routers/books.py:16) is served from the cache while it is under 72 hours old, and refetched from exactly 72 hours on |
| Books.LookupCachedAgain | routers/books.py:118-177 | a book fetched and cached is found in the cache by any lookup within 72 hours, whatever the network would answer then |
| Books.ViewedRow | routers/books.py:228-245 | the recently viewed row keeps the book's title and thumbnail, with "Untitled" for a missing title and "" for a missing thumbnail |
| Books.ReplaceViewedOnce | routers/books.py:232-245 | after a view the user has exactly one row for the book, the new one and last, and every other row stays as often as before |
| Books.ReplaceViewedTwice | routers/books.py:232-245 | viewing a book twice leaves the table as viewing it once, with the later row |
| Books.ShelfIdsHolding | routers/books.py:217-225 | the ids of the shelves, of any user, that hold the book |
| Books.HasFavorite | routers/books.py:201-209 | the book is a favorite exactly when the user has a favorites row for it |
| Books.BookDetail | routers/books.py:112-258 | redirect when unauthenticated; 500 on an unparsable cache stamp and on a book without `volumeInfo`; 404 with no change when nothing is found; otherwise the cache and recently viewed writes above and the page with the book, favorite flag, user's shelves and shelf ids |

## Left out

- HTTP: status codes of redirects (302 and 307 are both `RedirectToLogin`), templates and the `request` object.
  - A rendered template is `Page` with the values handed to it.
  - `HTTPException(404)` and the 404 template are both `NotFound`.
- Sessions and `get_current_user_email`: the signed-in user is an `Option<string>` input.
- The database client.
  - An ordered or limited select whose order the store decides is an input: the homepage's favorites, history and viewed rows, and the search page's `newestFirst` ordering.
  - Tables are sequences in insertion order.
  - A select with no order returns table order.
  - Database errors are not modelled.
- The network: each Google Books request is an input function (`fetch`, `fetchVolume`) giving `Failed` or a status and a decoded body.
  - Only the fields the routes read are modelled.
  - The carousel URLs, the API key and `urllib.parse.quote` are not modelled.
- Clocks: the current time is a `Clock` input holding microseconds and its `isoformat` text.
  - `datetime.fromisoformat` is the input `parseIso`. A stamp it cannot read gives `None`, including one it parses but cannot subtract from a naive `utcnow()`.
  - The store stamps inserted rows with the current time.
- Logging, `print` and the exceptions the routes catch only to print them.
- Concurrency: two requests interleaving between a select and the following insert can still create duplicate rows. The model runs one route at a time.
- Text is ASCII.
  - `isspace`, `lower` and `title` treat every non-ASCII character as uncased and as not whitespace.
  - Unicode case mappings and Unicode whitespace are not modelled.
- Catalog.Volume: a `volumeInfo` that is present but empty is treated like a missing one.
  - A missing `volumeInfo` and an empty one are the same case for the truth tests at routers/books.py:143. At routers/books.py:163 and 229, a present empty object would not raise; the model treats it as missing.
- Books.ProbeCache: cached `data` is always truthy. Google Books volume objects are never empty, so the refetch after an empty cached object is not modelled.
- The empty store that `Store.Database`'s constructor builds stands for whatever the tables hold when a route runs; the application itself never creates a database.
- Books.SearchBooks: the store's newest-first ordering is an input function. The method requires only that it return the rows it is given, reordered.
- Books.ViewedRow: an `imageLinks` object without `thumbnail` and a missing `imageLinks` are both a missing thumbnail.
- Pages.Card: a `thumbnail` column holding null is treated like a missing one. Both give "", although `dict.get` would return `None` for a null.
- Genres.SortDown: a stable insertion sort on the key `2 * count + (1 if user-added)`. That key orders exactly like the source's tuple key `(count, user-added)` under `reverse=True`. Python's `sorted` algorithm itself is not modelled, only the result it promises.
- Favorites.AddFavorite: the categories request is the input `fetched`. It is `None` when the request or its decoding raised, and otherwise `volumeInfo.categories`.
- main.py, models.py, routers/auth.py, routers/chatbase.py, core/security.py and test_db.py are not part of this model.
