/** The favorites routes: list the user's favorites, add one (with the
    book's categories fetched from Google Books), remove one. */
module Favorites {
  import opened Common
  import opened Text
  import opened Store

  /** A favorites row of `user` for `bookId`. */
  predicate IsFavoriteOf(f: Favorite, user: string, bookId: string) {
    f.userEmail == user && f.bookId == bookId
  }

  /** How many favorites rows `user` has for `bookId`. */
  function CountFavorites(rows: seq<Favorite>, user: string, bookId: string): nat {
    Count(rows, (f: Favorite) => IsFavoriteOf(f, user, bookId))
  }

  /** The favorites table after `add_favorite` offered `row`: unchanged
      when the user already has the book, otherwise `row` appended. */
  function WithFavorite(rows: seq<Favorite>, row: Favorite): seq<Favorite> {
    InsertIfAbsent(rows, row, (f: Favorite) => IsFavoriteOf(f, row.userEmail, row.bookId))
  }

  /** After an add the user has the book once, or as often as before, so
      repeating the add never creates a second row. */
  lemma WithFavoriteCount(rows: seq<Favorite>, row: Favorite)
    ensures var n := CountFavorites(rows, row.userEmail, row.bookId);
            CountFavorites(WithFavorite(rows, row), row.userEmail, row.bookId) == if n == 0 then 1 else n
  {
    InsertIfAbsentCount(rows, row, (f: Favorite) => IsFavoriteOf(f, row.userEmail, row.bookId));
  }

  /** Adding the same book for the same user a second time changes
      nothing, whatever the other columns say. */
  lemma WithFavoriteIdempotent(rows: seq<Favorite>, row: Favorite, again: Favorite)
    requires again.userEmail == row.userEmail && again.bookId == row.bookId
    ensures WithFavorite(WithFavorite(rows, row), again) == WithFavorite(rows, row)
  {
    InsertIfAbsentIdempotent(rows, row, again, (f: Favorite) => IsFavoriteOf(f, row.userEmail, row.bookId));
  }

  /** The `categories` text `add_favorite` stores: the fetched list joined
      with ", ", or "" when the fetch raised or found no categories.
      `fetched` is `None` when the request or its decoding raised, and
      otherwise `volumeInfo.categories` (`[]` when absent). */
  function StoredCategories(fetched: Option<seq<string>>): (c: string)
    ensures fetched.None? || fetched == Some([]) ==> c == ""
    ensures fetched.Some? && fetched.value != [] ==> c == Join(fetched.value, ", ")
  {
    match fetched
    case None => ""
    case Some(cats) => if cats != [] then Join(cats, ", ") else ""
  }

  /** `view_favorites`: exactly the rows of the signed-in user, in table
      order. */
  method ViewFavorites(db: Database, user: Option<string>) returns (r: Response<seq<Favorite>>)
    ensures user.None? ==> r == RedirectToLogin
    ensures user.Some? ==> r.Page? && r.content == Where(db.favorites, (f: Favorite) => f.userEmail == user.value)
    ensures user.Some? ==> forall f :: f in r.content <==> f in db.favorites && f.userEmail == user.value
  {
    if user.None? {
      return RedirectToLogin;
    }
    var email := user.value;
    r := Page(Where(db.favorites, (f: Favorite) => f.userEmail == email));
  }

  /** `add_favorite`: inserts the book for the user only when no row for
      that (user, book) pair exists. */
  method AddFavorite(
    db: Database, user: Option<string>, bookId: string, title: string, authors: string,
    thumbnail: string, fetched: Option<seq<string>>)
    returns (r: Response<()>)
    modifies db`favorites
    ensures user.None? ==> r == RedirectToLogin && db.favorites == old(db.favorites)
    ensures user.Some? ==> r == SeeOther("/book/" + bookId)
    ensures user.Some? ==>
      db.favorites == WithFavorite(old(db.favorites),
                                   Favorite(user.value, bookId, title, authors, thumbnail, Some(StoredCategories(fetched))))
  {
    if user.None? {
      return RedirectToLogin;
    }
    var email := user.value;
    var categories := "";
    if fetched.Some? && fetched.value != [] {
      categories := Join(fetched.value, ", ");
    }
    var existing := Where(db.favorites, (f: Favorite) => IsFavoriteOf(f, email, bookId));
    if existing == [] {
      db.favorites := db.favorites + [Favorite(email, bookId, title, authors, thumbnail, Some(categories))];
    }
    r := SeeOther("/book/" + bookId);
  }

  /** `remove_favorite`: deletes every row of the user for the book and
      keeps every other row, in order. */
  method RemoveFavorite(db: Database, user: Option<string>, bookId: string) returns (r: Response<()>)
    modifies db`favorites
    ensures user.None? ==> r == RedirectToLogin && db.favorites == old(db.favorites)
    ensures user.Some? ==> r == SeeOther("/book/" + bookId)
    ensures user.Some? ==>
      db.favorites == Where(old(db.favorites), (f: Favorite) => !IsFavoriteOf(f, user.value, bookId))
    ensures user.Some? ==> forall f ::
      multiset(db.favorites)[f] == if IsFavoriteOf(f, user.value, bookId) then 0 else multiset(old(db.favorites))[f]
  {
    if user.None? {
      return RedirectToLogin;
    }
    var email := user.value;
    db.favorites := Where(db.favorites, (f: Favorite) => !IsFavoriteOf(f, email, bookId));
    WhereCounts(old(db.favorites), (f: Favorite) => !IsFavoriteOf(f, email, bookId));
    r := SeeOther("/book/" + bookId);
  }
}
