/** The shelves routes: list, create and delete a user's shelves, view one
    shelf, and add or remove a book on a shelf. */
module Shelves {
  import opened Common
  import opened Store

  /** A `shelf_books` row placing `bookId` on shelf `shelfId`. */
  predicate IsPlacement(b: ShelfBook, shelfId: int, bookId: string) {
    b.shelfId == shelfId && b.bookId == bookId
  }

  /** A `shelves` row of `user` called `name`. */
  predicate IsNamedShelf(s: Shelf, user: string, name: string) {
    s.userEmail == user && s.name == name
  }

  /** A `shelves` row with id `shelfId` that belongs to `user`. */
  predicate IsOwnedShelf(s: Shelf, user: string, shelfId: int) {
    s.id == shelfId && s.userEmail == user
  }

  /** What `view_shelf` renders. */
  datatype ShelfPage = ShelfPage(shelf: Shelf, books: seq<ShelfBook>)

  /** After `add_to_shelf` the book sits on the shelf once, or as often as
      before; offering it again changes nothing. */
  lemma AddToShelfOnce(rows: seq<ShelfBook>, row: ShelfBook, again: ShelfBook)
    requires again.shelfId == row.shelfId && again.bookId == row.bookId
    ensures var placed := (b: ShelfBook) => IsPlacement(b, row.shelfId, row.bookId);
            var n := Count(rows, placed);
            && Count(InsertIfAbsent(rows, row, placed), placed) == (if n == 0 then 1 else n)
            && InsertIfAbsent(InsertIfAbsent(rows, row, placed), again, placed) == InsertIfAbsent(rows, row, placed)
  {
    var placed := (b: ShelfBook) => IsPlacement(b, row.shelfId, row.bookId);
    InsertIfAbsentCount(rows, row, placed);
    InsertIfAbsentIdempotent(rows, row, again, placed);
  }

  /** `add_to_shelf`: inserts (shelf, book) when that pair is absent. It
      does not look at who owns the shelf. */
  method AddToShelf(
    db: Database, user: Option<string>, shelfId: int, bookId: string, title: string,
    authors: string, thumbnail: string)
    returns (r: Response<()>)
    modifies db`shelfBooks
    ensures user.None? ==> r == RedirectToLogin && db.shelfBooks == old(db.shelfBooks)
    ensures user.Some? ==> r == SeeOther("/book/" + bookId)
    ensures user.Some? ==>
      db.shelfBooks == InsertIfAbsent(old(db.shelfBooks), ShelfBook(shelfId, bookId, title, authors, thumbnail),
                                      (b: ShelfBook) => IsPlacement(b, shelfId, bookId))
  {
    if user.None? {
      return RedirectToLogin;
    }
    var existing := Where(db.shelfBooks, (b: ShelfBook) => IsPlacement(b, shelfId, bookId));
    if existing == [] {
      db.shelfBooks := db.shelfBooks + [ShelfBook(shelfId, bookId, title, authors, thumbnail)];
    }
    r := SeeOther("/book/" + bookId);
  }

  /** `remove_from_shelf`: deletes exactly the rows of that (shelf, book)
      pair. */
  method RemoveFromShelf(db: Database, user: Option<string>, shelfId: int, bookId: string)
    returns (r: Response<()>)
    modifies db`shelfBooks
    ensures user.None? ==> r == RedirectToLogin && db.shelfBooks == old(db.shelfBooks)
    ensures user.Some? ==> r == SeeOther("/book/" + bookId)
    ensures user.Some? ==>
      db.shelfBooks == Where(old(db.shelfBooks), (b: ShelfBook) => !IsPlacement(b, shelfId, bookId))
    ensures user.Some? ==> forall b ::
      multiset(db.shelfBooks)[b] == if IsPlacement(b, shelfId, bookId) then 0 else multiset(old(db.shelfBooks))[b]
  {
    if user.None? {
      return RedirectToLogin;
    }
    db.shelfBooks := Where(db.shelfBooks, (b: ShelfBook) => !IsPlacement(b, shelfId, bookId));
    WhereCounts(old(db.shelfBooks), (b: ShelfBook) => !IsPlacement(b, shelfId, bookId));
    r := SeeOther("/book/" + bookId);
  }

  /** `shelves_page`: exactly the signed-in user's shelves, in table
      order. */
  method ShelvesPage(db: Database, user: Option<string>) returns (r: Response<seq<Shelf>>)
    ensures user.None? ==> r == RedirectToLogin
    ensures user.Some? ==> r.Page? && r.content == Where(db.shelves, (s: Shelf) => s.userEmail == user.value)
    ensures user.Some? ==> forall s :: s in r.content <==> s in db.shelves && s.userEmail == user.value
  {
    if user.None? {
      return RedirectToLogin;
    }
    var email := user.value;
    r := Page(Where(db.shelves, (s: Shelf) => s.userEmail == email));
  }

  /** The shelves table after `create_shelf`: a shelf with a fresh id is
      appended unless the user already has a shelf of that name. */
  function WithShelf(rows: seq<Shelf>, user: string, name: string, freshId: int): seq<Shelf> {
    InsertIfAbsent(rows, Shelf(freshId, user, name), (s: Shelf) => IsNamedShelf(s, user, name))
  }

  /** `create_shelf` never gives a user a second shelf of the same name,
      and asking twice is the same as asking once. */
  lemma WithShelfOnce(rows: seq<Shelf>, user: string, name: string, id1: int, id2: int)
    ensures var n := Count(rows, (s: Shelf) => IsNamedShelf(s, user, name));
            Count(WithShelf(rows, user, name, id1), (s: Shelf) => IsNamedShelf(s, user, name)) == if n == 0 then 1 else n
    ensures WithShelf(WithShelf(rows, user, name, id1), user, name, id2) == WithShelf(rows, user, name, id1)
  {
    var named := (s: Shelf) => IsNamedShelf(s, user, name);
    InsertIfAbsentCount(rows, Shelf(id1, user, name), named);
    InsertIfAbsentIdempotent(rows, Shelf(id1, user, name), Shelf(id2, user, name), named);
  }

  /** `create_shelf`: the store assigns the next id to a new shelf. */
  method CreateShelf(db: Database, user: Option<string>, name: string) returns (r: Response<()>)
    requires db.Valid()
    modifies db`shelves, db`nextShelfId
    ensures db.Valid()
    ensures user.None? ==> r == RedirectToLogin && db.shelves == old(db.shelves)
    ensures user.Some? ==> r == SeeOther("/shelves")
    ensures user.Some? ==> db.shelves == WithShelf(old(db.shelves), user.value, name, old(db.nextShelfId))
    ensures db.nextShelfId == old(db.nextShelfId) +
      if user.Some? && forall s :: s in old(db.shelves) ==> !IsNamedShelf(s, user.value, name) then 1 else 0
  {
    if user.None? {
      return RedirectToLogin;
    }
    var email := user.value;
    var existing := Where(db.shelves, (s: Shelf) => IsNamedShelf(s, email, name));
    if existing == [] {
      db.shelves := db.shelves + [Shelf(db.nextShelfId, email, name)];
      db.nextShelfId := db.nextShelfId + 1;
    } else {
      assert existing[0] in db.shelves && IsNamedShelf(existing[0], email, name);
    }
    r := SeeOther("/shelves");
  }

  /** `delete_shelf`: every `shelf_books` row of the shelf goes, whoever
      owns the shelf; the shelf row itself goes only when it is the
      user's. */
  method DeleteShelf(db: Database, user: Option<string>, shelfId: int) returns (r: Response<()>)
    requires db.Valid()
    modifies db`shelfBooks, db`shelves
    ensures db.Valid()
    ensures user.None? ==> r == RedirectToLogin && db.shelfBooks == old(db.shelfBooks) && db.shelves == old(db.shelves)
    ensures user.Some? ==> r == SeeOther("/shelves")
    ensures user.Some? ==> db.shelfBooks == Where(old(db.shelfBooks), (b: ShelfBook) => b.shelfId != shelfId)
    ensures user.Some? ==> db.shelves == Where(old(db.shelves), (s: Shelf) => !IsOwnedShelf(s, user.value, shelfId))
    ensures user.Some? ==> forall b :: b in db.shelfBooks ==> b.shelfId != shelfId
    ensures user.Some? ==> forall s ::
      multiset(db.shelves)[s] == if IsOwnedShelf(s, user.value, shelfId) then 0 else multiset(old(db.shelves))[s]
  {
    if user.None? {
      return RedirectToLogin;
    }
    var email := user.value;
    db.shelfBooks := Where(db.shelfBooks, (b: ShelfBook) => b.shelfId != shelfId);
    db.shelves := Where(db.shelves, (s: Shelf) => !IsOwnedShelf(s, email, shelfId));
    WhereCounts(old(db.shelves), (s: Shelf) => !IsOwnedShelf(s, email, shelfId));
    WhereKeepsKeys(old(db.shelves), (s: Shelf) => !IsOwnedShelf(s, email, shelfId), (s: Shelf) => s.id, db.nextShelfId);
    r := SeeOther("/shelves");
  }

  /** `view_shelf`: 404 unless the user owns a shelf with that id;
      otherwise the first such shelf and every book placed on that id. */
  method ViewShelf(db: Database, user: Option<string>, shelfId: int) returns (r: Response<ShelfPage>)
    ensures user.None? ==> r == RedirectToLogin
    ensures user.Some? && (forall s :: s in db.shelves ==> !IsOwnedShelf(s, user.value, shelfId)) ==> r == NotFound
    ensures user.Some? && (exists s :: s in db.shelves && IsOwnedShelf(s, user.value, shelfId)) ==>
      && r.Page?
      && r.content.shelf in db.shelves && IsOwnedShelf(r.content.shelf, user.value, shelfId)
      && r.content.books == Where(db.shelfBooks, (b: ShelfBook) => b.shelfId == shelfId)
  {
    if user.None? {
      return RedirectToLogin;
    }
    var email := user.value;
    var shelf := Where(db.shelves, (s: Shelf) => IsOwnedShelf(s, email, shelfId));
    if shelf == [] {
      return NotFound;
    }
    var books := Where(db.shelfBooks, (b: ShelfBook) => b.shelfId == shelfId);
    r := Page(ShelfPage(shelf[0], books));
  }
}
