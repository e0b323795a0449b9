/** The hosted database the routers talk to, as in-memory tables: one
    sequence of rows per table, in insertion order. Row ids that the store
    assigns (`shelves.id`, `search_history.id`) come from counters. */
module Store {
  import opened Common
  import opened Catalog

  /** A row of `favorites`. `categories` is `None` for a row that has no
      such column value. */
  datatype Favorite = Favorite(
    userEmail: string, bookId: string, title: string, authors: string,
    thumbnail: string, categories: Option<string>)

  /** A row of `shelves`. */
  datatype Shelf = Shelf(id: int, userEmail: string, name: string)

  /** A row of `shelf_books`. */
  datatype ShelfBook = ShelfBook(shelfId: int, bookId: string, title: string, authors: string, thumbnail: string)

  /** A row of `search_history`; `createdAt` is ISO text. */
  datatype SearchEntry = SearchEntry(id: int, userEmail: string, query: string, createdAt: string)

  /** A row of `recently_viewed`; `thumbnail` is `None` when the column is
      missing from the row. */
  datatype Viewed = Viewed(userEmail: string, bookId: string, title: string, thumbnail: Option<string>, createdAt: string)

  /** A row of `books_cache`, keyed by the volume id. */
  datatype CachedBook = CachedBook(
    id: string, title: Option<string>, authors: seq<string>, thumbnail: Option<string>,
    data: Volume, createdAt: string)

  /** The rows satisfying `keep`, in table order: what a select or a
      delete with `.eq(...)` filters works on. */
  function Where<T(!new)>(rows: seq<T>, keep: T -> bool): (r: seq<T>)
    ensures |r| <= |rows|
    ensures forall i :: 0 <= i < |r| ==> keep(r[i]) && r[i] in rows
    ensures forall x :: x in rows && keep(x) ==> x in r
  {
    if rows == [] then []
    else (if keep(rows[0]) then [rows[0]] else []) + Where(rows[1..], keep)
  }

  /** A filter keeps every row it selects as often as the table has it,
      and no other row. */
  lemma {:induction false} WhereCounts<T(!new)>(rows: seq<T>, keep: T -> bool)
    ensures forall x :: multiset(Where(rows, keep))[x] == if keep(x) then multiset(rows)[x] else 0
  {
    if rows != [] {
      WhereCounts(rows[1..], keep);
      assert rows == [rows[0]] + rows[1..];
    }
  }

  /** Filtering distributes over concatenation: rows keep their order. */
  lemma {:induction false} WhereAppend<T(!new)>(a: seq<T>, b: seq<T>, keep: T -> bool)
    ensures Where(a + b, keep) == Where(a, keep) + Where(b, keep)
  {
    if a != [] {
      var h := if keep(a[0]) then [a[0]] else [];
      assert (a + b)[0] == a[0] && (a + b)[1..] == a[1..] + b;
      assert Where(a + b, keep) == h + Where(a[1..] + b, keep);
      WhereAppend(a[1..], b, keep);
      assert Where(a, keep) == h + Where(a[1..], keep);
    } else {
      assert a + b == b;
    }
  }

  /** A filter no row passes selects nothing. */
  lemma {:induction false} WhereNone<T(!new)>(rows: seq<T>, keep: T -> bool)
    requires forall i :: 0 <= i < |rows| ==> !keep(rows[i])
    ensures Where(rows, keep) == []
  {
    if rows != [] {
      assert !keep(rows[0]);
      forall i | 0 <= i < |rows| - 1 ensures !keep(rows[1..][i]) {
        assert rows[1..][i] == rows[i + 1];
      }
      WhereNone(rows[1..], keep);
    }
  }

  /** The first row a filter selects is the first row of the table that
      passes it. */
  lemma {:induction false} WhereFirst<T(!new)>(rows: seq<T>, keep: T -> bool)
    requires Where(rows, keep) != []
    ensures exists m :: 0 <= m < |rows| && rows[m] == Where(rows, keep)[0] && keep(rows[m])
                        && forall k :: 0 <= k < m ==> !keep(rows[k])
  {
    if !keep(rows[0]) {
      assert Where(rows, keep) == Where(rows[1..], keep);
      WhereFirst(rows[1..], keep);
      var m :| 0 <= m < |rows[1..]| && rows[1..][m] == Where(rows[1..], keep)[0] && keep(rows[1..][m])
               && forall k :: 0 <= k < m ==> !keep(rows[1..][k]);
      assert rows[m + 1] == rows[1..][m];
      forall k | 0 <= k < m + 1 ensures !keep(rows[k]) {
        if k > 0 {
          assert rows[k] == rows[1..][k - 1];
        }
      }
    }
  }

  /** Filtering twice with the same test filters once. */
  lemma {:induction false} WhereTwice<T(!new)>(rows: seq<T>, keep: T -> bool)
    ensures Where(Where(rows, keep), keep) == Where(rows, keep)
  {
    if rows != [] {
      var h := if keep(rows[0]) then [rows[0]] else [];
      WhereTwice(rows[1..], keep);
      WhereAppend(h, Where(rows[1..], keep), keep);
    }
  }

  /** Two tables of the same length whose rows pass the test at the same
      positions have as many rows passing it. */
  lemma {:induction false} WherePointwise<T(!new)>(a: seq<T>, b: seq<T>, keep: T -> bool)
    requires |a| == |b|
    requires forall i :: 0 <= i < |a| ==> keep(a[i]) == keep(b[i])
    ensures |Where(a, keep)| == |Where(b, keep)|
  {
    if a != [] {
      assert keep(a[0]) == keep(b[0]);
      forall i | 0 <= i < |a| - 1 ensures keep(a[1..][i]) == keep(b[1..][i]) {
        assert a[1..][i] == a[i + 1] && b[1..][i] == b[i + 1];
      }
      WherePointwise(a[1..], b[1..], keep);
    }
  }

  /** Number of rows satisfying `keep`. */
  function Count<T(!new)>(rows: seq<T>, keep: T -> bool): nat {
    |Where(rows, keep)|
  }

  /** Insert-if-absent: `rows` unchanged when some row clashes with the
      new one, otherwise `row` appended. */
  function InsertIfAbsent<T(!new)>(rows: seq<T>, row: T, clash: T -> bool): seq<T> {
    if Count(rows, clash) == 0 then rows + [row] else rows
  }

  /** After an insert-if-absent the clashing rows number one, or as many
      as before; a table that had at most one keeps at most one. */
  lemma InsertIfAbsentCount<T(!new)>(rows: seq<T>, row: T, clash: T -> bool)
    requires clash(row)
    ensures var n := Count(rows, clash);
            Count(InsertIfAbsent(rows, row, clash), clash) == if n == 0 then 1 else n
  {
    WhereAppend(rows, [row], clash);
  }

  /** Offering a clashing row again changes nothing. */
  lemma InsertIfAbsentIdempotent<T(!new)>(rows: seq<T>, row: T, again: T, clash: T -> bool)
    requires clash(row)
    ensures InsertIfAbsent(InsertIfAbsent(rows, row, clash), again, clash) == InsertIfAbsent(rows, row, clash)
  {
    InsertIfAbsentCount(rows, row, clash);
  }

  /** No two rows share a key. */
  ghost predicate KeysUnique<T, K>(rows: seq<T>, key: T -> K) {
    forall i, j :: 0 <= i < j < |rows| ==> key(rows[i]) != key(rows[j])
  }

  /** Every key is below `bound`. */
  ghost predicate KeysBelow<T>(rows: seq<T>, key: T -> int, bound: int) {
    forall i :: 0 <= i < |rows| ==> key(rows[i]) < bound
  }

  /** Deleting rows keeps keys unique and below their bound. */
  lemma {:induction false} WhereKeepsKeys<T(!new)>(rows: seq<T>, keep: T -> bool, key: T -> int, bound: int)
    requires KeysUnique(rows, key) && KeysBelow(rows, key, bound)
    ensures KeysUnique(Where(rows, keep), key) && KeysBelow(Where(rows, keep), key, bound)
  {
    if rows != [] {
      var h, tail := rows[0], rows[1..];
      assert KeysUnique(tail, key) by {
        forall i, j | 0 <= i < j < |tail| ensures key(tail[i]) != key(tail[j]) {
          assert tail[i] == rows[i + 1] && tail[j] == rows[j + 1];
        }
      }
      assert KeysBelow(tail, key, bound) by {
        forall i | 0 <= i < |tail| ensures key(tail[i]) < bound {
          assert tail[i] == rows[i + 1];
        }
      }
      WhereKeepsKeys(tail, keep, key, bound);
      var w := Where(tail, keep);
      if keep(h) {
        assert Where(rows, keep) == [h] + w;
        forall j | 0 <= j < |w| ensures key(w[j]) != key(h) {
          var m :| 0 <= m < |tail| && tail[m] == w[j];
          assert rows[m + 1] == w[j];
        }
      } else {
        assert Where(rows, keep) == w;
      }
    }
  }

  /** All tables of the store. The store assigns `shelves.id` and
      `search_history.id` from `nextShelfId` and `nextSearchId`;
      `books_cache.id` is a primary key. */
  class Database {
    var favorites: seq<Favorite>
    var shelves: seq<Shelf>
    var shelfBooks: seq<ShelfBook>
    var searchHistory: seq<SearchEntry>
    var recentlyViewed: seq<Viewed>
    var booksCache: seq<CachedBook>
    var nextShelfId: int
    var nextSearchId: int

    /** Keys are unique, and the id counters are past every id in use. */
    ghost predicate Valid()
      reads this
    {
      && KeysUnique(shelves, (s: Shelf) => s.id)
      && KeysBelow(shelves, (s: Shelf) => s.id, nextShelfId)
      && KeysUnique(searchHistory, (e: SearchEntry) => e.id)
      && KeysBelow(searchHistory, (e: SearchEntry) => e.id, nextSearchId)
      && KeysUnique(booksCache, (c: CachedBook) => c.id)
    }

    constructor ()
      ensures Valid()
      ensures favorites == [] && shelves == [] && shelfBooks == []
      ensures searchHistory == [] && recentlyViewed == [] && booksCache == []
    {
      favorites, shelves, shelfBooks := [], [], [];
      searchHistory, recentlyViewed, booksCache := [], [], [];
      nextShelfId, nextSearchId := 1, 1;
    }
  }
}
