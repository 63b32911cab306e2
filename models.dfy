/**
 * The relational shape of the store (api/models.py): the `users` and `books` rows,
 * their primary and unique keys, the `user_books` membership relation, and the
 * dictionaries that `serialize` builds from a row.
 */
module Models {
  import opened Wrappers
  import opened Dates

  /** A row of `users`. The hash is whatever the external hashing routine produced. */
  datatype User = User(id: int, firstName: string, lastName: string, email: string, passwordHash: string)

  /** A row of `books`; `isbn` is an opaque string, not checked as a real ISBN. */
  datatype Book = Book(isbn: string, title: string, author: string, pubDate: Date)

  /** The JSON values the serialised dictionaries hold. */
  datatype Json = JInt(n: int) | JStr(s: string)

  type Dict = map<string, Json>

  /** The `user_books` relation: pairs (user id, isbn), a set because (user_id, isbn) is its primary key. */
  type Wishlists = set<(int, string)>

  /** `UserModel.serialize`: the public fields of a user, never its password hash. */
  function SerializeUser(u: User): (r: Dict)
    ensures r.Keys == {"user_id", "first_name", "last_name", "email"}
    ensures "password_hash" !in r
    ensures r["user_id"] == JInt(u.id) && r["email"] == JStr(u.email)
    ensures r["first_name"] == JStr(u.firstName) && r["last_name"] == JStr(u.lastName)
  {
    map["user_id" := JInt(u.id), "first_name" := JStr(u.firstName),
        "last_name" := JStr(u.lastName), "email" := JStr(u.email)]
  }

  /** Two users that differ only in their password hash serialise identically. */
  lemma SerializeUserHidesPassword(u: User, hash: string)
    ensures SerializeUser(u.(passwordHash := hash)) == SerializeUser(u)
  {
  }

  /** `BookModel.serialize`: all four fields, with `pub_date` rendered as `YYYY-MM-DD`. */
  function SerializeBook(b: Book): (r: Dict)
    requires ValidDate(b.pubDate)
    ensures r.Keys == {"isbn", "title", "author", "pub_date"}
    ensures r["isbn"] == JStr(b.isbn) && r["title"] == JStr(b.title) && r["author"] == JStr(b.author)
    ensures r["pub_date"].JStr? && ParseDate(r["pub_date"].s) == Some(b.pubDate)
  {
    ParseFormat(b.pubDate);
    map["isbn" := JStr(b.isbn), "title" := JStr(b.title),
        "author" := JStr(b.author), "pub_date" := JStr(FormatDate(b.pubDate))]
  }

  /** A serialised book determines the book row it came from. */
  lemma SerializeBookInjective(a: Book, b: Book)
    requires ValidDate(a.pubDate) && ValidDate(b.pubDate)
    ensures SerializeBook(a) == SerializeBook(b) <==> a == b
  {
    if SerializeBook(a) == SerializeBook(b) {
      assert SerializeBook(a)["pub_date"] == SerializeBook(b)["pub_date"];
      assert SerializeBook(a)["isbn"] == SerializeBook(b)["isbn"];
      assert SerializeBook(a)["title"] == SerializeBook(b)["title"];
      assert SerializeBook(a)["author"] == SerializeBook(b)["author"];
    }
  }

  // ---------------------------------------------------------------------------
  // Keys and references of the three tables
  // ---------------------------------------------------------------------------

  /**
   * `id` is the integer primary key of `users`: each row is stored under its id, and
   * as SQLite hands out max(rowid) + 1 and no user is ever deleted, the ids in use
   * are exactly 1 up to `nextId - 1`.
   */
  ghost predicate UserIds(users: map<int, User>, nextId: int) {
    && nextId >= 1
    && (forall i :: i in users <==> 1 <= i < nextId)
    && IdKeys(users)
  }

  /** Each user row is stored under its own id. */
  ghost predicate IdKeys(users: map<int, User>) {
    forall i :: i in users ==> users[i].id == i
  }

  /** `email` carries a unique index. */
  ghost predicate EmailsUnique(users: map<int, User>) {
    forall i, j :: i in users && j in users && users[i].email == users[j].email ==> i == j
  }

  /** `isbn` is the primary key of `books`; a stored `date` is always a real date. */
  ghost predicate BookKeys(books: map<string, Book>) {
    forall k :: k in books ==> books[k].isbn == k && ValidDate(books[k].pubDate)
  }

  /** The foreign keys of `user_books`: each pair names an existing user and book. */
  ghost predicate WishRefsExist(users: map<int, User>, books: map<string, Book>, wish: Wishlists) {
    forall p :: p in wish ==> p.0 in users && p.1 in books
  }

  /** Everything the schema guarantees about the three tables together. */
  ghost predicate Consistent(users: map<int, User>, books: map<string, Book>, wish: Wishlists, nextId: int) {
    UserIds(users, nextId) && EmailsUnique(users) && BookKeys(books) && WishRefsExist(users, books, wish)
  }

  /** Adding a pair that names an existing user and book keeps every key constraint. */
  lemma AddPairKeepsConsistent(users: map<int, User>, books: map<string, Book>, wish: Wishlists, nextId: int, id: int, isbn: string)
    requires Consistent(users, books, wish, nextId)
    requires id in users && isbn in books
    ensures Consistent(users, books, wish + {(id, isbn)}, nextId)
  {
  }

  /** Storing a book with a real date under its own isbn keeps every key constraint. */
  lemma PutBookKeepsConsistent(users: map<int, User>, books: map<string, Book>, wish: Wishlists, nextId: int, b: Book)
    requires Consistent(users, books, wish, nextId)
    requires ValidDate(b.pubDate)
    ensures Consistent(users, books[b.isbn := b], wish, nextId)
  {
  }

  /** The rows that `UserModel.query.filter_by(id=id, email=email)` selects. */
  function OwnerRows(users: map<int, User>, id: int, email: string): (ks: set<int>)
    ensures forall k :: k in ks <==> k in users && users[k].id == id && users[k].email == email
  {
    set k | k in users && users[k].id == id && users[k].email == email
  }

  /**
   * The owner check of the wishlist handlers: as `id` is the primary key, the query
   * finds a row exactly when user `id` exists and has the given email.
   */
  lemma OwnerCheck(users: map<int, User>, id: int, email: string)
    requires IdKeys(users)
    ensures OwnerRows(users, id, email) != {} <==> id in users && users[id].email == email
  {
    if OwnerRows(users, id, email) != {} {
      var k := PickFrom(OwnerRows(users, id, email));
      assert users[k].id == k;
    }
  }

  /**
   * With the unique email index, a logged-in user `me` passes the owner check on the
   * wishlist of `id` exactly when `id` is `me`: a user can touch only their own wishlist.
   */
  lemma OwnerIsCaller(users: map<int, User>, nextId: int, id: int, me: int)
    requires UserIds(users, nextId) && EmailsUnique(users)
    requires me in users
    ensures OwnerRows(users, id, users[me].email) != {} <==> id == me
  {
    OwnerCheck(users, id, users[me].email);
  }

  // ---------------------------------------------------------------------------
  // The membership relation seen from either side (`user.books`, `book.users`)
  // ---------------------------------------------------------------------------

  /** The isbns on the wishlist of user `id`. */
  function WishlistOf(wish: Wishlists, id: int): (ks: set<string>)
    ensures forall k :: k in ks <==> (id, k) in wish
  {
    set p | p in wish && p.0 == id :: p.1
  }

  /** The ids of the users whose wishlist holds `isbn`. */
  function SubscribersOf(wish: Wishlists, isbn: string): (ids: set<int>)
    ensures forall i :: i in ids <==> (i, isbn) in wish
  {
    set p | p in wish && p.1 == isbn :: p.0
  }

  /** The serialised users among `ids`, as `map(serialize, ...)` over a query yields them. */
  function UserListing(users: map<int, User>, ids: set<int>): (r: set<Dict>)
    requires IdKeys(users)
    ensures forall i :: i in ids && i in users ==> SerializeUser(users[i]) in r
    ensures forall d: Dict :: d in r ==>
      && "user_id" in d && d["user_id"].JInt?
      && d["user_id"].n in ids && d["user_id"].n in users
      && d == SerializeUser(users[d["user_id"].n])
  {
    set i | i in ids && i in users :: SerializeUser(users[i])
  }

  /** The serialised books among `ks`. */
  function BookListing(books: map<string, Book>, ks: set<string>): (r: set<Dict>)
    requires BookKeys(books)
    ensures forall k :: k in ks && k in books ==> SerializeBook(books[k]) in r
    ensures forall d: Dict :: d in r ==>
      && "isbn" in d && d["isbn"].JStr?
      && d["isbn"].s in ks && d["isbn"].s in books
      && d == SerializeBook(books[d["isbn"].s])
  {
    set k | k in ks && k in books :: SerializeBook(books[k])
  }

  /** Removing one id from the selection removes exactly its own entry from the listing. */
  lemma UserListingStep(users: map<int, User>, ids: set<int>, i: int)
    requires IdKeys(users)
    requires i in ids && i in users
    ensures |UserListing(users, ids)| == |UserListing(users, ids - {i})| + 1
  {
    var d, rest := SerializeUser(users[i]), UserListing(users, ids - {i});
    UserListingOwnEntry(users, ids, i);
    UserListingSplit(users, ids, i);
    assert UserListing(users, ids) == rest + {d};
  }

  /** The entry of user `i` is not among the entries of the other ids. */
  lemma UserListingOwnEntry(users: map<int, User>, ids: set<int>, i: int)
    requires IdKeys(users)
    requires i in users
    ensures SerializeUser(users[i]) !in UserListing(users, ids - {i})
  {
    assert SerializeUser(users[i])["user_id"] == JInt(i);
  }

  /** The listing of `ids` is the listing of `ids - {i}` plus the entry of `i`. */
  lemma UserListingSplit(users: map<int, User>, ids: set<int>, i: int)
    requires IdKeys(users)
    requires i in ids && i in users
    ensures UserListing(users, ids) == UserListing(users, ids - {i}) + {SerializeUser(users[i])}
  {
    forall e: Dict | e in UserListing(users, ids)
      ensures e in UserListing(users, ids - {i}) + {SerializeUser(users[i])}
    {
      var n := e["user_id"].n;
      if n != i {
        assert n in ids - {i};
      }
    }
  }

  /** Each listed user appears once: the listing has one entry per existing id. */
  lemma {:induction false} UserListingSize(users: map<int, User>, ids: set<int>)
    requires IdKeys(users)
    requires ids <= users.Keys
    ensures |UserListing(users, ids)| == |ids|
    decreases ids
  {
    if ids != {} {
      var i := PickFrom(ids);
      UserListingSize(users, ids - {i});
      UserListingStep(users, ids, i);
    }
  }

  /** Removing one isbn from the selection removes exactly its own entry from the listing. */
  lemma BookListingStep(books: map<string, Book>, ks: set<string>, k: string)
    requires BookKeys(books)
    requires k in ks && k in books
    ensures |BookListing(books, ks)| == |BookListing(books, ks - {k})| + 1
  {
    var d, rest := SerializeBook(books[k]), BookListing(books, ks - {k});
    BookListingOwnEntry(books, ks, k);
    BookListingSplit(books, ks, k);
    assert BookListing(books, ks) == rest + {d};
  }

  /** The entry of isbn `k` is not among the entries of the other isbns. */
  lemma BookListingOwnEntry(books: map<string, Book>, ks: set<string>, k: string)
    requires BookKeys(books)
    requires k in books
    ensures SerializeBook(books[k]) !in BookListing(books, ks - {k})
  {
    assert SerializeBook(books[k])["isbn"] == JStr(k);
  }

  /** The listing of `ks` is the listing of `ks - {k}` plus the entry of `k`. */
  lemma BookListingSplit(books: map<string, Book>, ks: set<string>, k: string)
    requires BookKeys(books)
    requires k in ks && k in books
    ensures BookListing(books, ks) == BookListing(books, ks - {k}) + {SerializeBook(books[k])}
  {
    var full, rest, d := BookListing(books, ks), BookListing(books, ks - {k}), SerializeBook(books[k]);
    forall e: Dict | e in full
      ensures e in rest + {d}
    {
      var n := e["isbn"].s;
      if n != k {
        assert n in ks - {k} && e == SerializeBook(books[n]);
      }
    }
    forall e: Dict | e in rest + {d}
      ensures e in full
    {
      if e != d {
        var n := e["isbn"].s;
        assert n in ks && e == SerializeBook(books[n]);
      }
    }
  }

  /** Each listed book appears once: the listing has one entry per existing isbn. */
  lemma {:induction false} BookListingSize(books: map<string, Book>, ks: set<string>)
    requires BookKeys(books)
    requires ks <= books.Keys
    ensures |BookListing(books, ks)| == |ks|
    decreases ks
  {
    if ks != {} {
      var k := PickFrom(ks);
      BookListingSize(books, ks - {k});
      BookListingStep(books, ks, k);
    }
  }

  /** Some element of a non-empty set, for proofs by induction on the set. */
  lemma PickFrom<T>(s: set<T>) returns (x: T)
    requires s != {}
    ensures x in s
  {
    x :| x in s;
  }
}
