/**
 * The request handlers of api/views.py over the three tables.
 *
 * `Store` holds the tables as fields that the mutating handlers reassign; the read
 * handlers are functions of those fields. Every handler yields an HTTP status and a
 * body. Authentication (HTTP Basic, checked before a protected handler runs) is an
 * input: `caller` is the email of the authenticated user, or `None` when the
 * credentials were missing or wrong.
 */
module Views {
  import opened Wrappers
  import opened Dates
  import opened Models

  const Ok := 200
  const Created := 201
  const BadRequest := 400
  const Unauthorized := 401
  const NotFound := 404
  const Conflict := 409

  const EmailExists := "User with this email already exists"
  const BadDateFormat := "Publication date (pub_date) must be in YYYY-mm-dd format"
  const IsbnExists := "Book with this ISBN already exists"
  const NotOwnerAdd := "Users are only allowed to add books to their own wishlist"
  const NotOwnerUpdate := "Users are only allowed to update books in their own wishlist"
  const NotOwnerDelete := "Users are only allowed to delete books from their own wishlist"
  const DifferentBook := "Different book with this ISBN already exists"
  const AlreadyInWishlist := "Book with this ISBN already in user's wishlist"
  const NotInWishlist := "Book with this ISBN not in user's wishlist"
  const WishlistUpdated := "User's book wishlist updated successfully"
  const WishlistDeleted := "Book deleted from user's wishlist successfully"

  /**
   * A response body: a `message`, a response the framework writes itself (a failed
   * `get_or_404` or a failed login), one serialised record under a key
   * (`{'user': ...}`), or a listing under a key (`{'books': [...]}`); listings are
   * sets because the source promises no order.
   */
  datatype Body =
    | Message(text: string)
    | Aborted
    | One(key: string, item: Dict)
    | Many(key: string, items: set<Dict>)

  datatype Response = Response(status: int, body: Body)

  /**
   * The test of the wishlist-add handler for an existing book: title and author equal,
   * and the stored date's string form equal to the raw `pub_date` string.
   */
  predicate SameBook(b: Book, title: string, author: string, pubDate: string)
    requires ValidDate(b.pubDate)
  {
    b.title == title && b.author == author && FormatDate(b.pubDate) == pubDate
  }

  /**
   * For a `pub_date` the parser accepts, comparing strings is comparing records: the
   * existing book passes the test exactly when it is the book the request describes.
   */
  lemma SameBookIffSameRecord(b: Book, title: string, author: string, pubDate: string)
    requires ValidDate(b.pubDate)
    requires ParseDate(pubDate).Some?
    ensures SameBook(b, title, author, pubDate) <==> b == Book(b.isbn, title, author, ParseDate(pubDate).value)
  {
    FormatParse(pubDate);
    FormatInjective(b.pubDate, ParseDate(pubDate).value);
  }

  class Store {
    /** `users`: id -> row. */
    var users: map<int, User>
    /** `books`: isbn -> row. */
    var books: map<string, Book>
    /** `user_books`: the (user id, isbn) pairs. */
    var wish: Wishlists
    /** The id the next new user receives. */
    var nextId: int

    ghost predicate Valid()
      reads this
    {
      Consistent(users, books, wish, nextId)
    }

    /** A freshly created, empty database. */
    constructor ()
      ensures Valid()
      ensures users == map[] && books == map[] && wish == {} && nextId == 1
    {
      users, books, wish, nextId := map[], map[], {}, 1;
    }

    predicate EmailTaken(email: string)
      reads this
    {
      exists i :: i in users && users[i].email == email
    }

    /** Users.post: register a user unless the email is taken. */
    method CreateUser(firstName: string, lastName: string, email: string, passwordHash: string)
      returns (r: Response)
      requires Valid()
      modifies this
      ensures Valid()
      ensures books == old(books) && wish == old(wish)
      ensures old(EmailTaken(email)) ==>
        r == Response(Conflict, Message(EmailExists)) && users == old(users) && nextId == old(nextId)
      ensures !old(EmailTaken(email)) ==>
        var u := User(old(nextId), firstName, lastName, email, passwordHash);
        && old(nextId) !in old(users)
        && users == old(users)[old(nextId) := u]
        && nextId == old(nextId) + 1
        && r == Response(Created, One("user", SerializeUser(u)))
    {
      if EmailTaken(email) {
        return Response(Conflict, Message(EmailExists));
      }
      var u := User(nextId, firstName, lastName, email, passwordHash);
      users := users[nextId := u];
      nextId := nextId + 1;
      r := Response(Created, One("user", SerializeUser(u)));
    }

    /** Users.get: every user, without password hashes, each exactly once. */
    function ListUsers(): (r: Response)
      reads this
      requires Valid()
      ensures r.status == Ok && r.body.Many? && r.body.key == "users"
      ensures |r.body.items| == |users|
      ensures forall i :: i in users ==> SerializeUser(users[i]) in r.body.items
      ensures forall d: Dict :: d in r.body.items ==>
        "user_id" in d && d["user_id"].JInt? && d["user_id"].n in users && d == SerializeUser(users[d["user_id"].n])
    {
      UserListingSize(users, users.Keys);
      Response(Ok, Many("users", UserListing(users, users.Keys)))
    }

    /** User.get: the user stored under `id`, or 404. */
    function GetUser(id: int): (r: Response)
      reads this
      requires Valid()
      ensures r.status == NotFound <==> id !in users
      ensures r.status == NotFound ==> r.body == Aborted
      ensures id in users ==> r.status == Ok && r.body == One("user", SerializeUser(users[id]))
    {
      if id in users then Response(Ok, One("user", SerializeUser(users[id])))
      else Response(NotFound, Aborted)
    }

    /** Books.post: store a new book; the date is checked before the isbn. */
    method CreateBook(title: string, author: string, isbn: string, pubDate: string)
      returns (r: Response)
      requires Valid()
      modifies this
      ensures Valid()
      ensures users == old(users) && wish == old(wish) && nextId == old(nextId)
      ensures ParseDate(pubDate).None? ==>
        r == Response(BadRequest, Message(BadDateFormat)) && books == old(books)
      ensures ParseDate(pubDate).Some? && isbn in old(books) ==>
        r == Response(Conflict, Message(IsbnExists)) && books == old(books)
      ensures ParseDate(pubDate).Some? && isbn !in old(books) ==>
        var b := Book(isbn, title, author, ParseDate(pubDate).value);
        books == old(books)[isbn := b] && r == Response(Created, One("book", SerializeBook(b)))
    {
      var date := ParseDate(pubDate);
      if date.None? {
        return Response(BadRequest, Message(BadDateFormat));
      }
      if isbn in books {
        return Response(Conflict, Message(IsbnExists));
      }
      var b := Book(isbn, title, author, date.value);
      PutBookKeepsConsistent(users, books, wish, nextId, b);
      books := books[isbn := b];
      r := Response(Created, One("book", SerializeBook(b)));
    }

    /** Books.get: every book, each exactly once. */
    function ListBooks(): (r: Response)
      reads this
      requires Valid()
      ensures r.status == Ok && r.body.Many? && r.body.key == "books"
      ensures |r.body.items| == |books|
      ensures forall k :: k in books ==> SerializeBook(books[k]) in r.body.items
      ensures forall d: Dict :: d in r.body.items ==>
        "isbn" in d && d["isbn"].JStr? && d["isbn"].s in books && d == SerializeBook(books[d["isbn"].s])
    {
      BookListingSize(books, books.Keys);
      Response(Ok, Many("books", BookListing(books, books.Keys)))
    }

    /** Book.get: the book stored under `isbn`, or 404. */
    function GetBook(isbn: string): (r: Response)
      reads this
      requires Valid()
      ensures r.status == NotFound <==> isbn !in books
      ensures r.status == NotFound ==> r.body == Aborted
      ensures isbn in books ==> r.status == Ok && r.body == One("book", SerializeBook(books[isbn]))
    {
      if isbn in books then Response(Ok, One("book", SerializeBook(books[isbn])))
      else Response(NotFound, Aborted)
    }

    /** UserBooks.get: the books on the wishlist of user `id`, each exactly once. */
    function ListWishlist(id: int): (r: Response)
      reads this
      requires Valid()
      ensures r.status == NotFound <==> id !in users
      ensures r.status == NotFound ==> r.body == Aborted
      ensures id in users ==>
        && r.status == Ok && r.body.Many? && r.body.key == "books"
        && |r.body.items| == |WishlistOf(wish, id)|
        && (forall k :: (id, k) in wish ==> SerializeBook(books[k]) in r.body.items)
        && (forall d: Dict :: d in r.body.items ==>
              "isbn" in d && d["isbn"].JStr? && (id, d["isbn"].s) in wish && d == SerializeBook(books[d["isbn"].s]))
    {
      if id !in users then Response(NotFound, Aborted)
      else
        var ks := WishlistOf(wish, id);
        BookListingSize(books, ks);
        Response(Ok, Many("books", BookListing(books, ks)))
    }

    /** Whether the wishlist-add handler will store the pair: every check it makes passes. */
    ghost predicate AddAllowed(caller: Option<string>, id: int, title: string, author: string, isbn: string, pubDate: string)
      reads this
      requires Valid()
    {
      && caller.Some? && id in users && ParseDate(pubDate).Some? && users[id].email == caller.value
      && (isbn in books ==> SameBook(books[isbn], title, author, pubDate) && (id, isbn) !in wish)
    }

    /**
     * UserBooks.post: add a book to the caller's own wishlist, creating the book if its
     * isbn is new. Checks, in order: login, user exists, date parses, caller owns the
     * wishlist, an existing book with this isbn matches the request, the pair is new.
     */
    method AddToWishlist(caller: Option<string>, id: int, title: string, author: string, isbn: string, pubDate: string)
      returns (r: Response)
      requires Valid()
      modifies this
      ensures Valid()
      ensures users == old(users) && nextId == old(nextId)
      ensures caller.None? ==> r == Response(Unauthorized, Aborted)
      ensures caller.Some? && id !in users ==> r == Response(NotFound, Aborted)
      ensures caller.Some? && id in users && ParseDate(pubDate).None? ==>
        r == Response(BadRequest, Message(BadDateFormat))
      ensures caller.Some? && id in users && ParseDate(pubDate).Some? && users[id].email != caller.value ==>
        r == Response(Unauthorized, Message(NotOwnerAdd))
      ensures caller.Some? && id in users && ParseDate(pubDate).Some? && users[id].email == caller.value
              && isbn in old(books) ==>
        && (!SameBook(old(books)[isbn], title, author, pubDate) ==> r == Response(Conflict, Message(DifferentBook)))
        && (SameBook(old(books)[isbn], title, author, pubDate) && (id, isbn) in old(wish) ==>
              r == Response(Conflict, Message(AlreadyInWishlist)))
      ensures r.status == Created <==> old(AddAllowed(caller, id, title, author, isbn, pubDate))
      ensures r.status != Created ==> books == old(books) && wish == old(wish)
      ensures r.status == Created ==>
        && (id, isbn) !in old(wish) && wish == old(wish) + {(id, isbn)}
        && (isbn in old(books) ==> books == old(books))
        && (isbn !in old(books) ==> books == old(books)[isbn := Book(isbn, title, author, ParseDate(pubDate).value)])
        && r.body == One("book", SerializeBook(books[isbn]))
    {
      if caller.None? {
        return Response(Unauthorized, Aborted);
      }
      if id !in users {
        return Response(NotFound, Aborted);
      }
      var date := ParseDate(pubDate);
      if date.None? {
        return Response(BadRequest, Message(BadDateFormat));
      }
      OwnerCheck(users, id, caller.value);
      if OwnerRows(users, id, caller.value) == {} {
        return Response(Unauthorized, Message(NotOwnerAdd));
      }
      var book: Book;
      if isbn !in books {
        book := Book(isbn, title, author, date.value);
        PutBookKeepsConsistent(users, books, wish, nextId, book);
        books := books[isbn := book];
      } else if !SameBook(books[isbn], title, author, pubDate) {
        return Response(Conflict, Message(DifferentBook));
      } else if (id, isbn) in wish {
        return Response(Conflict, Message(AlreadyInWishlist));
      } else {
        book := books[isbn];
      }
      AddPairKeepsConsistent(users, books, wish, nextId, id, isbn);
      wish := wish + {(id, isbn)};
      r := Response(Created, One("book", SerializeBook(book)));
    }

    /** UserBook.get: the book `isbn` if it is on the wishlist of user `id`. */
    function GetWishlistEntry(id: int, isbn: string): (r: Response)
      reads this
      requires Valid()
      ensures r.status == NotFound <==> id !in users || isbn !in books || (id, isbn) !in wish
      ensures id !in users || isbn !in books ==> r == Response(NotFound, Aborted)
      ensures id in users && isbn in books && (id, isbn) !in wish ==> r == Response(NotFound, Message(NotInWishlist))
      ensures (id, isbn) in wish ==> r == Response(Ok, One("book", SerializeBook(books[isbn])))
    {
      if id !in users then Response(NotFound, Aborted)
      else if isbn !in books then Response(NotFound, Aborted)
      else if (id, isbn) !in wish then Response(NotFound, Message(NotInWishlist))
      else Response(Ok, One("book", SerializeBook(books[isbn])))
    }

    /**
     * UserBook.put: create or overwrite the book `isbn` with the request's fields and
     * make sure it is on the caller's own wishlist. Checks, in order: login, user
     * exists, caller owns the wishlist, date parses.
     */
    method UpdateWishlistEntry(caller: Option<string>, id: int, isbn: string, title: string, author: string, pubDate: string)
      returns (r: Response)
      requires Valid()
      modifies this
      ensures Valid()
      ensures users == old(users) && nextId == old(nextId)
      ensures caller.None? ==> r == Response(Unauthorized, Aborted)
      ensures caller.Some? && id !in users ==> r == Response(NotFound, Aborted)
      ensures caller.Some? && id in users && users[id].email != caller.value ==>
        r == Response(Unauthorized, Message(NotOwnerUpdate))
      ensures caller.Some? && id in users && users[id].email == caller.value && ParseDate(pubDate).None? ==>
        r == Response(BadRequest, Message(BadDateFormat))
      ensures r.status == Ok <==>
        caller.Some? && id in users && users[id].email == caller.value && ParseDate(pubDate).Some?
      ensures r.status != Ok ==> books == old(books) && wish == old(wish)
      ensures r.status == Ok ==>
        && r.body == Message(WishlistUpdated)
        && books == old(books)[isbn := Book(isbn, title, author, ParseDate(pubDate).value)]
        && wish == old(wish) + {(id, isbn)}
    {
      if caller.None? {
        return Response(Unauthorized, Aborted);
      }
      if id !in users {
        return Response(NotFound, Aborted);
      }
      OwnerCheck(users, id, caller.value);
      if OwnerRows(users, id, caller.value) == {} {
        return Response(Unauthorized, Message(NotOwnerUpdate));
      }
      var date := ParseDate(pubDate);
      if date.None? {
        return Response(BadRequest, Message(BadDateFormat));
      }
      var book := Book(isbn, title, author, date.value);
      PutBookKeepsConsistent(users, books, wish, nextId, book);
      if isbn !in books {
        books := books[isbn := book];
      } else {
        books := books[isbn := books[isbn].(isbn := isbn, title := title, author := author, pubDate := date.value)];
      }
      AddPairKeepsConsistent(users, books, wish, nextId, id, isbn);
      wish := wish + {(id, isbn)};
      r := Response(Ok, Message(WishlistUpdated));
    }

    /**
     * UserBook.delete: take the book `isbn` off the caller's own wishlist. Checks, in
     * order: login, user exists, book exists, caller owns the wishlist, pair present.
     */
    method RemoveFromWishlist(caller: Option<string>, id: int, isbn: string) returns (r: Response)
      requires Valid()
      modifies this
      ensures Valid()
      ensures users == old(users) && books == old(books) && nextId == old(nextId)
      ensures caller.None? ==> r == Response(Unauthorized, Aborted)
      ensures caller.Some? && (id !in users || isbn !in books) ==> r == Response(NotFound, Aborted)
      ensures caller.Some? && id in users && isbn in books && users[id].email != caller.value ==>
        r == Response(Unauthorized, Message(NotOwnerDelete))
      ensures caller.Some? && id in users && isbn in books && users[id].email == caller.value && (id, isbn) !in old(wish) ==>
        r == Response(NotFound, Message(NotInWishlist))
      ensures r.status == Ok <==>
        caller.Some? && id in users && users[id].email == caller.value && (id, isbn) in old(wish)
      ensures r.status != Ok ==> wish == old(wish)
      ensures r.status == Ok ==> r.body == Message(WishlistDeleted) && wish == old(wish) - {(id, isbn)}
    {
      if caller.None? {
        return Response(Unauthorized, Aborted);
      }
      if id !in users || isbn !in books {
        return Response(NotFound, Aborted);
      }
      OwnerCheck(users, id, caller.value);
      if OwnerRows(users, id, caller.value) == {} {
        return Response(Unauthorized, Message(NotOwnerDelete));
      }
      if (id, isbn) !in wish {
        return Response(NotFound, Message(NotInWishlist));
      }
      wish := wish - {(id, isbn)};
      r := Response(Ok, Message(WishlistDeleted));
    }

    /** BookUsers.get: the users whose wishlist holds the book `isbn`, each exactly once. */
    function ListSubscribers(isbn: string): (r: Response)
      reads this
      requires Valid()
      ensures r.status == NotFound <==> isbn !in books
      ensures r.status == NotFound ==> r.body == Aborted
      ensures isbn in books ==>
        && r.status == Ok && r.body.Many? && r.body.key == "users"
        && |r.body.items| == |SubscribersOf(wish, isbn)|
        && (forall i :: (i, isbn) in wish ==> SerializeUser(users[i]) in r.body.items)
        && (forall d: Dict :: d in r.body.items ==>
              "user_id" in d && d["user_id"].JInt? && (d["user_id"].n, isbn) in wish && d == SerializeUser(users[d["user_id"].n]))
    {
      if isbn !in books then Response(NotFound, Aborted)
      else
        var ids := SubscribersOf(wish, isbn);
        UserListingSize(users, ids);
        Response(Ok, Many("users", UserListing(users, ids)))
    }
  }
}
