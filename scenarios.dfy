/**
 * The flows of test.py, written as clients of `Store`: each one is checked from the
 * handlers' contracts alone.
 */
module Scenarios {
  import opened Wrappers
  import opened Dates
  import opened Models
  import opened Views

  const SampleDate := "2018-10-16"

  /** The sample publication date of test.py parses, and its string form is itself. */
  lemma SampleDateParses()
    ensures ParseDate(SampleDate) == Some(Date(2018, 10, 16))
    ensures ValidDate(Date(2018, 10, 16)) && FormatDate(Date(2018, 10, 16)) == SampleDate
  {
    assert SampleDate[..4] == "2018" && SampleDate[5..7] == "10" && SampleDate[8..] == "16";
    SampleNumbers();
    FormatParse(SampleDate);
  }

  lemma SampleNumbers()
    ensures Number("2018") == 2018 && Number("10") == 10 && Number("16") == 16
  {
    assert "20"[..1] == "2" && Number("2") == 2;
    assert "201"[..2] == "20" && Number("20") == 20;
    assert "2018"[..3] == "201" && Number("201") == 201;
    assert "10"[..1] == "1" && "16"[..1] == "1";
  }

  /** test_user: the user created first gets id 1, and GET returns its public fields. */
  method CreateThenGetUser(first: string, last: string, email: string, hash: string) {
    var s := new Store();
    var r := s.CreateUser(first, last, email, hash);
    assert r.status == Created;
    var g := s.GetUser(1);
    assert g == Response(Ok, One("user", SerializeUser(User(1, first, last, email, hash))));
  }

  /** A second registration with the same email is refused, whatever the other fields. */
  method DuplicateEmail(email: string, p: string, q: string) {
    var s := new Store();
    var r1 := s.CreateUser("a", "x", email, p);
    assert r1.status == Created;
    var r2 := s.CreateUser("b", "y", email, q);
    assert r2.status == Conflict && |s.users| == 1;
  }

  /**
   * test_book_users: two users (ids 1 and 2) add the same book, which exists already;
   * each of them is listed as its subscriber.
   */
  method TwoSubscribers(e1: string, e2: string, h1: string, h2: string, isbn: string, title: string, author: string, pubDate: string)
    requires e1 != e2
    requires ParseDate(pubDate).Some?
  {
    var s := TwoUsersOneBook(e1, e2, h1, h2, isbn, title, author, pubDate);
    FormatParse(pubDate);
    var a1 := s.AddToWishlist(Some(e1), 1, title, author, isbn, pubDate);
    assert a1.status == Created && s.wish == {(1, isbn)};
    var a2 := s.AddToWishlist(Some(e2), 2, title, author, isbn, pubDate);
    assert a2.status == Created && s.wish == {(1, isbn), (2, isbn)};
    var l := s.ListSubscribers(isbn);
    assert l.status == Ok;
    assert SerializeUser(s.users[1]) in l.body.items && SerializeUser(s.users[2]) in l.body.items;
  }

  /** The setup of test_book_users: users 1 and 2 and one book, no memberships. */
  method TwoUsersOneBook(e1: string, e2: string, h1: string, h2: string, isbn: string, title: string, author: string, pubDate: string)
    returns (s: Store)
    requires e1 != e2
    requires ParseDate(pubDate).Some?
    ensures fresh(s) && s.Valid()
    ensures s.users.Keys == {1, 2} && s.users[1].email == e1 && s.users[2].email == e2
    ensures s.books == map[isbn := Book(isbn, title, author, ParseDate(pubDate).value)] && s.wish == {}
  {
    s := new Store();
    var u1 := s.CreateUser("foo", "bar", e1, h1);
    var first := User(1, "foo", "bar", e1, h1);
    assert s.users == map[1 := first] && s.nextId == 2;
    assert !s.EmailTaken(e2);
    var u2 := s.CreateUser("bar", "foo", e2, h2);
    assert s.users == map[1 := first, 2 := User(2, "bar", "foo", e2, h2)];
    var b := s.CreateBook(title, author, isbn, pubDate);
  }

  /**
   * test_unauthorized_access: only user_two is registered, so user_one's credentials
   * fail the login check and the add is refused with 401 before the handler runs.
   */
  method LoginFails(email: string, h: string, isbn: string, title: string, author: string, pubDate: string) {
    var s := new Store();
    var u := s.CreateUser("bar", "foo", email, h);
    assert u.status == Created;
    var a := s.AddToWishlist(None, 1, title, author, isbn, pubDate);
    assert a == Response(Unauthorized, Aborted) && s.wish == {} && s.books == map[];
  }

  /** The owner check: a logged-in user may not add to another user's wishlist. */
  method NotOwner(e1: string, e2: string, h1: string, h2: string, isbn: string, title: string, author: string, pubDate: string)
    requires e1 != e2
    requires ParseDate(pubDate).Some?
  {
    var s := new Store();
    var u1 := s.CreateUser("foo", "bar", e1, h1);
    var u2 := s.CreateUser("bar", "foo", e2, h2);
    var a := s.AddToWishlist(Some(e1), 2, title, author, isbn, pubDate);
    assert a == Response(Unauthorized, Message(NotOwnerAdd)) && s.wish == {} && s.books == map[];
  }

  /** test_user_book: add, read, update, delete, and a second delete that finds nothing. */
  method EntryLifecycle(email: string, h: string, isbn: string, title: string, author: string, pubDate: string, newDate: string)
    requires ParseDate(pubDate).Some? && ParseDate(newDate).Some?
  {
    FormatParse(pubDate);
    var s := new Store();
    var u := s.CreateUser("bar", "foo", email, h);
    var me := Some(email);
    var a := s.AddToWishlist(me, 1, title, author, isbn, pubDate);
    var book := Book(isbn, title, author, ParseDate(pubDate).value);
    assert a.status == Created && s.books == map[isbn := book] && s.wish == {(1, isbn)};
    var again := s.AddToWishlist(me, 1, title, author, isbn, pubDate);
    assert again == Response(Conflict, Message(AlreadyInWishlist));
    var g := s.GetWishlistEntry(1, isbn);
    assert g == Response(Ok, One("book", SerializeBook(book)));
    var p := s.UpdateWishlistEntry(me, 1, isbn, "updated", "updated", newDate);
    assert p.status == Ok && s.wish == {(1, isbn)};
    var d := s.RemoveFromWishlist(me, 1, isbn);
    assert d.status == Ok && s.wish == {};
    var d2 := s.RemoveFromWishlist(me, 1, isbn);
    assert d2 == Response(NotFound, Message(NotInWishlist));
  }

  /** Update on a book the user does not yet hold creates the book and the membership. */
  method UpdateCreates(email: string, h: string, isbn: string, title: string, author: string, pubDate: string)
    requires ParseDate(pubDate).Some?
  {
    var s := new Store();
    var u := s.CreateUser("a", "x", email, h);
    var p := s.UpdateWishlistEntry(Some(email), 1, isbn, title, author, pubDate);
    assert p.status == Ok;
    assert s.books == map[isbn := Book(isbn, title, author, ParseDate(pubDate).value)] && s.wish == {(1, isbn)};
  }
}
