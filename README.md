# books_wishlist: a verified model of the wishlist store

The books_wishlist service keeps users, books and a many-to-many "wishlist" relation
between them in three relational tables, and exposes them over HTTP: users and books
can be listed, fetched and created, and an authenticated user may add, overwrite or
remove books on their own wishlist. This project models those tables and every
request handler of `api/views.py` in Dafny, and proves that:

- each handler checks its errors in the order the source does and returns the source's status codes (200, 201, 400, 401, 404, 409) and messages;
- a handler that fails changes nothing;
- a handler that succeeds changes exactly what the source changes;
- the schema's keys stay intact: consecutive user ids, unique emails, one record per isbn, and membership pairs that name an existing user and book.

## Layout

| file | module | models |
|---|---|---|
| `wrappers.dfy` | `Wrappers` | `Option`, for a parse that fails and a caller that did not log in |
| `dates.dfy` | `Dates` | dates, `strptime(s, '%Y-%m-%d')` (`ParseDate`), and `str(date)` / `strftime('%Y-%m-%d')` (`FormatDate`) |
| `models.dfy` | `Models` | `api/models.py`: the `users`/`books` rows, `serialize`, the key constraints (`Consistent`), and the `user_books` relation seen from either side |
| `views.dfy` | `Views` | `api/views.py`: class `Store` with the three tables as fields (`users: map<int, User>`, `books: map<string, Book>`, `wish: set<(int, string)>`) and `nextId`. The mutating handlers are methods; the GET handlers are functions of the fields |
| `scenarios.dfy` | `Scenarios` | the flows of `test.py`, written as client code and checked from the handlers' contracts alone |

Modelling choices:

- **Authentication.** `caller: Option<string>` is the email of the user that HTTP Basic authentication accepted. `None` stands for missing or wrong credentials, which `login_required` turns into a 401 before the handler body runs.
- **Framework responses.** A response the framework writes itself has the body `Aborted`. That covers that 401 and every `get_or_404` miss. All other error bodies carry the source's message text.
- **Password hash.** The hash is an input to `CreateUser`.
- **User ids.** They follow SQLite's rowid rule (largest id + 1). Users are never deleted, so the ids in use are exactly 1 to `nextId - 1`. `test.py` relies on this when it posts to `/api/users/1/books` and `/api/users/2/books`.
- **Listings.** A listing is a set of serialised records, because the source promises no order. Each listing function proves that its size equals the number of rows or pairs it lists, so no record appears twice.
- **Membership is a set.** This is true even where the source appends to `user.books`. When PUT re-appends a book already in the list, SQLAlchemy records no new row, because collection history compares by identity. So the (user_id, isbn) primary key is never violated. `test.py:186-189` expects 200 for exactly this case.

The order of the checks follows the code:

- **PUT and a missing user.** `api/views.py:220` resolves the user with `get_or_404`, so PUT on an unknown user id answers 404.
- **PUT error order.** PUT resolves the user (`api/views.py:220`), then checks ownership (`api/views.py:222`), then parses the date (`api/views.py:225-228`).
- **POST add error order.** Wishlist add (POST) resolves the user (`api/views.py:158`), then parses the date (`api/views.py:160-163`), then checks ownership (`api/views.py:166`).
- **The owner check.** All three protected wishlist handlers ask `UserModel.query.filter_by(id=id, email=g.user.email).first()` (`api/views.py:166, 222, 253`). The model states that query as `Models.OwnerRows` and proves it non-empty exactly when user `id` exists and has the caller's email.

## Model

| member | source | states |
|---|---|---|
| `Dates.ParseDate` | api/views.py:101-104 | a string is accepted only if it has the `YYYY-MM-DD` shape and names a real date (year 1-9999, month 1-12, day within the month with Gregorian leap years); anything else is the error that becomes a 400 |
| `Dates.FormatDate` | api/models.py:83 | a valid date renders as ten characters: four year digits, a dash, two month digits, a dash, two day digits |
| `Dates.ParseFormat` | api/models.py:78-84 | parsing the rendered form of any valid date gives that date back |
| `Dates.FormatParse` | api/views.py:175 | every accepted date string is exactly the rendered form of the date it denotes |
| `Dates.FormatInjective` | api/views.py:175 | two valid dates render to the same string if and only if they are equal |
| `Models.SerializeUser` | api/models.py:45-51 | the user dictionary has exactly the keys user_id, first_name, last_name and email, holding the row's values, and no password_hash |
| `Models.SerializeUserHidesPassword` | api/models.py:45-51 | users that differ only in their password hash serialise to the same dictionary |
| `Models.SerializeBook` | api/models.py:78-84 | the book dictionary has exactly isbn, title, author and pub_date, and its pub_date string parses back to the stored date |
| `Models.SerializeBookInjective` | api/models.py:78-84 | two book rows serialise identically if and only if they are the same row |
| `Models.AddPairKeepsConsistent` | api/models.py:7-11 | adding a membership pair whose user and book exist keeps every key and reference constraint of the three tables |
| `Models.PutBookKeepsConsistent` | api/models.py:69-72 | storing a book with a real date under its own isbn, new or overwritten, keeps every key and reference constraint |
| `Models.OwnerCheck` | api/views.py:166 | the `filter_by(id=id, email=...)` query of the owner check finds a row if and only if user `id` exists and its email is the given one, because `id` is the primary key |
| `Models.OwnerIsCaller` | api/views.py:222 | with the unique email index, the owner check run with a stored user's own email passes on the wishlist of `id` if and only if `id` is that user: a user can change only their own wishlist |
| `Models.WishlistOf` | api/models.py:32 | `user.books`: an isbn is on user id's wishlist if and only if the pair (id, isbn) is in user_books |
| `Models.SubscribersOf` | api/models.py:32 | the `users` backref: a user id is among the book's subscribers if and only if the pair (id, isbn) is in user_books |
| `Models.UserListing` | api/views.py:44 | every selected existing user is listed, and every listed dictionary is the serialisation of the selected user named by its user_id |
| `Models.BookListing` | api/views.py:94 | every selected existing book is listed, and every listed dictionary is the serialisation of the selected book named by its isbn |
| `Models.UserListingSize` | api/models.py:25 | because id is the primary key, a listing of n existing users has exactly n entries |
| `Models.BookListingSize` | api/models.py:69 | because isbn is the primary key, a listing of n existing books has exactly n entries |
| `Views.SameBookIffSameRecord` | api/views.py:175 | for a date the parser accepts, the add handler's field-and-date-string comparison succeeds if and only if the stored book equals the book the request describes |
| `Views.Store.constructor` | api/__init__.py:23-25 | a new database has no users, books or memberships, and satisfies every key constraint |
| `Views.Store.CreateUser` | api/views.py:47-58 | a taken email gives 409 and changes nothing; otherwise exactly one user is added under the fresh id `nextId`, 201 returns its serialisation, and emails stay unique |
| `Views.Store.ListUsers` | api/views.py:43-44 | 200 with every user serialised: each user's dictionary is listed, every listed dictionary is the serialisation of the user its user_id names, and there are as many entries as users |
| `Views.Store.GetUser` | api/views.py:68-70 | 404 exactly when the id is unknown, else 200 with that user's serialisation |
| `Views.Store.CreateBook` | api/views.py:97-113 | a bad date gives 400 before the isbn is looked at; an existing isbn gives 409; both leave the store unchanged; otherwise exactly one book is added from the request and 201 returns it |
| `Views.Store.ListBooks` | api/views.py:93-94 | 200 with every book serialised: each book's dictionary is listed, every listed dictionary is the serialisation of the book its isbn names, and there are as many entries as books |
| `Views.Store.GetBook` | api/views.py:123-125 | 404 exactly when the isbn is unknown, else 200 with that book's serialisation |
| `Views.Store.ListWishlist` | api/views.py:148-150 | 404 exactly when the user is unknown; otherwise 200 with exactly the books b with (id, b) in user_books, each once |
| `Views.Store.AddToWishlist` | api/views.py:155-186 | errors in the order 401 not logged in, 404 user, 400 date, 401 not owner, 409 different book under this isbn, 409 already on the wishlist, and each leaves the store unchanged; 201 exactly when all checks pass, after which the pair is present and was not before, no other pair changed, and the book is either unchanged or newly created from the request |
| `Views.Store.GetWishlistEntry` | api/views.py:207-212 | 404 exactly when the user, the book or the pair is missing (framework 404 for the first two, the not-in-wishlist message for the third), else 200 with the book |
| `Views.Store.UpdateWishlistEntry` | api/views.py:217-244 | errors in the order 401 not logged in, 404 user, 401 not owner, 400 date, each leaving the store unchanged; otherwise 200, the book under isbn holds the request's title, author and date whether or not it existed, the pair is present whether or not it was, and nothing else changed |
| `Views.Store.RemoveFromWishlist` | api/views.py:249-262 | errors in the order 401 not logged in, 404 user, 404 book, 401 not owner, 404 pair absent, each leaving the store unchanged; otherwise 200 and exactly the pair (id, isbn) is removed, with every other pair and every book kept |
| `Views.Store.ListSubscribers` | api/views.py:272-275 | 404 exactly when the book is unknown; otherwise 200 with exactly the users u with (u, isbn) in user_books, each once |
| `Scenarios.SampleDateParses` | test.py:38 | the publication date used throughout test.py parses to 16 October 2018 and renders back to the same string |

Every mutating method also keeps `Valid()`. That is the conjunction of the key constraints in `Models.Consistent`:

- user ids are 1 to `nextId - 1`, each row stored under its own id;
- emails are unique;
- each book is stored under its isbn and has a real date;
- every membership pair names an existing user and book.

The methods of `Scenarios` replay `test.py`:

- `CreateThenGetUser` is `test_user`, `TwoSubscribers` is `test_book_users` and `EntryLifecycle` is `test_user_book`;
- `LoginFails` is `test_unauthorized_access` (`test.py:229-245`): only user_two is registered, so user_one's credentials fail `verify_password` and the add ends in 401 before the handler body runs (`caller` is `None`);
- three further flows: `NotOwner` reaches the owner check (a logged-in user adding to another user's wishlist gets 401 with the handler's message), `DuplicateEmail` shows a second registration with the same email getting 409, and `UpdateCreates` shows PUT on a new isbn creating both the book and the membership.

## Left out

- Password hashing and checking (werkzeug's `generate_password_hash`/`check_password_hash`, `api/models.py:35-39`) are calls into a library; the hash is an input to `CreateUser`.
- The credential lookup of `verify_password` (`api/views.py:8-14`): the model takes the authenticated email as `caller`. It does not require that email to belong to a stored user, which the lookup guarantees; no handler's outcome depends on it.
- The `reqparse` checks that a field is present (the 400 "... not provided" responses, `api/views.py:30-40, 80-90, 135-145, 196-204`). Every handler receives its fields.
- Route registration and the `<int:id>`/`<int:isbn>` converters (`api/views.py:277-284`). The model takes the isbn of a path as the string it denotes. It does not capture that `<int:isbn>` makes non-numeric isbns unreachable on two routes, or that it drops leading zeros.
- The `index` route, `__repr__`, and the debug `print`s.
- The SQLAlchemy session, `add_to_db`, `commit`, SQLite configuration and transactions. Every handler runs as one atomic step, which is how the source's single commit per request behaves without concurrent requests. Column length limits (`String(64)` and the like) are also left out: SQLite does not enforce them.
- `Dates.ParseDate`: `strptime` also accepts one-digit months and days ("2018-1-5"), a space-padded day, and non-ASCII decimal digits. The model answers 400 to those. With them, the source's add handler compares `str(date)` with the raw string, so re-adding an existing book with a non-canonical date gets 409.
- `Dates.FormatDate`: always renders four year digits. `strftime('%Y')` renders years below 1000 without padding on some platforms.
- The order of listed records, which the source leaves to the database.
- The bodies the framework generates for an aborted request (`Aborted` in the model).
