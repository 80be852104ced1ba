# Library catalogue: the borrow / return lifecycle

A model of the core of a small library-catalogue service. Books are rows
of one `books` table, keyed by a six-digit serial number. The service adds
books, removes them, lists them with filters and pagination, and moves
each book between *available* and *borrowed by a card*.

The Dafny project has one module per source component:

- `Wrappers` (`wrappers.dfy`): `Option` for Python's `None`, and `Result`
  for a validator that returns its value or raises `ValueError`.
- `Text` (`text.dfy`): the string operations the core depends on, over
  ASCII. These are the digit class of `^[0-9]{6}$` / `^\d{6}$`, Python's
  `str.strip()`, the case folding and substring test of `ILIKE '%q%'`, and
  the character order of a text column in `ORDER BY`.
- `BookModel` (`book_model.dfy`): the `Book` row and the table's three check
  constraints, in two readings. `ValidRow` is the invariant the application
  keeps: the constraints read as plain two-valued conditions, as their
  documentation describes them. `DbAcceptsRow` is what PostgreSQL enforces:
  the same conditions under SQL's three-valued logic, where a check fails
  only when its condition is false. The database accepts one kind of row
  that `ValidRow` refuses (see "Findings"). The module also has `NewRow`,
  the row an insert makes from the column defaults.
- `Schemas` (`schemas.dfy`): the request validators and the tagged status
  update `BorrowAction(card) | ReturnAction`, decoded from a string-valued
  JSON object.
- `Repository` (`repository.dfy`): the table as `map<string, Book>` inside
  class `BookRepository`, with `Valid()` requiring every row to meet `ValidRow`
  and to sit under its own serial. Its methods insert, delete
  and overwrite the borrow state, and its functions read and list. The
  listing is specified by pure functions: `Matching` (the filter),
  `Listing` (the rows in `created_at DESC, serial_number ASC` order) and
  `Slice` (`LIMIT`/`OFFSET`).
- `Service` (`service.dfy`): the pure functions `Add`, `Remove`, `Borrow`,
  `Return` and `UpdateStatus` give each command's outcome (`Ok`,
  `NotFound` or `Conflict`) and the table it leaves. Class `BookService`
  wraps a `BookRepository`. Its methods perform the commands through the
  repository, and each is proved equal to its function.
- `ServiceProperties` (`service_properties.dfy`): properties spanning
  several commands. The borrow/return transition table is written out as an
  independent reference, and the commands are proved to follow it. Other
  lemmas cover idempotent borrowing, the borrow-and-return round trip and
  the deletion policy. A client method replays the service tests' book
  lifecycle against the method contracts.

Time is abstract (`Timestamp = nat`). The source reads two clocks. The
application clock (`datetime.now(timezone.utc)`) stamps `borrowed_at`. The
database clock (`now()`) stamps `created_at` and `updated_at`. The model
passes them in as two parameters, `appNow` and `dbNow`.

## Model

| member | source | states |
|---|---|---|
| `Text.Strip` | app/schemas/books.py:36-37 | the result is no longer than the input and, unless empty, neither starts nor ends with whitespace |
| `Text.StripCutsWhitespace` | app/schemas/books.py:36-37 | the stripped value is a contiguous part `s[i..j]` of the input, and everything before `i` and from `j` on is whitespace |
| `Text.StripSurrounded` | app/schemas/books.py:36-37 | `str.strip()` removes exactly the whitespace around a core that neither starts nor ends with whitespace |
| `Text.StripIdempotent` | app/schemas/books.py:36-37 | stripping twice is stripping once |
| `Text.StripEmptyIffAllWhitespace` | app/schemas/books.py:36-39 | the stripped value is empty exactly when the input is all whitespace |
| `Text.Contains` | app/repositories/books.py:126-128 | the substring test of `LIKE '%p%'` holds exactly when `p` occurs at some position of the text |
| `Text.ILikeEmptyMatchesAll` | app/repositories/books.py:126-128 | the empty pattern `'%%'` matches every text |
| `Text.IsWhitespace` | app/schemas/books.py:37 | the characters `str.strip()` removes, restricted to ASCII: tab, newline, vertical tab, form feed, carriage return, the separators 28-31 and space |
| `Text.LowerChar` | app/repositories/books.py:126-128 | the case folding `ILIKE` applies to one character, restricted to ASCII: `A`-`Z` become `a`-`z`, every other character is kept |
| `Text.Lower` | app/repositories/books.py:126-128 | the case folding of a whole column value or query, character by character |
| `Text.ILikeContains` | app/repositories/books.py:126-128 | `column ILIKE '%q%'`: the lower-cased query occurs somewhere in the lower-cased column |
| `Text.StrLess` | app/repositories/books.py:142 | the text order of `serial_number ASC`: code point by code point, and a proper prefix sorts first |
| `Text.StrLessIrreflexive` | app/repositories/books.py:142 | no serial sorts before itself |
| `Text.StrLessTransitive` | app/repositories/books.py:142 | the order of the serial column is transitive |
| `Text.StrLessTotal` | app/repositories/books.py:142 | two different serials are always ordered one way or the other |
| `Text.IsSixDigits` | app/schemas/books.py:15 | `^\d{6}$` (and `^[0-9]{6}$` of the constraints) as ASCII: exactly six characters, each a digit |
| `BookModel.SerialSixDigits` | app/models/book.py:49-52 | the serial is six digits |
| `BookModel.CardSixDigitsOrNull` | app/models/book.py:53-56 | the card is absent or six digits |
| `BookModel.BorrowStateConsistent` | app/models/book.py:26-28 | the documented consistency rule: available with no card and no borrow time, or borrowed with a six-digit card and a borrow time |
| `BookModel.ValidRow` | app/models/book.py:23-28 | the application's row invariant: all three constraints as documented, read as two-valued conditions |
| `BookModel.BorrowFlagDeterminesFields` | app/models/book.py:26-28 | in a row meeting the application's invariant, the card and `borrowed_at` are present exactly when `is_borrowed` holds, and the card is then six digits |
| `BookModel.SerialCheck` | app/models/book.py:49-52 | the condition of `serial_number_six_digits`; the serial column is `NOT NULL`, so it is never unknown |
| `BookModel.CardCheck` | app/models/book.py:53-56 | the condition of `borrower_card_six_digits_or_null`: true on a NULL card, otherwise whether the card matches `^[0-9]{6}$` |
| `BookModel.ConsistencyCheck` | app/models/book.py:58-65 | the SQL condition of `borrow_state_consistency` under three-valued logic, with `card ~ ...` unknown on a NULL card |
| `BookModel.DbAcceptsRow` | app/models/book.py:47-65 | the database accepts a row when none of the three check conditions is false |
| `BookModel.DbAcceptsRowCharacterised` | app/models/book.py:47-65 | the database accepts exactly the rows meeting `ValidRow`, plus the borrowed rows with a borrow time and no card; every row meeting `ValidRow` is accepted |
| `BookModel.DbConstraintFields` | app/models/book.py:47-65 | what an accepted row is guaranteed: six-digit serial; an available row has no card and no borrow time; a borrowed row has a borrow time and a card that is absent or six digits |
| `BookModel.DbAcceptsBorrowedWithoutCard` | app/models/book.py:58-65 | a borrowed row with a borrow time and no card passes the constraints and fails `ValidRow` |
| `BookModel.NewRow` | app/repositories/books.py:64-76 | an inserted row has the given serial, title and author; it is not borrowed and has no card and no `borrowed_at`; `created_at = updated_at = now`; it meets `ValidRow` exactly when the serial is six digits |
| `Schemas.ValidateSixDigits` | app/schemas/books.py:42-48 | `_validate_serial` (and `_BorrowAction._validate_card` at app/schemas/books.py:109-114, which applies the same test to the card) accept exactly six-character all-digit strings and return them unchanged, so leading zeros survive |
| `Schemas.StripAndRequireNonEmpty` | app/schemas/books.py:32-40 | fails exactly on all-whitespace input; otherwise returns the stripped value, which is non-empty and has no surrounding whitespace |
| `Schemas.StripAndRequireNonEmptyIdempotent` | app/schemas/books.py:32-40 | an accepted title is accepted again unchanged |
| `Schemas.StripAndRequireNonEmptyKeepsCore` | app/schemas/books.py:32-40 | whatever whitespace surrounds a non-blank value, the validator returns that value |
| `Schemas.ValidateBookCreate` | app/schemas/books.py:18-48 | a create request is accepted exactly when the serial is six digits and neither title nor author is blank; the accepted request keeps the serial and strips the title and author |
| `Schemas.ValidateCardFormat` | app/schemas/books.py:75-83 | `BookRead` accepts exactly a missing card or a six-digit one, unchanged |
| `Schemas.DecodeStatusUpdate` | app/schemas/books.py:104-128 | a payload is a borrow exactly when `action` is `"borrow"`, a six-digit `borrower_card` is present and no other field is; it is a return exactly when the payload is `{"action": "return"}` |
| `Schemas.EncodeStatusUpdate` | app/schemas/books.py:129-134 | the documented wire form of a status update: `{"action": "borrow", "borrower_card": card}` or `{"action": "return"}` |
| `Schemas.DecodeEncodeRoundTrip` | app/schemas/books.py:126-134 | decoding the wire form of a well-formed update gives it back; a payload that decodes is the wire form of its result |
| `Schemas.SerialExamples` | tests/test_schemas_books.py:22-32 | serial "000001" is kept as given; "12345", "1234567", "12 3456", "ABC123" and "" are refused |
| `Schemas.StatusPayloadExamples` | tests/test_schemas_books.py:43-71 | a borrow with card "654321" is accepted with that card; a borrow without a card, or with card "", "65432", "6543210", "65 4321" or "ABCDEF", is refused; a bare return is accepted; a return with a card is refused |
| `Schemas.ReadCardExamples` | tests/test_schemas_books.py:76-107 | `BookRead` keeps card "654321" and refuses card "abc123" |
| `Repository.KeyedBySerial` | app/models/book.py:35 | the primary key: each row is stored under its own serial, so a serial names at most one row |
| `Repository.ValidTable` | app/models/book.py:35-65 | the application's table invariant: keyed by serial and every row meeting `ValidRow` |
| `Repository.ValidTableAcceptedByDb` | app/models/book.py:47-65 | every row of a table meeting the invariant passes the database's checks |
| `Repository.TextCondition` | app/repositories/books.py:125-128 | a title or author query adds no condition when absent or empty, else `column ILIKE '%q%'` with the query stripped |
| `Repository.Matches` | app/repositories/books.py:122-130 | a row meets a filter when it meets every condition the filter adds, combined with `AND` |
| `Repository.WhitespaceQueryMatchesAll` | app/repositories/books.py:125-128 | a whitespace-only title or author query adds a condition that every row meets |
| `Repository.Matching` | app/repositories/books.py:121-130 | the selected rows are exactly the rows meeting every supplied filter, under the same keys |
| `Repository.Precedes` | app/repositories/books.py:142 | `ORDER BY created_at DESC, serial_number ASC`: a later `created_at` comes first, and equal ones are ordered by serial |
| `Repository.PrecedesTotal` | app/repositories/books.py:142 | any two rows with different serials are ordered, so the listing order is total |
| `Repository.PrecedesTransitive` | app/repositories/books.py:142 | the listing order is transitive |
| `Repository.FirstExists` | app/repositories/books.py:142 | every non-empty table has a row listed first |
| `Repository.First` | app/repositories/books.py:142 | the key returned is in the table, and its row precedes every other row |
| `Repository.Listing` | app/repositories/books.py:139-142 | the result holds each row of the table once, and nothing else, in `created_at DESC, serial_number ASC` order |
| `Repository.ListingUnique` | app/repositories/books.py:139-142 | any strictly ordered enumeration of the rows equals `Listing`: the order alone fixes the result |
| `Repository.Slice` | app/repositories/books.py:143 | page item `i` is item `offset + i`; the page has `min(limit, n - offset)` items, or none past the end |
| `Repository.SlicesTile` | app/repositories/books.py:143 | a page followed by the page starting where it ends is the page spanning both |
| `Repository.Page` | app/repositories/books.py:121-147 | total = number of rows meeting the filter, whatever limit and offset are; the page holds `min(limit, total - offset)` stored rows meeting the filter, in listing order; item `i` is item `offset + i` of the whole ordered listing of the matching rows |
| `Repository.WithBorrowState` | app/repositories/books.py:170-178 | the update sets the flag, card and `borrowed_at` to the given values and `updated_at` to now; every other column is kept; `ValidRow` still holds when the new values satisfy the documented consistency rule |
| `Repository.BookRepository.Create` | app/repositories/books.py:64-76 | the table gains exactly the new row under its serial; all other rows are unchanged |
| `Repository.BookRepository.GetBySerial` | app/repositories/books.py:78-83 | returns the row stored under the serial, or none when there is none; reads only |
| `Repository.BookRepository.GetForUpdate` | app/repositories/books.py:85-92 | the same read as `GetBySerial` (the lock is not modelled) |
| `Repository.BookRepository.Delete` | app/repositories/books.py:94-98 | removes exactly that key; an absent key leaves the table unchanged and is no error |
| `Repository.BookRepository.UpdateBorrowState` | app/repositories/books.py:149-182 | absent key: returns none, table unchanged; otherwise the one row becomes `WithBorrowState` of itself and is returned; other rows unchanged |
| `Repository.BookRepository.List` | app/repositories/books.py:100-147 | the result is `Page` of the stored rows with the given filter, limit and offset; reads only |
| `Repository.ListPagesTile` | app/repositories/books.py:138-147 | consecutive pages of one listing concatenate to the page covering both, so paging neither skips nor repeats |
| `Repository.ListWithoutFiltersCountsAll` | app/repositories/books.py:130-136 | with no filter the total is the number of rows in the table |
| `Service.Add` | app/services/books.py:27-40 | `Conflict` exactly when the serial exists, table unchanged; otherwise `Ok` with the new available row, inserted under its serial; the table invariant keeps holding |
| `Service.Remove` | app/services/books.py:42-52 | `NotFound` exactly when absent; `Conflict` exactly when borrowed; the table is unchanged on either error; otherwise exactly that key is deleted |
| `Service.Borrow` | app/services/books.py:54-77 | `NotFound` exactly when absent; `Conflict` exactly when borrowed by another card, table unchanged. The same card gets the stored row with nothing written. An available book becomes borrowed by the card, with `borrowed_at = appNow`, `updated_at = dbNow`, other columns kept |
| `Service.Return` | app/services/books.py:79-98 | `NotFound` exactly when absent; `Conflict` exactly when available, table unchanged; otherwise the card and `borrowed_at` are cleared and `updated_at = dbNow` |
| `Service.UpdateStatus` | app/api/routers/books.py:142-145 | the dispatch of the status endpoint preserves the table invariant; see `ServiceProperties.UpdateStatusFollowsTransitions` for its meaning |
| `Service.ClampLimit` | app/services/books.py:112 | the limit passed on is in [1, 200]; it equals the input when the input is in range, else the nearer bound |
| `Service.ClampOffset` | app/services/books.py:113 | the offset passed on is the input when non-negative, else 0 |
| `Service.BookService.AddBook` | app/services/books.py:27-40 | outcome and new table are those of `Add` |
| `Service.BookService.RemoveBook` | app/services/books.py:42-52 | outcome and new table are those of `Remove` |
| `Service.BookService.BorrowBook` | app/services/books.py:54-77 | outcome and new table are those of `Borrow` |
| `Service.BookService.ReturnBook` | app/services/books.py:79-98 | outcome and new table are those of `Return` |
| `Service.BookService.UpdateBookStatus` | app/api/routers/books.py:142-145 | a borrow action runs `BorrowBook` with its card; any other action runs `ReturnBook` |
| `Service.BookService.ListBooks` | app/services/books.py:102-121 | the repository listing with the clamped limit and offset; at most 200 items; the identity on in-range arguments |
| `ServiceProperties.Transition` | app/services/books.py:54-98 | the lifecycle's transition table, written independently of the commands: available to borrowed by a card; the same card again stays; another card or a return of an available book is a conflict; a return makes the book available |
| `ServiceProperties.UpdateStatusFollowsTransitions` | app/services/books.py:54-98 | the status commands follow the transition table: `NotFound` exactly when the book is absent; `Conflict` exactly when the table has no transition; on success the stored and reported book reach the state the table names |
| `ServiceProperties.CommandsKeepValidRows` | app/services/books.py:27-98 | add, remove, borrow and return all keep the table invariant, so no command leaves a borrowed row without a card |
| `ServiceProperties.AddTwiceConflicts` | tests/test_services_books.py:10-20 | a second add of one serial is a `Conflict`; the table keeps the single row the first add made |
| `ServiceProperties.RemoveTwiceNotFound` | tests/test_services_books.py:24-35 | removing an available book succeeds; removing it again is `NotFound` |
| `ServiceProperties.BorrowIdempotent` | app/services/books.py:60-63 | after a successful borrow, a borrow by the same card returns the same row and leaves the table unchanged, so `borrowed_at` and `updated_at` do not move |
| `ServiceProperties.BorrowByOtherCardConflicts` | tests/test_services_books.py:70-72 | after a successful borrow, a different card gets `Conflict`, table unchanged |
| `ServiceProperties.BorrowReturnRoundTrip` | app/services/books.py:66-98 | borrowing an available book and returning it restores its row except `updated_at`; returning again is `Conflict` |
| `ServiceProperties.RemoveAfterReturn` | app/services/books.py:42-52 | a borrowed book cannot be removed (`Conflict`, the case tests/test_services_books.py:39-50 checks); once returned it can |
| `ServiceProperties.AddedBookIsListed` | tests/test_api_books.py:7-26 | a book just added appears in the unfiltered listing, whose total is then at least 1 |
| `ServiceProperties.AddedBookOnFirstPage` | tests/test_api_books.py:21-26 | on an empty table, after one add, the unfiltered listing with the default limit 50 and offset 0 has total 1 and holds exactly the added row |
| `ServiceProperties.LifecycleScenario` | tests/test_services_books.py:53-81 | the service tests' lifecycle of one book, checked by assertions against the method contracts alone: add, duplicate add, borrow, same-card re-borrow, other-card conflict, delete while borrowed, return, second return, delete, second delete |

## Left out

- Locking, transactions and commits (`with_for_update`, `commit`, `refresh`, `flush`): each command is one atomic step on sequential state. So `GetForUpdate` is the same read as `GetBySerial`, and the model has no concurrent interleavings.
- The guard `if updated is None: raise NotFound` after `update_borrow_state` in `borrow_book` and `return_book`: in a sequential model the row read just before cannot vanish. The model proves the branch unreachable and does not model it.
- Database constraint violations: a duplicate primary key or a value failing a check constraint makes the database raise `IntegrityError`, and neither the repository nor the service handles it. `BookRepository.Create` and `BookRepository.UpdateBorrowState` therefore require arguments that keep `ValidRow`, which the database then accepts. The service always meets this: the serial comes validated and was checked absent, and the card comes from a validated borrow action. Two concurrent creates of one serial are not modelled. The source does not turn the loser's `IntegrityError` into `Conflict`, and the model does not either.
- `Service.Remove`, `Service.Borrow`, `Service.Return` and the lookups `Repository.BookRepository.GetBySerial`, `GetForUpdate`, `Delete` and `UpdateBorrowState` compare keys as exact strings. The key column is `CHAR(6)` (app/models/book.py:35), and the path serial reaches the service unvalidated (app/api/routers/books.py:63, 124). PostgreSQL ignores trailing spaces when it compares `character(n)` values. So in the source a lookup of `"123456 "` finds the book `"123456"`, and the model answers `NotFound` (or, in `Delete`, removes nothing).
- `Service.Add` returns `Ok` for a title or author holding a NUL character, which `_strip_and_require_non_empty` lets through. PostgreSQL `text` cannot store NUL, so the source's insert fails at the `flush` (app/repositories/books.py:75) with an error nobody handles. A NUL in a title or author query, or in a path serial, makes those statements fail the same way. The model has no such error.
- `Service.BookService.ListBooks` returns an empty page for any offset past the last row. The source bounds the offset only from below (app/services/books.py:113), so an offset beyond PostgreSQL's 64-bit `OFFSET` range makes the query at app/repositories/books.py:143 fail, and the model has no such error.
- Service.BookService.AddBook: requires a six-digit serial, the guarantee a validated `BookCreate` carries. `BorrowBook` and `UpdateBookStatus` likewise require the six-digit card a validated borrow action carries.
- The default arguments `limit = 50` and `offset = 0` of `list_books` (app/services/books.py:108-109) and the router's query defaults: `Service.BookService.ListBooks` always takes both explicitly; `ServiceProperties.AddedBookOnFirstPage` passes the defaults by hand.
- `Repository.BookRepository.List` takes `limit` and `offset` as naturals. PostgreSQL rejects a negative `LIMIT` or `OFFSET`, and the only caller clamps both first.
- `ILIKE`: `%` and `_` inside a user's query are wildcards in SQL, and `\` is `LIKE`'s default escape character (no `ESCAPE` clause is given), so `a\b` matches `ab` and a trailing `\` escapes the closing `%`. The model matches all three literally, so it is faithful only for queries without `%`, `_` and `\`. Case folding is ASCII only; the database's collation may fold more.
- Python's `\d` and `str.strip()` are Unicode-aware; the model uses ASCII digits and ASCII whitespace. The ASCII whitespace is tab through carriage return, 0x1C–0x1F and space, the set `str.isspace()` accepts. The database's own constraint uses `[0-9]`, which is what the model has.
- The `title`/`author` validator also accepts non-string input (mode `before`). The model only takes strings.
- Payload shapes other than a JSON object with string values, such as a numeric `borrower_card`, are not modelled. Pydantic's exact error texts and its error aggregation are not modelled either, beyond which request is refused.
- Schemas.ValidateBookCreate: reports only the message of the first failing field, where Pydantic reports all of them.
- Timestamps are abstract instants: no calendar, time zone or clock monotonicity.
- HTTP wiring, status codes, the `Location` header, error-to-response translation, configuration, engine and session setup, and migrations (`app/main.py`, `app/api/deps.py`, `app/common/error_handlers.py`, `app/schemas/errors.py`, `app/core/config.py`, `app/db/session.py`, `app/db/base.py`, `alembic/env.py`) are not part of this model. Only the router's borrow/return dispatch is.
- `_base_query` (`app/repositories/books.py:30-60`) is not called by any core operation. Its filter and order are the same as `list`'s and are modelled once, by `Matching` and `Listing`.
- The secondary index on `is_borrowed` affects performance only.
- The domain error `ValidationError` is raised by no core path and has no `Outcome` case.

## Findings

| source | as written | input that shows it | evidently intended | confidence | as-written member | corrected member |
|---|---|---|---|---|---|---|
| app/models/book.py:58-65 | `borrow_state_consistency` tests `borrower_card ~ '^[0-9]{6}$'` on the borrowed side; on a NULL card the match is NULL, and a check constraint passes when its condition is NULL | a row with `is_borrowed = true`, `borrower_card` NULL, `borrowed_at` set: the condition is `false OR NULL`, so the row is accepted | the documented rule (app/models/book.py:26-28), modelled as `BookModel.ValidRow`: a borrowed row carries a valid card | not executed | `BookModel.DbAcceptsBorrowedWithoutCard` | `ServiceProperties.CommandsKeepValidRows` |

The service never writes such a row, so the gap matters only for rows written by other clients of the database. On such a row `borrow_book` would answer `Conflict` to every card and `return_book` would succeed. The model's invariant is the intended `ValidRow`. `BookModel.DbAcceptsRowCharacterised` shows that this kind of row is the only difference between the two readings.
