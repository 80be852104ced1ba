/** The book lifecycle: adding, removing, borrowing and returning books,
    and the clamped listing. Each command reads the row, branches on it and
    either fails with a domain error or makes one change to the table.

    The functions `Add`, `Remove`, `Borrow`, `Return` and `UpdateStatus`
    state each command on the table as a value; the methods of
    `BookService` carry the commands out through the repository and are
    proved to do exactly what those functions say. */
module Service {
  import opened Wrappers
  import opened Text
  import opened BookModel
  import opened Schemas
  import opened Repository

  /** The outcome of a command: its value, or the domain error it raises. */
  datatype Outcome<+T> = Ok(value: T) | NotFound | Conflict

  /** The outcome of a command together with the table it leaves. */
  datatype Step<+T> = Step(result: Outcome<T>, table: Table)

  /** `add_book`: a serial already present is a conflict; otherwise the book
      is inserted available. */
  function Add(t: Table, data: BookCreate, now: Timestamp): (s: Step<Book>)
    requires ValidTable(t) && IsSixDigits(data.serialNumber)
    ensures ValidTable(s.table)
    ensures s.result.Conflict? <==> data.serialNumber in t
    ensures s.result.Conflict? ==> s.table == t
    ensures s.result.Ok? ==>
      && s.result.value == NewRow(data.serialNumber, data.title, data.author, now)
      && s.table == t[data.serialNumber := s.result.value]
    ensures !s.result.NotFound?
  {
    if data.serialNumber in t then
      Step(Conflict, t)
    else
      var b := NewRow(data.serialNumber, data.title, data.author, now);
      Step(Ok(b), t[data.serialNumber := b])
  }

  /** `remove_book`: an absent book is not found, a borrowed one may not be
      deleted; an available one is deleted. */
  function Remove(t: Table, serial: string): (s: Step<()>)
    requires ValidTable(t)
    ensures ValidTable(s.table)
    ensures s.result.NotFound? <==> serial !in t
    ensures s.result.Conflict? <==> serial in t && t[serial].isBorrowed
    ensures s.result.Ok? ==> s.table == t - {serial}
    ensures !s.result.Ok? ==> s.table == t
  {
    if serial !in t then
      Step(NotFound, t)
    else if t[serial].isBorrowed then
      Step(Conflict, t)
    else
      Step(Ok(()), t - {serial})
  }

  /** `borrow_book`: an available book becomes borrowed by `card`, with the
      borrow time from the application clock and `updated_at` from the
      database clock; a book already borrowed by the same card is returned
      as stored, with nothing written; one borrowed by another card is a
      conflict. */
  function Borrow(t: Table, serial: string, card: string, appNow: Timestamp, dbNow: Timestamp): (s: Step<Book>)
    requires ValidTable(t) && IsSixDigits(card)
    ensures ValidTable(s.table)
    ensures s.result.NotFound? <==> serial !in t
    ensures s.result.Conflict? <==> serial in t && t[serial].isBorrowed && t[serial].borrowerCard != Some(card)
    ensures !s.result.Ok? ==> s.table == t
    ensures s.result.Ok? ==>
      && s.table == t[serial := s.result.value]
      && s.result.value.isBorrowed && s.result.value.borrowerCard == Some(card)
    ensures s.result.Ok? && t[serial].isBorrowed ==> s.table == t
    ensures s.result.Ok? && !t[serial].isBorrowed ==>
      s.result.value == WithBorrowState(t[serial], true, Some(card), Some(appNow), dbNow)
  {
    if serial !in t then
      Step(NotFound, t)
    else
      var b := t[serial];
      if b.isBorrowed then
        if b.borrowerCard == Some(card) then Step(Ok(b), t) else Step(Conflict, t)
      else
        var updated := WithBorrowState(b, true, Some(card), Some(appNow), dbNow);
        Step(Ok(updated), t[serial := updated])
  }

  /** `return_book`: a borrowed book becomes available, its card and borrow
      time cleared and `updated_at` bumped; returning an available book is a
      conflict. */
  function Return(t: Table, serial: string, dbNow: Timestamp): (s: Step<Book>)
    requires ValidTable(t)
    ensures ValidTable(s.table)
    ensures s.result.NotFound? <==> serial !in t
    ensures s.result.Conflict? <==> serial in t && !t[serial].isBorrowed
    ensures !s.result.Ok? ==> s.table == t
    ensures s.result.Ok? ==>
      && s.table == t[serial := s.result.value]
      && s.result.value == WithBorrowState(t[serial], false, None, None, dbNow)
      && !s.result.value.isBorrowed && s.result.value.borrowerCard.None? && s.result.value.borrowedAt.None?
  {
    if serial !in t then
      Step(NotFound, t)
    else
      var b := t[serial];
      if !b.isBorrowed then
        Step(Conflict, t)
      else
        var updated := WithBorrowState(b, false, None, None, dbNow);
        Step(Ok(updated), t[serial := updated])
  }

  /** The status endpoint's dispatch: a borrow action borrows with its card,
      anything else returns. */
  function UpdateStatus(t: Table, serial: string, action: StatusUpdate, appNow: Timestamp, dbNow: Timestamp): (s: Step<Book>)
    requires ValidTable(t) && (action.BorrowAction? ==> IsSixDigits(action.borrowerCard))
    ensures ValidTable(s.table)
  {
    if action.BorrowAction? then Borrow(t, serial, action.borrowerCard, appNow, dbNow) else Return(t, serial, dbNow)
  }

  /** `max(1, min(limit, 200))`. */
  function ClampLimit(limit: int): (r: nat)
    ensures 1 <= r <= 200
    ensures 1 <= limit <= 200 ==> r == limit
    ensures limit < 1 ==> r == 1
    ensures limit > 200 ==> r == 200
  {
    var capped := if limit <= 200 then limit else 200;
    if 1 >= capped then 1 else capped
  }

  /** `max(0, offset)`. */
  function ClampOffset(offset: int): (r: nat)
    ensures offset >= 0 ==> r == offset
    ensures offset < 0 ==> r == 0
  {
    if 0 >= offset then 0 else offset
  }

  /** The service over one session's repository. It keeps no state of its own. */
  class BookService {
    const repo: BookRepository

    constructor (repo: BookRepository)
      ensures this.repo == repo
    {
      this.repo := repo;
    }

    ghost predicate Valid()
      reads this, repo
    {
      repo.Valid()
    }

    /** The existence check uses the plain read; the serial was validated by
        the create schema. */
    method AddBook(data: BookCreate, now: Timestamp) returns (r: Outcome<Book>)
      requires Valid() && IsSixDigits(data.serialNumber)
      modifies repo
      ensures Valid()
      ensures Step(r, repo.rows) == Add(old(repo.rows), data, now)
    {
      var existing := repo.GetBySerial(data.serialNumber);
      if existing.Some? {
        return Conflict;
      }
      var obj := repo.Create(data.serialNumber, data.title, data.author, now);
      r := Ok(obj);
    }

    method RemoveBook(serial: string) returns (r: Outcome<()>)
      requires Valid()
      modifies repo
      ensures Valid()
      ensures Step(r, repo.rows) == Remove(old(repo.rows), serial)
    {
      var obj := repo.GetForUpdate(serial);
      if obj.None? {
        return NotFound;
      }
      if obj.value.isBorrowed {
        return Conflict;
      }
      repo.Delete(serial);
      r := Ok(());
    }

    /** The idempotency check compares cards before anything is written. */
    method BorrowBook(serial: string, card: string, appNow: Timestamp, dbNow: Timestamp) returns (r: Outcome<Book>)
      requires Valid() && IsSixDigits(card)
      modifies repo
      ensures Valid()
      ensures Step(r, repo.rows) == Borrow(old(repo.rows), serial, card, appNow, dbNow)
    {
      var obj := repo.GetForUpdate(serial);
      if obj.None? {
        return NotFound;
      }
      if obj.value.isBorrowed {
        if obj.value.borrowerCard == Some(card) {
          return Ok(obj.value);
        }
        return Conflict;
      }
      var updated := repo.UpdateBorrowState(serial, true, Some(card), Some(appNow), dbNow);
      match updated
      case Some(b) => r := Ok(b);
    }

    method ReturnBook(serial: string, dbNow: Timestamp) returns (r: Outcome<Book>)
      requires Valid()
      modifies repo
      ensures Valid()
      ensures Step(r, repo.rows) == Return(old(repo.rows), serial, dbNow)
    {
      var obj := repo.GetForUpdate(serial);
      if obj.None? {
        return NotFound;
      }
      if !obj.value.isBorrowed {
        return Conflict;
      }
      var updated := repo.UpdateBorrowState(serial, false, None, None, dbNow);
      match updated
      case Some(b) => r := Ok(b);
    }

    /** The status endpoint: a validated action decides which command runs. */
    method UpdateBookStatus(serial: string, action: StatusUpdate, appNow: Timestamp, dbNow: Timestamp)
      returns (r: Outcome<Book>)
      requires Valid() && (action.BorrowAction? ==> IsSixDigits(action.borrowerCard))
      modifies repo
      ensures Valid()
      ensures Step(r, repo.rows) == UpdateStatus(old(repo.rows), serial, action, appNow, dbNow)
    {
      if action.BorrowAction? {
        r := BorrowBook(serial, action.borrowerCard, appNow, dbNow);
      } else {
        r := ReturnBook(serial, dbNow);
      }
    }

    /** `list_books`: the repository listing with the page size clamped to
        [1, 200] and the offset to at least 0. */
    function ListBooks(f: Filter, limit: int, offset: int): (p: ListPage)
      reads this, repo
      requires Valid()
      ensures p == repo.List(f, ClampLimit(limit), ClampOffset(offset))
      ensures |p.items| <= 200 && |p.items| <= p.total
      ensures 1 <= limit <= 200 && offset >= 0 ==> p == repo.List(f, limit, offset)
    {
      repo.List(f, ClampLimit(limit), ClampOffset(offset))
    }
  }
}
