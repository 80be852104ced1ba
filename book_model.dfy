/** The `books` table's row type and its check constraints, both as the
    application reads them (`ValidRow`) and as the database evaluates them
    (`DbAcceptsRow`). */
module BookModel {
  import opened Wrappers
  import opened Text

  /** A point in time. The database's `now()` and Python's
      `datetime.now(timezone.utc)` are both reduced to an abstract instant. */
  type Timestamp = nat

  datatype Book = Book(
    serialNumber: string,
    title: string,
    author: string,
    isBorrowed: bool,
    borrowerCard: Option<string>,
    borrowedAt: Option<Timestamp>,
    createdAt: Timestamp,
    updatedAt: Timestamp)

  // --- the constraints as intended ------------------------------------------

  /** `serial_number_six_digits`: the serial is six ASCII digits. */
  predicate SerialSixDigits(b: Book) {
    IsSixDigits(b.serialNumber)
  }

  /** `borrower_card_six_digits_or_null`: no card, or a six-digit one. */
  predicate CardSixDigitsOrNull(b: Book) {
    b.borrowerCard.None? || IsSixDigits(b.borrowerCard.value)
  }

  /** `borrow_state_consistency` as its documentation reads: an available
      row carries no card and no borrow time, a borrowed row carries both,
      the card valid. */
  predicate BorrowStateConsistent(b: Book) {
    ConsistentBorrowFields(b.isBorrowed, b.borrowerCard, b.borrowedAt)
  }

  predicate ConsistentBorrowFields(isBorrowed: bool, card: Option<string>, borrowedAt: Option<Timestamp>) {
    || (!isBorrowed && card.None? && borrowedAt.None?)
    || (isBorrowed && card.Some? && IsSixDigits(card.value) && borrowedAt.Some?)
  }

  /** The row invariant the application keeps: the three constraints read as
      two-valued conditions. It is stronger than what the database checks
      (`DbAcceptsRow`), which lets one more kind of row through. */
  predicate ValidRow(b: Book) {
    SerialSixDigits(b) && CardSixDigitsOrNull(b) && BorrowStateConsistent(b)
  }

  /** In a valid row the flag, the card and the borrow time agree: the card
      and the time are present exactly when the flag is set. */
  lemma BorrowFlagDeterminesFields(b: Book)
    requires ValidRow(b)
    ensures b.isBorrowed <==> b.borrowerCard.Some?
    ensures b.isBorrowed <==> b.borrowedAt.Some?
    ensures b.isBorrowed ==> IsSixDigits(b.borrowerCard.value)
  {
  }

  // --- the constraints as the database evaluates them -----------------------

  /** SQL's three truth values: a comparison involving NULL is unknown. */
  datatype SqlBool = SqlTrue | SqlFalse | SqlUnknown

  function SqlOf(p: bool): SqlBool {
    if p then SqlTrue else SqlFalse
  }

  function SqlAnd(a: SqlBool, c: SqlBool): SqlBool {
    if a == SqlFalse || c == SqlFalse then SqlFalse
    else if a == SqlTrue && c == SqlTrue then SqlTrue
    else SqlUnknown
  }

  function SqlOr(a: SqlBool, c: SqlBool): SqlBool {
    if a == SqlTrue || c == SqlTrue then SqlTrue
    else if a == SqlFalse && c == SqlFalse then SqlFalse
    else SqlUnknown
  }

  /** `x IS NULL`, which is never unknown. */
  function IsNull<T>(x: Option<T>): SqlBool {
    SqlOf(x.None?)
  }

  /** `card ~ '^[0-9]{6}$'`, unknown when the card is NULL. */
  function CardMatchesSixDigits(card: Option<string>): SqlBool {
    match card
    case None => SqlUnknown
    case Some(c) => SqlOf(IsSixDigits(c))
  }

  /** A check constraint rejects a row only when its condition is false;
      true and unknown both pass. */
  predicate CheckPasses(x: SqlBool) {
    x != SqlFalse
  }

  /** The condition of `serial_number_six_digits`; the key is never NULL. */
  function SerialCheck(b: Book): SqlBool {
    SqlOf(IsSixDigits(b.serialNumber))
  }

  /** The condition of `borrower_card_six_digits_or_null`. */
  function CardCheck(b: Book): SqlBool {
    SqlOr(IsNull(b.borrowerCard), CardMatchesSixDigits(b.borrowerCard))
  }

  /** The condition of `borrow_state_consistency`, as written in SQL;
      `is_borrowed` is `NOT NULL`. */
  function ConsistencyCheck(b: Book): SqlBool {
    SqlOr(
      SqlAnd(SqlAnd(SqlOf(!b.isBorrowed), IsNull(b.borrowerCard)), IsNull(b.borrowedAt)),
      SqlAnd(SqlAnd(SqlOf(b.isBorrowed), CardMatchesSixDigits(b.borrowerCard)), SqlOf(b.borrowedAt.Some?)))
  }

  /** Whether the database accepts the row: no check condition is false. */
  predicate DbAcceptsRow(b: Book) {
    CheckPasses(SerialCheck(b)) && CheckPasses(CardCheck(b)) && CheckPasses(ConsistencyCheck(b))
  }

  /** What the database accepts is exactly the valid rows plus one more
      kind: a borrowed row with a borrow time and no card, where the card
      match is unknown and so does not make the consistency check false. */
  lemma DbAcceptsRowCharacterised(b: Book)
    ensures DbAcceptsRow(b) <==>
      || ValidRow(b)
      || (SerialSixDigits(b) && b.isBorrowed && b.borrowerCard.None? && b.borrowedAt.Some?)
    ensures ValidRow(b) ==> DbAcceptsRow(b)
  {
  }

  /** What the database guarantees of a row it holds: an available row has
      no card and no borrow time; a borrowed row has a borrow time and at
      most a six-digit card, but possibly none. */
  lemma DbConstraintFields(b: Book)
    requires DbAcceptsRow(b)
    ensures IsSixDigits(b.serialNumber)
    ensures !b.isBorrowed ==> b.borrowerCard.None? && b.borrowedAt.None?
    ensures b.isBorrowed ==> b.borrowedAt.Some? && (b.borrowerCard.None? || IsSixDigits(b.borrowerCard.value))
  {
  }

  /** The row the constraints as written let through: borrowed, with a
      borrow time, and with no card. */
  lemma DbAcceptsBorrowedWithoutCard()
    ensures var b := Book("123456", "T", "A", true, None, Some(0), 0, 0);
      DbAcceptsRow(b) && !ValidRow(b)
  {
    var b := Book("123456", "T", "A", true, None, Some(0), 0, 0);
    assert IsSixDigits(b.serialNumber);
  }

  /** The row an `INSERT` of serial, title and author produces: the column
      default `is_borrowed = false`, null card and borrow time, and
      `created_at` and `updated_at` both from the server default `now()`. */
  function NewRow(serial: string, title: string, author: string, now: Timestamp): (b: Book)
    ensures b.serialNumber == serial && b.title == title && b.author == author
    ensures !b.isBorrowed && b.borrowerCard.None? && b.borrowedAt.None?
    ensures b.createdAt == now && b.updatedAt == now
    ensures ValidRow(b) <==> IsSixDigits(serial)
  {
    Book(serial, title, author, false, None, None, now, now)
  }
}
