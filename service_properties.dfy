/** Properties of the lifecycle that relate several commands: the borrow /
    return state machine as a reference transition table, idempotent
    borrowing, the round trip through borrowing and returning, and the
    deletion policy. */
module ServiceProperties {
  import opened Wrappers
  import opened Text
  import opened BookModel
  import opened Schemas
  import opened Repository
  import opened Service

  /** The state of one book in the lifecycle. */
  datatype BookState = Available | BorrowedBy(card: string)

  function StateOf(b: Book): BookState {
    if b.isBorrowed && b.borrowerCard.Some? then BorrowedBy(b.borrowerCard.value) else Available
  }

  /** The lifecycle's transition table; `None` is a conflict.
        Available      --borrow(c)-->  BorrowedBy(c)
        BorrowedBy(c)  --borrow(c)-->  BorrowedBy(c)
        BorrowedBy(c)  --borrow(d)-->  conflict, d != c
        BorrowedBy(c)  --return-->     Available
        Available      --return-->     conflict */
  function Transition(st: BookState, action: StatusUpdate): Option<BookState> {
    match (st, action)
    case (Available, BorrowAction(c)) => Some(BorrowedBy(c))
    case (BorrowedBy(c), BorrowAction(d)) => if c == d then Some(st) else None
    case (BorrowedBy(_), ReturnAction) => Some(Available)
    case (Available, ReturnAction) => None
  }

  /** The status commands follow the transition table: a missing book is not
      found, a conflict is exactly a missing transition, and a success moves
      the stored book, and the book reported, to the state the table names. */
  lemma UpdateStatusFollowsTransitions(t: Table, serial: string, action: StatusUpdate, appNow: Timestamp, dbNow: Timestamp)
    requires ValidTable(t) && (action.BorrowAction? ==> IsSixDigits(action.borrowerCard))
    ensures var s := UpdateStatus(t, serial, action, appNow, dbNow);
      && (s.result.NotFound? <==> serial !in t)
      && (serial in t ==> (s.result.Conflict? <==> Transition(StateOf(t[serial]), action).None?))
      && (s.result.Ok? ==>
            && Transition(StateOf(t[serial]), action) == Some(StateOf(s.result.value))
            && s.table[serial] == s.result.value)
  {
    if serial in t {
      BorrowFlagDeterminesFields(t[serial]);
    }
  }

  /** Every command keeps the row invariant, which is stronger than the
      check constraints: no command ever leaves a borrowed row without a
      card, although the database would accept one. */
  lemma CommandsKeepValidRows(t: Table, serial: string, data: BookCreate, card: string,
                              appNow: Timestamp, dbNow: Timestamp)
    requires ValidTable(t) && IsSixDigits(data.serialNumber) && IsSixDigits(card)
    ensures ValidTable(Add(t, data, dbNow).table)
    ensures ValidTable(Remove(t, serial).table)
    ensures ValidTable(Borrow(t, serial, card, appNow, dbNow).table)
    ensures ValidTable(Return(t, serial, dbNow).table)
    ensures forall k :: k in Borrow(t, serial, card, appNow, dbNow).table ==>
      var b := Borrow(t, serial, card, appNow, dbNow).table[k];
      b.isBorrowed ==> b.borrowerCard.Some?
  {
    var s := Borrow(t, serial, card, appNow, dbNow);
    forall k | k in s.table
      ensures s.table[k].isBorrowed ==> s.table[k].borrowerCard.Some?
    {
      BorrowFlagDeterminesFields(s.table[k]);
    }
  }

  /** Adding a serial twice: the second add conflicts and the table keeps
      the one row the first add made. */
  lemma AddTwiceConflicts(t: Table, data: BookCreate, now1: Timestamp, now2: Timestamp)
    requires ValidTable(t) && IsSixDigits(data.serialNumber) && data.serialNumber !in t
    ensures var s1 := Add(t, data, now1);
      && s1.result.Ok?
      && Add(s1.table, data, now2) == Step(Conflict, s1.table)
      && s1.table[data.serialNumber] == NewRow(data.serialNumber, data.title, data.author, now1)
  {
  }

  /** Removing an available book succeeds once; removing it again finds nothing. */
  lemma RemoveTwiceNotFound(t: Table, serial: string)
    requires ValidTable(t) && serial in t && !t[serial].isBorrowed
    ensures var s1 := Remove(t, serial);
      && s1.result.Ok?
      && serial !in s1.table
      && Remove(s1.table, serial) == Step(NotFound, s1.table)
  {
  }

  /** Borrowing again with the card that holds the book returns the stored
      row, and neither its borrow time nor its `updated_at` moves. */
  lemma BorrowIdempotent(t: Table, serial: string, card: string,
                         appNow1: Timestamp, dbNow1: Timestamp, appNow2: Timestamp, dbNow2: Timestamp)
    requires ValidTable(t) && IsSixDigits(card)
    requires Borrow(t, serial, card, appNow1, dbNow1).result.Ok?
    ensures var s1 := Borrow(t, serial, card, appNow1, dbNow1);
      Borrow(s1.table, serial, card, appNow2, dbNow2) == Step(Ok(s1.result.value), s1.table)
  {
  }

  /** A borrowed book cannot be taken by another card; nothing changes. */
  lemma BorrowByOtherCardConflicts(t: Table, serial: string, card: string, other: string,
                                   appNow1: Timestamp, dbNow1: Timestamp, appNow2: Timestamp, dbNow2: Timestamp)
    requires ValidTable(t) && IsSixDigits(card) && IsSixDigits(other) && card != other
    requires Borrow(t, serial, card, appNow1, dbNow1).result.Ok?
    ensures var s1 := Borrow(t, serial, card, appNow1, dbNow1);
      Borrow(s1.table, serial, other, appNow2, dbNow2) == Step(Conflict, s1.table)
  {
  }

  /** Borrowing an available book and returning it restores the row, except
      that `updated_at` records the return; a second return conflicts. */
  lemma {:induction false} BorrowReturnRoundTrip(t: Table, serial: string, card: string,
                                                 appNow: Timestamp, dbNow1: Timestamp, dbNow2: Timestamp)
    requires ValidTable(t) && IsSixDigits(card) && serial in t && !t[serial].isBorrowed
    ensures var s1 := Borrow(t, serial, card, appNow, dbNow1);
      var s2 := Return(s1.table, serial, dbNow2);
      && s1.result.Ok? && s2.result.Ok?
      && s2.result.value == t[serial].(updatedAt := dbNow2)
      && s2.table == t[serial := t[serial].(updatedAt := dbNow2)]
      && Return(s2.table, serial, dbNow2) == Step(Conflict, s2.table)
  {
    BorrowFlagDeterminesFields(t[serial]);
    var s1 := Borrow(t, serial, card, appNow, dbNow1);
    assert s1.table[serial := Return(s1.table, serial, dbNow2).result.value]
        == t[serial := t[serial].(updatedAt := dbNow2)];
  }

  /** A borrowed book cannot be deleted until it is returned; then it can. */
  lemma RemoveAfterReturn(t: Table, serial: string, card: string,
                          appNow: Timestamp, dbNow1: Timestamp, dbNow2: Timestamp)
    requires ValidTable(t) && IsSixDigits(card) && serial in t && !t[serial].isBorrowed
    ensures var s1 := Borrow(t, serial, card, appNow, dbNow1);
      var s2 := Return(s1.table, serial, dbNow2);
      && Remove(s1.table, serial) == Step(Conflict, s1.table)
      && Remove(s2.table, serial).result.Ok?
      && serial !in Remove(s2.table, serial).table
  {
  }

  /** A book just added appears in the unfiltered listing, which then counts
      at least one row. */
  lemma AddedBookIsListed(t: Table, data: BookCreate, now: Timestamp)
    requires ValidTable(t) && IsSixDigits(data.serialNumber) && data.serialNumber !in t
    ensures var s := Add(t, data, now);
      var all := Listing(Matching(s.table, Filter(None, None, None)));
      s.result.Ok? && s.result.value in all && |all| >= 1
  {
    var s := Add(t, data, now);
    var m := Matching(s.table, Filter(None, None, None));
    assert data.serialNumber in m;
  }

  /** On an empty table, the book just added is the whole first page of the
      unfiltered listing with the service's default limit and offset. */
  lemma AddedBookOnFirstPage(data: BookCreate, now: Timestamp)
    requires IsSixDigits(data.serialNumber)
    ensures var s := Add(map[], data, now);
      var p := Page(s.table, Filter(None, None, None), ClampLimit(50), ClampOffset(0));
      s.result.Ok? && p.total == 1 && p.items == [s.result.value]
  {
    var s := Add(map[], data, now);
    var f := Filter(None, None, None);
    var m := Matching(s.table, f);
    assert data.serialNumber in m;
    assert m.Keys == {data.serialNumber};
    var p := Page(s.table, f, ClampLimit(50), ClampOffset(0));
    assert p.items[0] == s.table[data.serialNumber];
  }

  /** A client of the service: the lifecycle one book goes through in the
      service tests, checked against the methods' contracts alone. */
  method LifecycleScenario() {
    var repo := new BookRepository();
    var service := new BookService(repo);
    assert IsSixDigits("333333") && IsSixDigits("111111") && IsSixDigits("222222");

    var added := service.AddBook(BookCreate("333333", "BorrowMe", "Y"), 1);
    assert added.Ok? && !added.value.isBorrowed;
    var again := service.AddBook(BookCreate("333333", "BorrowMe", "Y"), 2);
    assert again == Conflict;

    var b1 := service.BorrowBook("333333", "111111", 3, 3);
    assert b1.Ok? && b1.value.isBorrowed && b1.value.borrowerCard == Some("111111") && b1.value.borrowedAt == Some(3);
    var b2 := service.BorrowBook("333333", "111111", 4, 4);
    assert b2 == b1;
    var b3 := service.BorrowBook("333333", "222222", 5, 5);
    assert b3 == Conflict;
    var removeBorrowed := service.RemoveBook("333333");
    assert removeBorrowed == Conflict;

    var r1 := service.ReturnBook("333333", 6);
    assert r1.Ok? && !r1.value.isBorrowed && r1.value.borrowerCard.None?;
    var r2 := service.ReturnBook("333333", 7);
    assert r2 == Conflict;

    var removed := service.RemoveBook("333333");
    assert removed.Ok?;
    var removedAgain := service.RemoveBook("333333");
    assert removedAgain == NotFound;
  }
}
