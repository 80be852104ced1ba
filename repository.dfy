/** Data access for the `books` table: the stored rows, the reads, inserts,
    borrow-state updates and deletes the service issues, and the filtered,
    ordered, paginated listing. No business rule lives here. */
module Repository {
  import opened Wrappers
  import opened Text
  import opened BookModel

  /** The stored rows, by primary key. */
  type Table = map<string, Book>

  /** The primary key is the row's own serial number, so there is at most
      one row per serial. */
  predicate KeyedBySerial(t: Table) {
    forall k :: k in t ==> t[k].serialNumber == k
  }

  /** The application's invariant on the stored rows: each sits under its
      own serial and meets `ValidRow`, which is stronger than what the check
      constraints enforce; every command keeps it. */
  predicate ValidTable(t: Table) {
    KeyedBySerial(t) && forall k :: k in t ==> ValidRow(t[k])
  }

  /** Every row of a table meeting the invariant passes the database's checks. */
  lemma ValidTableAcceptedByDb(t: Table)
    requires ValidTable(t)
    ensures forall k :: k in t ==> DbAcceptsRow(t[k])
  {
    forall k | k in t
      ensures DbAcceptsRow(t[k])
    {
      DbAcceptsRowCharacterised(t[k]);
    }
  }

  // --- filters --------------------------------------------------------------

  /** The optional filters of a listing; an absent one imposes nothing. */
  datatype Filter = Filter(isBorrowed: Option<bool>, title: Option<string>, author: Option<string>)

  /** The condition a title or author query adds: none when the query is
      absent or empty (Python falsy), otherwise `column ILIKE '%q%'` with `q`
      the stripped query. */
  predicate TextCondition(column: string, query: Option<string>) {
    query.None? || query.value == [] || ILikeContains(column, Strip(query.value))
  }

  /** All supplied filters, ANDed. */
  predicate Matches(f: Filter, b: Book) {
    && (f.isBorrowed.None? || b.isBorrowed == f.isBorrowed.value)
    && TextCondition(b.title, f.title)
    && TextCondition(b.author, f.author)
  }

  /** A query of nothing but whitespace is truthy, so it adds a condition,
      but strips to the empty pattern and so accepts every row. */
  lemma WhitespaceQueryMatchesAll(column: string, q: string)
    requires AllWhitespace(q)
    ensures TextCondition(column, Some(q))
  {
    StripEmptyIffAllWhitespace(q);
    ILikeEmptyMatchesAll(column);
  }

  /** The rows one filter selects, under their keys. */
  function Matching(t: Table, f: Filter): (m: Table)
    ensures forall k :: k in m <==> k in t && Matches(f, t[k])
    ensures forall k :: k in m ==> m[k] == t[k]
    ensures KeyedBySerial(t) ==> KeyedBySerial(m)
  {
    map k | k in t && Matches(f, t[k]) :: t[k]
  }

  // --- ordering -------------------------------------------------------------

  /** `ORDER BY created_at DESC, serial_number ASC`: `a` is listed before `b`. */
  predicate Precedes(a: Book, b: Book) {
    a.createdAt > b.createdAt || (a.createdAt == b.createdAt && StrLess(a.serialNumber, b.serialNumber))
  }

  lemma PrecedesIrreflexive(a: Book)
    ensures !Precedes(a, a)
  {
    StrLessIrreflexive(a.serialNumber);
  }

  lemma PrecedesTransitive(a: Book, b: Book, c: Book)
    requires Precedes(a, b) && Precedes(b, c)
    ensures Precedes(a, c)
  {
    if a.createdAt == b.createdAt == c.createdAt {
      StrLessTransitive(a.serialNumber, b.serialNumber, c.serialNumber);
    }
  }

  /** Rows with different serials are always ordered one way or the other:
      the serial tie-break makes the order total on a table. */
  lemma PrecedesTotal(a: Book, b: Book)
    requires a.serialNumber != b.serialNumber
    ensures Precedes(a, b) || Precedes(b, a)
  {
    StrLessTotal(a.serialNumber, b.serialNumber);
  }

  lemma PrecedesAsymmetric()
    ensures forall a, b :: Precedes(a, b) ==> !Precedes(b, a)
  {
    forall a, b | Precedes(a, b)
      ensures !Precedes(b, a)
    {
      if Precedes(b, a) {
        PrecedesTransitive(a, b, a);
        PrecedesIrreflexive(a);
      }
    }
  }

  /** `k` holds the row listed first in `t`. */
  predicate IsFirst(t: Table, k: string) {
    k in t && forall j :: j in t && j != k ==> Precedes(t[k], t[j])
  }

  lemma {:induction false} FirstExists(t: Table)
    requires KeyedBySerial(t) && |t| > 0
    ensures exists k :: IsFirst(t, k)
    decreases |t|
  {
    var k :| k in t;
    var rest := t - {k};
    assert rest.Keys == t.Keys - {k};
    if |rest| == 0 {
      assert t.Keys == {k};
      assert IsFirst(t, k);
    } else {
      FirstExists(rest);
      var j :| IsFirst(rest, j);
      PrecedesTotal(t[k], t[j]);
      if Precedes(t[k], t[j]) {
        forall i | i in t && i != k
          ensures Precedes(t[k], t[i])
        {
          if i != j {
            assert i in rest && rest[i] == t[i] && rest[j] == t[j];
            PrecedesTransitive(t[k], t[j], t[i]);
          }
        }
        assert IsFirst(t, k);
      } else {
        forall i | i in t && i != j
          ensures Precedes(t[j], t[i])
        {
          if i != k {
            assert i in rest && rest[i] == t[i] && rest[j] == t[j];
          }
        }
        assert IsFirst(t, j);
      }
    }
  }

  /** The key of the row listed first; unique because the order is total. */
  function First(t: Table): (k: string)
    requires KeyedBySerial(t) && |t| > 0
    ensures IsFirst(t, k)
  {
    FirstExists(t);
    PrecedesAsymmetric();
    var k :| IsFirst(t, k);
    k
  }

  /** `s` lists exactly the rows of `t`, each once, in listing order. */
  predicate EnumeratesInOrder(t: Table, s: seq<Book>) {
    && (forall i :: 0 <= i < |s| ==> s[i].serialNumber in t && t[s[i].serialNumber] == s[i])
    && (forall k :: k in t ==> t[k] in s)
    && (forall i, j :: 0 <= i < j < |s| ==> Precedes(s[i], s[j]))
  }

  /** The first row followed by an ordered enumeration of the others is an
      ordered enumeration of the whole table. */
  lemma ConsEnumerates(t: Table, k: string, tail: seq<Book>)
    requires KeyedBySerial(t) && IsFirst(t, k)
    requires EnumeratesInOrder(t - {k}, tail)
    ensures EnumeratesInOrder(t, [t[k]] + tail)
  {
    var rest, s := t - {k}, [t[k]] + tail;
    assert forall j :: j in rest ==> rest[j] == t[j];
    forall i | 0 < i < |s|
      ensures s[i].serialNumber in t && t[s[i].serialNumber] == s[i] && Precedes(s[0], s[i])
    {
      assert s[i] == tail[i - 1];
    }
    forall j | j in t
      ensures t[j] in s
    {
      if j != k {
        assert rest[j] in tail;
      }
    }
  }

  /** Conversely, an ordered enumeration starts with the first row and goes
      on with an ordered enumeration of the rest. */
  lemma UnconsEnumerates(t: Table, s: seq<Book>)
    requires KeyedBySerial(t) && EnumeratesInOrder(t, s) && |t| > 0
    ensures |s| > 0 && IsFirst(t, s[0].serialNumber)
    ensures EnumeratesInOrder(t - {s[0].serialNumber}, s[1..])
  {
    var k :| k in t;
    assert t[k] in s;
    var k0 := s[0].serialNumber;
    forall j | j in t && j != k0
      ensures Precedes(t[k0], t[j])
    {
      var i :| 0 <= i < |s| && s[i] == t[j];
      assert i != 0;
    }
    var rest, tail := t - {k0}, s[1..];
    PrecedesIrreflexive(s[0]);
    forall i | 0 <= i < |tail|
      ensures tail[i].serialNumber in rest && rest[tail[i].serialNumber] == tail[i]
    {
      assert Precedes(s[0], s[i + 1]);
    }
    forall j | j in rest
      ensures rest[j] in tail
    {
      var i :| 0 <= i < |s| && s[i] == t[j];
      assert i != 0;
      assert tail[i - 1] == rest[j];
    }
    forall i, j | 0 <= i < j < |tail|
      ensures Precedes(tail[i], tail[j])
    {
      assert tail[i] == s[i + 1] && tail[j] == s[j + 1];
    }
  }

  /** All rows of `t` in listing order. */
  function Listing(t: Table): (s: seq<Book>)
    requires KeyedBySerial(t)
    ensures |s| == |t|
    ensures EnumeratesInOrder(t, s)
    decreases |t|
  {
    if |t| == 0 then
      []
    else
      var k := First(t);
      var rest := t - {k};
      assert rest.Keys == t.Keys - {k};
      var tail := Listing(rest);
      ConsEnumerates(t, k, tail);
      [t[k]] + tail
  }

  /** Any ordered enumeration of a table's rows is its listing: the order
      alone, not how the rows were found, decides the result. */
  lemma {:induction false} ListingUnique(t: Table, s: seq<Book>)
    requires KeyedBySerial(t) && EnumeratesInOrder(t, s)
    ensures s == Listing(t)
    decreases |t|
  {
    if |t| > 0 {
      UnconsEnumerates(t, s);
      var rest := t - {s[0].serialNumber};
      assert rest.Keys == t.Keys - {s[0].serialNumber};
      ListingUnique(rest, s[1..]);
      ListingStep(t, s);
    }
  }

  /** A sequence that starts with the first row and goes on with the
      listing of the other rows is the listing. */
  lemma ListingStep(t: Table, s: seq<Book>)
    requires KeyedBySerial(t) && |t| > 0 && |s| > 0
    requires IsFirst(t, s[0].serialNumber) && t[s[0].serialNumber] == s[0]
    requires s[1..] == Listing(t - {s[0].serialNumber})
    ensures s == Listing(t)
  {
    var k0 := s[0].serialNumber;
    FirstUnique(t, k0);
    ListingCons(t);
    SeqCons(s);
  }

  /** A non-empty sequence is its head followed by its tail. */
  lemma SeqCons<T>(s: seq<T>)
    requires |s| > 0
    ensures s == [s[0]] + s[1..]
  {
  }

  /** Only one key can be listed first. */
  lemma FirstUnique(t: Table, k: string)
    requires KeyedBySerial(t) && |t| > 0 && IsFirst(t, k)
    ensures First(t) == k
  {
    PrecedesAsymmetric();
  }

  /** One unfolding of `Listing`. */
  lemma ListingCons(t: Table)
    requires KeyedBySerial(t) && |t| > 0
    ensures var k := First(t);
      Listing(t) == [t[k]] + Listing(t - {k})
  {
  }

  // --- pagination -----------------------------------------------------------

  function Min(a: int, b: int): int {
    if a <= b then a else b
  }

  /** `LIMIT limit OFFSET offset`: item `i` of the page is item
      `offset + i` of the whole result, and the page stops at `limit` items
      or at the end. */
  function Slice<T>(s: seq<T>, offset: nat, limit: nat): (p: seq<T>)
    ensures |p| == if offset >= |s| then 0 else Min(limit, |s| - offset)
    ensures forall i :: 0 <= i < |p| ==> p[i] == s[offset + i]
  {
    if offset >= |s| then [] else s[offset..offset + Min(limit, |s| - offset)]
  }

  /** A page followed by the page that starts where it ends is the single
      page spanning both: paging through a listing never skips or repeats. */
  lemma SlicesTile<T>(s: seq<T>, offset: nat, l1: nat, l2: nat)
    ensures Slice(s, offset, l1) + Slice(s, offset + l1, l2) == Slice(s, offset, l1 + l2)
  {
    var a, b, c := Slice(s, offset, l1), Slice(s, offset + l1, l2), Slice(s, offset, l1 + l2);
    assert |a + b| == |c|;
    forall i | 0 <= i < |c|
      ensures (a + b)[i] == c[i]
    {
      if i >= |a| {
        assert (a + b)[i] == b[i - |a|];
      }
    }
  }

  /** One page of a listing and the number of rows its filter selects. */
  datatype ListPage = ListPage(items: seq<Book>, total: nat)

  /** The row a borrow-state update leaves: the flag, the card, the borrow
      time and `updated_at` overwritten, every other column kept. */
  function WithBorrowState(b: Book, isBorrowed: bool, card: Option<string>, borrowedAt: Option<Timestamp>,
                           now: Timestamp): (r: Book)
    ensures r.isBorrowed == isBorrowed && r.borrowerCard == card && r.borrowedAt == borrowedAt
    ensures r.updatedAt == now
    ensures r.(isBorrowed := b.isBorrowed, borrowerCard := b.borrowerCard,
               borrowedAt := b.borrowedAt, updatedAt := b.updatedAt) == b
    ensures ValidRow(b) && ConsistentBorrowFields(isBorrowed, card, borrowedAt) ==> ValidRow(r)
  {
    b.(isBorrowed := isBorrowed, borrowerCard := card, borrowedAt := borrowedAt, updatedAt := now)
  }

  /** The `books` table, as one session sees it. */
  class BookRepository {
    var rows: Table

    ghost predicate Valid()
      reads this
    {
      ValidTable(rows)
    }

    constructor ()
      ensures Valid() && rows == map[]
    {
      rows := map[];
    }

    /** Insert a new row in the available state. The caller guarantees the
        key is free and six digits, which the database would otherwise
        refuse. */
    method Create(serial: string, title: string, author: string, now: Timestamp) returns (b: Book)
      requires Valid()
      requires IsSixDigits(serial) && serial !in rows
      modifies this
      ensures Valid()
      ensures b == NewRow(serial, title, author, now)
      ensures rows == old(rows)[serial := b]
    {
      b := NewRow(serial, title, author, now);
      rows := rows[serial := b];
    }

    /** Plain read by primary key. */
    function GetBySerial(serial: string): (r: Option<Book>)
      reads this
      ensures r.Some? <==> serial in rows
      ensures r.Some? ==> r.value == rows[serial]
      ensures r.Some? && ValidTable(rows) ==> r.value.serialNumber == serial && ValidRow(r.value)
    {
      if serial in rows then Some(rows[serial]) else None
    }

    /** Read by primary key under a row lock; in a sequential model the lock
        changes nothing, so this is the same read. */
    function GetForUpdate(serial: string): (r: Option<Book>)
      reads this
      ensures r.Some? <==> serial in rows
      ensures r.Some? ==> r.value == rows[serial]
      ensures r.Some? && ValidTable(rows) ==> r.value.serialNumber == serial && ValidRow(r.value)
    {
      GetBySerial(serial)
    }

    /** Delete by primary key; an absent key deletes nothing and is not an error. */
    method Delete(serial: string)
      requires Valid()
      modifies this
      ensures Valid()
      ensures rows == old(rows) - {serial}
    {
      rows := rows - {serial};
    }

    /** Overwrite the borrow-related columns of one row and bump its
        `updated_at`; report the row as it now is, or nothing when no row has
        that key. The caller passes values the consistency constraint
        accepts. */
    method UpdateBorrowState(serial: string, isBorrowed: bool, card: Option<string>,
                             borrowedAt: Option<Timestamp>, now: Timestamp) returns (r: Option<Book>)
      requires Valid()
      requires ConsistentBorrowFields(isBorrowed, card, borrowedAt)
      modifies this
      ensures Valid()
      ensures serial !in old(rows) ==> r.None? && rows == old(rows)
      ensures serial in old(rows) ==>
        && r == Some(WithBorrowState(old(rows)[serial], isBorrowed, card, borrowedAt, now))
        && rows == old(rows)[serial := r.value]
    {
      if serial in rows {
        var updated := WithBorrowState(rows[serial], isBorrowed, card, borrowedAt, now);
        rows := rows[serial := updated];
        r := Some(updated);
      } else {
        r := None;
      }
    }

    /** `list`: the page of the stored rows that `Page` describes. */
    function List(f: Filter, limit: nat, offset: nat): (p: ListPage)
      reads this
      requires Valid()
      ensures p == Page(rows, f, limit, offset)
    {
      Page(rows, f, limit, offset)
    }
  }

  /** A page of the rows the filter selects, in listing order, with the
      number of rows it selects. The count comes from the filter alone, so
      it does not depend on `limit` or `offset`. */
  function Page(t: Table, f: Filter, limit: nat, offset: nat): (p: ListPage)
    requires KeyedBySerial(t)
    ensures p.total == |Matching(t, f)|
    ensures |p.items| == if offset >= p.total then 0 else Min(limit, p.total - offset)
    ensures forall i :: 0 <= i < |p.items| ==>
      var b := p.items[i]; b.serialNumber in t && t[b.serialNumber] == b && Matches(f, b)
    ensures forall i, j :: 0 <= i < j < |p.items| ==> Precedes(p.items[i], p.items[j])
    ensures forall i :: 0 <= i < |p.items| ==> p.items[i] == Listing(Matching(t, f))[offset + i]
  {
    var all := Listing(Matching(t, f));
    PageOfListing(t, f, offset, limit);
    ListPage(Slice(all, offset, limit), |all|)
  }

  /** A page of the listing of the rows a filter selects holds stored rows
      that meet the filter, in listing order. */
  lemma PageOfListing(t: Table, f: Filter, offset: nat, limit: nat)
    requires KeyedBySerial(t)
    ensures var p := Slice(Listing(Matching(t, f)), offset, limit);
      && (forall i :: 0 <= i < |p| ==>
            var b := p[i]; b.serialNumber in t && t[b.serialNumber] == b && Matches(f, b))
      && (forall i, j :: 0 <= i < j < |p| ==> Precedes(p[i], p[j]))
  {
    var m := Matching(t, f);
    var all := Listing(m);
    var p := Slice(all, offset, limit);
    forall i | 0 <= i < |p|
      ensures p[i].serialNumber in t && t[p[i].serialNumber] == p[i] && Matches(f, p[i])
    {
      assert p[i] == all[offset + i];
      assert all[offset + i].serialNumber in m;
    }
    forall i, j | 0 <= i < j < |p|
      ensures Precedes(p[i], p[j])
    {
      assert p[i] == all[offset + i] && p[j] == all[offset + j];
    }
  }

  /** Consecutive pages of one listing concatenate to the page covering both. */
  lemma ListPagesTile(repo: BookRepository, f: Filter, offset: nat, l1: nat, l2: nat)
    requires repo.Valid()
    ensures repo.List(f, l1, offset).items + repo.List(f, l2, offset + l1).items
         == repo.List(f, l1 + l2, offset).items
  {
    SlicesTile(Listing(Matching(repo.rows, f)), offset, l1, l2);
  }

  /** Without filters every row is counted. */
  lemma ListWithoutFiltersCountsAll(repo: BookRepository, limit: nat, offset: nat)
    requires repo.Valid()
    ensures repo.List(Filter(None, None, None), limit, offset).total == |repo.rows|
  {
    assert Matching(repo.rows, Filter(None, None, None)) == repo.rows;
  }
}
