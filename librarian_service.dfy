/**
 * LibrarianService: cataloguing books and copies, and issuing and returning copies at the desk.
 * `today` and `now` stand for `LocalDate.now()` and `LocalDateTime.now()`.
 */
module LibrarianService {
  import opened Wrappers
  import opened Entities
  import opened Text
  import opened Seqs
  import opened LibraryStore
  import opened Dtos
  import opened BookRepository
  import opened BookCopyRepository
  import opened IssueRecordRepository
  import opened PaymentRepository

  // ---- Catalogue ----

  /** addBook: stores the request's fields as a new book, whose id is the next row. */
  method AddBook(db: Store, d: AddBookRequest) returns (b: Book)
    requires db.Valid() && AddBookValid(d)
    modifies db
    ensures db.Valid()
    ensures b == Book(|old(db.books)|, d.name.value, d.author.value, d.subject, d.isbn.value, d.price.value)
    ensures db.books == old(db.books) + [b]
    ensures db.members == old(db.members) && db.copies == old(db.copies) && db.cartItems == old(db.cartItems)
    ensures db.nextCartItemId == old(db.nextCartItemId) && db.issues == old(db.issues) && db.payments == old(db.payments)
  {
    b := Book(|db.books|, d.name.value, d.author.value, d.subject, d.isbn.value, d.price.value);
    db.books := db.books + [b];
  }

  /** A book just added has no copies yet, and a search for its name finds it. */
  lemma AddedBookIsNewAndFound(books: seq<Book>, copies: seq<BookCopy>, b: Book)
    requires CopiesValid(copies, |books|) && b.id == |books|
    ensures FindByBook(copies, b.id) == []
    ensures b in SearchBooks(books + [b], b.name)
  {
    forall x | x in copies ensures x.book != b.id {
      var i :| 0 <= i < |copies| && copies[i] == x;
    }
    SelfIsSubstring(b.name);
    NameContainingQueryIsFound(books + [b], b.name, |books|);
  }

  /** The copies addCopies creates, numbered from `firstId`: all of `book`, on `rack`, AVAILABLE. */
  function NewCopies(firstId: nat, book: nat, rack: string, n: nat): (r: seq<BookCopy>)
    ensures |r| == n
    ensures forall k :: 0 <= k < n ==> r[k] == BookCopy(firstId + k, book, rack, Available)
  {
    if n == 0 then [] else NewCopies(firstId, book, rack, n - 1) + [BookCopy(firstId + n - 1, book, rack, Available)]
  }

  function BookNotFound(bookId: int): Failure
  {
    Failure(NotFound, "Book not found with ID: " + IntToString(bookId))
  }

  /** addCopies: `numberOfCopies` new AVAILABLE copies of an existing book, on the given rack. */
  method AddCopies(db: Store, d: AddCopyRequest) returns (r: Result<seq<BookCopy>>)
    requires db.Valid() && AddCopyValid(d)
    modifies db
    ensures db.Valid()
    ensures r.Err? <==> !(0 <= d.bookId.value < |old(db.books)|)
    ensures r.Err? ==> r.error == BookNotFound(d.bookId.value) && unchanged(db)
    ensures r.Ok? ==>
      && r.value == NewCopies(|old(db.copies)|, d.bookId.value, d.rack.value, d.numberOfCopies)
      && db.copies == old(db.copies) + r.value
      && db.members == old(db.members) && db.books == old(db.books) && db.cartItems == old(db.cartItems)
      && db.nextCartItemId == old(db.nextCartItemId) && db.issues == old(db.issues) && db.payments == old(db.payments)
  {
    var bookId := d.bookId.value;
    if !(0 <= bookId < |db.books|) {
      return Err(BookNotFound(bookId));
    }
    var newCopies: seq<BookCopy> := [];
    var i := 0;
    while i < d.numberOfCopies
      invariant 0 <= i <= d.numberOfCopies
      invariant newCopies == NewCopies(|db.copies|, bookId, d.rack.value, i)
    {
      newCopies := newCopies + [BookCopy(|db.copies| + i, bookId, d.rack.value, Available)];
      i := i + 1;
    }
    db.copies := db.copies + newCopies;
    r := Ok(newCopies);
  }

  /** Adding `n` copies of a book makes exactly `n` more of its copies AVAILABLE, and no other book's. */
  lemma {:induction false} NewCopiesAreAvailable(cs: seq<BookCopy>, book: nat, rack: string, n: nat, other: nat)
    ensures CountByBookAndStatus(cs + NewCopies(|cs|, book, rack, n), book, Available)
         == CountByBookAndStatus(cs, book, Available) + n
    ensures other != book ==>
      CountByBookAndStatus(cs + NewCopies(|cs|, book, rack, n), other, Available)
      == CountByBookAndStatus(cs, other, Available)
  {
    if n == 0 {
      assert cs + NewCopies(|cs|, book, rack, n) == cs;
    } else {
      var all := cs + NewCopies(|cs|, book, rack, n);
      NewCopiesAreAvailable(cs, book, rack, n - 1, other);
      assert all[..|all| - 1] == cs + NewCopies(|cs|, book, rack, n - 1);
    }
  }

  // ---- Issue desk ----

  /** Why issueBook throws, in the order it checks; None when it goes through. */
  function IssueBookFailure(members: seq<Member>, copies: seq<BookCopy>, payments: seq<Payment>,
                            memberId: int, copyId: int, today: Date): (f: Option<Failure>)
    ensures f.None? <==>
      && 0 <= memberId < |members| && 0 <= copyId < |copies|
      && copies[copyId].status == Available && MembershipActive(payments, memberId, today)
    ensures f.Some? && f.value.kind == Rejected ==> 0 <= memberId < |members| && 0 <= copyId < |copies|
  {
    if !(0 <= memberId < |members|) then Some(Failure(NotFound, "Member not found"))
    else if !(0 <= copyId < |copies|) then Some(Failure(NotFound, "Book Copy not found"))
    else if copies[copyId].status != Available then Some(Failure(Rejected, "Book copy is not available for issue."))
    else if !MembershipActive(payments, memberId, today) then Some(Failure(Rejected, "Member has not paid the membership fee."))
    else None
  }

  /** issueBook: lends an AVAILABLE copy to a member whose membership is active, for LENDING_PERIOD_DAYS. */
  method IssueBook(db: Store, memberId: int, copyId: int, today: Date) returns (r: Result<IssueRecord>)
    requires db.Valid()
    modifies db
    ensures db.Valid()
    ensures r.Err? <==> IssueBookFailure(old(db.members), old(db.copies), old(db.payments), memberId, copyId, today).Some?
    ensures r.Err? ==> r.error == IssueBookFailure(old(db.members), old(db.copies), old(db.payments), memberId, copyId, today).value
    ensures r.Err? ==> unchanged(db)
    ensures r.Ok? ==>
      && r.value == IssueRecord(|old(db.issues)|, memberId, copyId, today, today + LendingPeriodDays, None, None)
      && db.issues == old(db.issues) + [r.value]
      && db.copies == old(db.copies)[copyId := old(db.copies)[copyId].(status := Issued)]
      && db.members == old(db.members) && db.books == old(db.books) && db.cartItems == old(db.cartItems)
      && db.nextCartItemId == old(db.nextCartItemId) && db.payments == old(db.payments)
  {
    if !(0 <= memberId < |db.members|) {
      return Err(Failure(NotFound, "Member not found"));
    }
    if !(0 <= copyId < |db.copies|) {
      return Err(Failure(NotFound, "Book Copy not found"));
    }
    if db.copies[copyId].status != Available {
      return Err(Failure(Rejected, "Book copy is not available for issue."));
    }
    if !MembershipActive(db.payments, memberId, today) {
      return Err(Failure(Rejected, "Member has not paid the membership fee."));
    }
    var record := IssueRecord(|db.issues|, memberId, copyId, today, today + LendingPeriodDays, None, None);
    var copies := db.copies[copyId := db.copies[copyId].(status := Issued)];
    var issues := db.issues + [record];
    IssueKeepsValid(db.issues, |db.members|, db.copies, record);
    db.Commit(copies, issues, db.payments, db.cartItems);
    r := Ok(record);
  }

  /** Issuing an AVAILABLE copy keeps the issue table valid and makes the new record the copy's active one. */
  lemma IssueKeepsValid(rs: seq<IssueRecord>, memberCount: nat, cs: seq<BookCopy>, x: IssueRecord)
    requires IssuesValid(rs, memberCount, cs)
    requires x.id == |rs| && x.member < memberCount && x.copy < |cs| && x.returnDate.None?
    requires cs[x.copy].status == Available
    ensures IssuesValid(rs + [x], memberCount, cs[x.copy := cs[x.copy].(status := Issued)])
    ensures FindByBookCopyAndReturnDateIsNull(rs + [x], x.copy) == Some(x)
  {
    var rs', cs' := rs + [x], cs[x.copy := cs[x.copy].(status := Issued)];
    forall i | 0 <= i < |rs| && rs[i].returnDate.None? ensures rs[i].copy != x.copy {
      assert cs[rs[i].copy].status == Issued;
    }
    assert rs'[|rs|] == x;
    var found := FindByBookCopyAndReturnDateIsNull(rs', x.copy);
    assert found.Some?;
    var k :| 0 <= k < |rs'| && rs'[k] == found.value;
    assert k == |rs|;
  }

  /** The record after its return on `today`: FINE_PER_DAY for each day past the due date, or zero. */
  function ReturnedRecord(x: IssueRecord, today: Date): (y: IssueRecord)
    ensures y.id == x.id && y.member == x.member && y.copy == x.copy
    ensures y.issueDate == x.issueDate && y.dueDate == x.dueDate && y.returnDate == Some(today)
    ensures y.fine.Some? && y.fine.value >= 0 && y.fine.value % FinePerDay == 0
    ensures y.fine.value > 0 <==> today > x.dueDate
    ensures today > x.dueDate ==> y.fine.value == FinePerDay * (today - x.dueDate)
  {
    if today > x.dueDate then x.(returnDate := Some(today), fine := Some(LateFine(x.dueDate, today)))
    else x.(returnDate := Some(today), fine := Some(0))
  }

  /** The FINE payment collected on a late return, or nothing for a return on time. */
  function FinePayments(id: nat, y: IssueRecord, now: Instant): (r: seq<Payment>)
    requires y.fine.Some?
    ensures |r| <= 1
    ensures |r| == 1 <==> y.fine.value != 0
    ensures r != [] ==> r[0] == Payment(id, y.member, y.fine.value, FinePayment, now, None)
  {
    if y.fine.value != 0 then [Payment(id, y.member, y.fine.value, FinePayment, now, None)] else []
  }

  /** returnBook: closes the copy's active record, frees the copy and collects any late fine. */
  method ReturnBook(db: Store, copyId: int, today: Date, now: Instant) returns (r: Result<IssueRecord>)
    requires db.Valid()
    modifies db
    ensures db.Valid()
    ensures !(0 <= copyId < |old(db.copies)|) ==> r == Err(Failure(NotFound, "Book Copy not found"))
    ensures 0 <= copyId < |old(db.copies)| && FindByBookCopyAndReturnDateIsNull(old(db.issues), copyId).None? ==>
      r == Err(Failure(Rejected, "No active issue record found for this copy."))
    ensures r.Ok? <==> 0 <= copyId < |old(db.copies)| && FindByBookCopyAndReturnDateIsNull(old(db.issues), copyId).Some?
    ensures r.Err? ==> unchanged(db)
    ensures r.Ok? ==>
      var x := FindByBookCopyAndReturnDateIsNull(old(db.issues), copyId).value;
      && r.value == ReturnedRecord(x, today)
      && x.id < |old(db.issues)| && db.issues == old(db.issues)[x.id := r.value]
      && db.copies == old(db.copies)[copyId := old(db.copies)[copyId].(status := Available)]
      && db.payments == old(db.payments) + FinePayments(|old(db.payments)|, r.value, now)
      && db.members == old(db.members) && db.books == old(db.books) && db.cartItems == old(db.cartItems)
      && db.nextCartItemId == old(db.nextCartItemId)
  {
    if !(0 <= copyId < |db.copies|) {
      return Err(Failure(NotFound, "Book Copy not found"));
    }
    var active := FindByBookCopyAndReturnDateIsNull(db.issues, copyId);
    if active.None? {
      return Err(Failure(Rejected, "No active issue record found for this copy."));
    }
    var x := active.value;
    ActiveRecordUnique(db.issues, |db.members|, db.copies, copyId);
    var copies := db.copies[copyId := db.copies[copyId].(status := Available)];
    var y := ReturnedRecord(x, today);
    var issues := db.issues[x.id := y];
    var payments := db.payments;
    if today > x.dueDate {
      payments := payments + [Payment(|db.payments|, y.member, y.fine.value, FinePayment, now, None)];
    }
    ReturnKeepsValid(db.issues, |db.members|, db.copies, x.id, today);
    db.Commit(copies, issues, payments, db.cartItems);
    r := Ok(y);
  }

  /** Returning the copy of the active record at `k` keeps the issue table valid and leaves the copy without one. */
  lemma ReturnKeepsValid(rs: seq<IssueRecord>, memberCount: nat, cs: seq<BookCopy>, k: nat, today: Date)
    requires IssuesValid(rs, memberCount, cs)
    requires k < |rs| && rs[k].returnDate.None?
    ensures var c := rs[k].copy;
      && IssuesValid(rs[k := ReturnedRecord(rs[k], today)], memberCount, cs[c := cs[c].(status := Available)])
      && FindByBookCopyAndReturnDateIsNull(rs[k := ReturnedRecord(rs[k], today)], c).None?
  {
    var c := rs[k].copy;
    var rs' := rs[k := ReturnedRecord(rs[k], today)];
    forall i | 0 <= i < |rs'| && rs'[i].returnDate.None? ensures rs'[i].copy != c {
      assert i != k;
    }
    forall x | x in rs' ensures !(x.copy == c && x.returnDate.None?) {
      var i :| 0 <= i < |rs'| && rs'[i] == x;
    }
  }
}
