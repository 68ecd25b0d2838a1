/**
 * MemberService: the member's dashboard, cart, checkout, password and book availability.
 * `today` and `now` stand for `LocalDate.now()` and `LocalDateTime.now()`, and `monthLater`
 * for `LocalDate.now().plusMonths(1)`.
 */
module MemberService {
  import opened Wrappers
  import opened Entities
  import opened Text
  import opened Seqs
  import Passwords
  import opened LibraryStore
  import opened IssueRecordRepository
  import opened BookCopyRepository
  import opened CartItemRepository
  import opened PaymentRepository

  function MemberNotFound(email: string): Failure
  {
    Failure(NotFound, "Member not found with email: " + email)
  }

  function Min(a: int, b: int): int
  {
    if a < b then a else b
  }

  // ---- Fines ----

  /** The fine an unreturned record has accrued by `today`: FINE_PER_DAY for every day past due. */
  function AccruedFine(r: IssueRecord, today: Date): (fine: Money)
    ensures fine >= 0 && fine % FinePerDay == 0
    ensures fine > 0 <==> r.dueDate < today
  {
    if r.dueDate < today then LateFine(r.dueDate, today) else 0
  }

  /** The fines accrued over a list of records. */
  function TotalAccrued(rs: seq<IssueRecord>, today: Date): (total: Money)
    ensures total >= 0 && total % FinePerDay == 0
    ensures total == 0 <==> forall i :: 0 <= i < |rs| ==> rs[i].dueDate >= today
  {
    if rs == [] then 0
    else
      var init := rs[..|rs| - 1];
      assert forall i :: 0 <= i < |init| ==> init[i] == rs[i];
      TotalAccrued(init, today) + AccruedFine(rs[|rs| - 1], today)
  }

  /** The records of `rs` due strictly before `today`. */
  function PastDue(rs: seq<IssueRecord>, today: Date): (r: seq<IssueRecord>)
    ensures forall i :: 0 <= i < |r| ==> r[i].dueDate < today
  {
    var r := Filter(rs, (x: IssueRecord) => x.dueDate < today);
    assert forall i :: 0 <= i < |r| ==> r[i] in r;
    r
  }

  /** The sum of `5 x days late` over records that are all past due. */
  function SumLateFines(overdue: seq<IssueRecord>, today: Date): Money
    requires forall i :: 0 <= i < |overdue| ==> overdue[i].dueDate < today
  {
    if overdue == [] then 0
    else SumLateFines(overdue[..|overdue| - 1], today) + LateFine(overdue[|overdue| - 1].dueDate, today)
  }

  /** Filtering the past-due records and summing their fines is the total accrued fine. */
  lemma {:induction false} SumOfPastDueIsTotalAccrued(rs: seq<IssueRecord>, today: Date)
    ensures SumLateFines(PastDue(rs, today), today) == TotalAccrued(rs, today)
  {
    if rs != [] {
      var init, last := rs[..|rs| - 1], rs[|rs| - 1];
      SumOfPastDueIsTotalAccrued(init, today);
      if last.dueDate < today {
        var p := PastDue(rs, today);
        assert p == PastDue(init, today) + [last];
        assert p[..|p| - 1] == PastDue(init, today);
      }
    }
  }

  /** The total of a list does not depend on the order of its records. */
  lemma {:induction false} TotalAccruedAppend(a: seq<IssueRecord>, b: seq<IssueRecord>, today: Date)
    ensures TotalAccrued(a + b, today) == TotalAccrued(a, today) + TotalAccrued(b, today)
    decreases |b|
  {
    if b == [] {
      assert a + b == a;
    } else {
      var b' := b[..|b| - 1];
      assert (a + b)[..|a + b| - 1] == a + b';
      TotalAccruedAppend(a, b', today);
    }
  }

  lemma {:induction false} TotalAccruedPermutation(a: seq<IssueRecord>, b: seq<IssueRecord>, today: Date)
    requires multiset(a) == multiset(b)
    ensures TotalAccrued(a, today) == TotalAccrued(b, today)
    decreases |a|
  {
    if a != [] {
      var a', x := a[..|a| - 1], a[|a| - 1];
      assert a == a' + [x];
      assert x in multiset(b);
      var k :| 0 <= k < |b| && b[k] == x;
      assert b == b[..k] + [x] + b[k + 1..];
      var b' := b[..k] + b[k + 1..];
      assert multiset(b') == multiset(b) - multiset{x};
      assert multiset(a') == multiset(a) - multiset{x};
      TotalAccruedPermutation(a', b', today);
      TotalAccruedAppend(b[..k] + [x], b[k + 1..], today);
      TotalAccruedAppend(b[..k], [x], today);
      TotalAccruedAppend(b[..k], b[k + 1..], today);
      assert TotalAccrued([x], today) == AccruedFine(x, today);
    }
  }

  /** The dashboard's stream: keep the past-due records, fine each, add up. */
  function OutstandingFines(borrowed: seq<IssueRecord>, today: Date): (total: Money)
    ensures total == TotalAccrued(borrowed, today)
  {
    SumOfPastDueIsTotalAccrued(borrowed, today);
    SumLateFines(PastDue(borrowed, today), today)
  }

  // ---- Profile and dashboard ----

  datatype MemberProfile = MemberProfile(
    id: nat, name: string, email: string, phone: string,
    membershipActive: bool, membershipDueDate: Option<Date>)

  /** mapToMemberProfileDTO: the latest-due membership payment decides the membership fields. */
  function MapToMemberProfile(m: Member, ps: seq<Payment>, today: Date): (p: MemberProfile)
    ensures p.id == m.id && p.name == m.name && p.email == m.email && p.phone == m.phone
    ensures p.membershipActive == MembershipActive(ps, m.id, today)
    ensures p.membershipActive ==> p.membershipDueDate.Some? && p.membershipDueDate.value > today
    ensures p.membershipDueDate.Some? ==>
      exists i :: 0 <= i < |ps| && ps[i].member == m.id && ps[i].kind == MembershipPayment
        && ps[i].dueDate == p.membershipDueDate
  {
    match FindTopByMemberAndTypeOrderByDueDateDesc(ps, m.id, MembershipPayment)
    case None => MemberProfile(m.id, m.name, m.email, m.phone, false, None)
    case Some(pay) =>
      MemberProfile(m.id, m.name, m.email, m.phone, pay.dueDate.Some? && pay.dueDate.value > today, pay.dueDate)
  }

  datatype MemberDashboard = MemberDashboard(
    memberName: string, isMembershipActive: bool, membershipDueDate: Option<Date>,
    currentlyBorrowedCount: nat, totalBooksReadCount: nat, outstandingFines: Money,
    recentActivity: seq<IssueRecord>)

  /** getMemberDashboard */
  function GetMemberDashboard(members: seq<Member>, issues: seq<IssueRecord>, payments: seq<Payment>,
                              email: string, today: Date): (r: Result<MemberDashboard>)
    ensures r.Err? <==> FindByEmail(members, email).None?
    ensures r.Err? ==> r.error == MemberNotFound(email)
    ensures r.Ok? ==>
      var m := members[FindByEmail(members, email).value];
      var history := FindByMemberOrderByIssueDateDesc(issues, m.id);
      var borrowed := FindByMemberAndReturnDateIsNull(issues, m.id);
      && r.value.memberName == m.name
      && r.value.isMembershipActive == MembershipActive(payments, m.id, today)
      && r.value.membershipDueDate ==
           (match FindTopByMemberAndTypeOrderByDueDateDesc(payments, m.id, MembershipPayment)
            case None => None
            case Some(pay) => pay.dueDate)
      && (r.value.isMembershipActive <==> r.value.membershipDueDate.Some? && r.value.membershipDueDate.value > today)
      && r.value.currentlyBorrowedCount == |borrowed|
      && r.value.totalBooksReadCount == |history|
      && r.value.outstandingFines == TotalAccrued(borrowed, today)
      && |r.value.recentActivity| == Min(3, |history|)
      && r.value.recentActivity == history[..|r.value.recentActivity|]
  {
    match FindByEmail(members, email)
    case None => Err(MemberNotFound(email))
    case Some(i) =>
      var m := members[i];
      var profile := MapToMemberProfile(m, payments, today);
      var history := FindByMemberOrderByIssueDateDesc(issues, m.id);
      var current := Filter(history, Unreturned);
      ActiveIsFilteredHistory(issues, m.id);
      TotalAccruedPermutation(current, FindByMemberAndReturnDateIsNull(issues, m.id), today);
      var fines := OutstandingFines(current, today);
      var recent := history[..Min(3, |history|)];
      Ok(MemberDashboard(profile.name, profile.membershipActive, profile.membershipDueDate,
                         |current|, |history|, fines, recent))
  }

  /** No fine is outstanding exactly when none of the member's unreturned books is past due. */
  lemma DashboardFinesZeroIff(members: seq<Member>, issues: seq<IssueRecord>, payments: seq<Payment>,
                              email: string, today: Date)
    requires GetMemberDashboard(members, issues, payments, email, today).Ok?
    ensures var m := members[FindByEmail(members, email).value];
      GetMemberDashboard(members, issues, payments, email, today).value.outstandingFines == 0 <==>
        forall x :: x in issues && x.member == m.id && x.returnDate.None? ==> x.dueDate >= today
  {
    var m := members[FindByEmail(members, email).value];
    var borrowed := FindByMemberAndReturnDateIsNull(issues, m.id);
    forall x | x in issues && x.member == m.id && x.returnDate.None?
      ensures x in borrowed
    {
    }
  }

  // ---- Book availability ----

  datatype BookDto = BookDto(
    id: nat, name: string, author: string, subject: Option<string>, isbn: string, price: Money,
    totalCopies: nat, availableCopies: nat)

  /** mapToBookDTO: the book with the number of its copies and of its AVAILABLE copies. */
  function MapToBookDto(b: Book, cs: seq<BookCopy>): (d: BookDto)
    ensures d.id == b.id && d.name == b.name && d.author == b.author && d.subject == b.subject
    ensures d.isbn == b.isbn && d.price == b.price
    ensures d.totalCopies == |FindByBook(cs, b.id)|
    ensures d.availableCopies == |FindByBookAndStatus(cs, b.id, Available)|
    ensures d.availableCopies <= d.totalCopies
  {
    CountIsSizeOfFind(cs, b.id, Available);
    AvailableNotAboveTotal(cs, b.id);
    BookDto(b.id, b.name, b.author, b.subject, b.isbn, b.price,
            |FindByBook(cs, b.id)|, CountByBookAndStatus(cs, b.id, Available))
  }

  /** getAvailableCopiesForBook */
  function GetAvailableCopiesForBook(books: seq<Book>, copies: seq<BookCopy>, bookId: int): (r: Result<seq<BookCopy>>)
    requires BooksValid(books)
    ensures r.Err? <==> !(0 <= bookId < |books|)
    ensures r.Err? ==> r.error == Failure(NotFound, "Book not found with ID: " + IntToString(bookId))
    ensures r.Ok? ==> forall x :: x in r.value <==> x in copies && x.book == bookId && x.status == Available
    ensures r.Ok? ==> |r.value| == MapToBookDto(books[bookId], copies).availableCopies
  {
    if 0 <= bookId < |books| then Ok(FindByBookAndStatus(copies, bookId, Available))
    else Err(Failure(NotFound, "Book not found with ID: " + IntToString(bookId)))
  }

  // ---- Cart ----

  /** Why addToCart refuses, checked in the order the service checks. */
  function AddToCartFailure(members: seq<Member>, copies: seq<BookCopy>, items: seq<CartItem>, email: string, copyId: int)
    : (f: Option<Failure>)
    ensures f.None? <==>
      && FindByEmail(members, email).Some?
      && 0 <= copyId < |copies| && copies[copyId].status == Available
      && forall x :: x in items ==> x.copy != copyId
  {
    if FindByEmail(members, email).None? then Some(MemberNotFound(email))
    else if !(0 <= copyId < |copies|) then Some(Failure(NotFound, "Book copy not found."))
    else if copies[copyId].status != Available then Some(Failure(Rejected, "This book copy is not available."))
    else if FindByBookCopyId(items, copyId).Some? then Some(Failure(Rejected, "This book copy is already in someone's cart."))
    else None
  }

  /** addToCart: puts an AVAILABLE copy that sits in no cart into the member's cart. */
  method AddToCart(db: Store, email: string, copyId: int, now: Instant) returns (r: Result<CartItem>)
    requires db.Valid()
    modifies db
    ensures db.Valid()
    ensures r.Err? <==> AddToCartFailure(old(db.members), old(db.copies), old(db.cartItems), email, copyId).Some?
    ensures r.Err? ==> r.error == AddToCartFailure(old(db.members), old(db.copies), old(db.cartItems), email, copyId).value
    ensures r.Err? ==> unchanged(db)
    ensures r.Ok? ==>
      && r.value == CartItem(old(db.nextCartItemId), FindByEmail(old(db.members), email).value, copyId, now)
      && db.cartItems == old(db.cartItems) + [r.value]
      && db.nextCartItemId == old(db.nextCartItemId) + 1
      && db.members == old(db.members) && db.books == old(db.books) && db.copies == old(db.copies)
      && db.issues == old(db.issues) && db.payments == old(db.payments)
  {
    var found := FindByEmail(db.members, email);
    if found.None? {
      return Err(MemberNotFound(email));
    }
    if !(0 <= copyId < |db.copies|) {
      return Err(Failure(NotFound, "Book copy not found."));
    }
    if db.copies[copyId].status != Available {
      return Err(Failure(Rejected, "This book copy is not available."));
    }
    if FindByBookCopyId(db.cartItems, copyId).Some? {
      return Err(Failure(Rejected, "This book copy is already in someone's cart."));
    }
    var item := CartItem(db.nextCartItemId, found.value, copyId, now);
    forall i | 0 <= i < |db.cartItems| ensures db.cartItems[i].copy != copyId {
      assert db.cartItems[i] in db.cartItems;
    }
    db.cartItems := db.cartItems + [item];
    db.nextCartItemId := db.nextCartItemId + 1;
    r := Ok(item);
  }

  /** Why removeFromCart refuses, checked in the order the service checks. */
  function RemoveFromCartFailure(members: seq<Member>, items: seq<CartItem>, email: string, cartItemId: int)
    : (f: Option<Failure>)
    ensures f.None? <==>
      && FindByEmail(members, email).Some? && FindById(items, cartItemId).Some?
      && items[FindById(items, cartItemId).value].member == members[FindByEmail(members, email).value].id
    ensures f.Some? && f.value.kind == Forbidden ==>
      FindById(items, cartItemId).Some? && FindByEmail(members, email).Some?
  {
    match FindByEmail(members, email)
    case None => Some(MemberNotFound(email))
    case Some(m) =>
      match FindById(items, cartItemId)
      case None => Some(Failure(NotFound, "Cart item not found."))
      case Some(k) =>
        if items[k].member != members[m].id then Some(Failure(Forbidden, "You are not authorized to remove this item."))
        else None
  }

  /** Removing one item from a valid cart table keeps it valid. */
  lemma RemoveAtKeepsCartValid(items: seq<CartItem>, nextId: nat, memberCount: nat, copyCount: nat, k: nat)
    requires CartValid(items, nextId, memberCount, copyCount) && k < |items|
    ensures CartValid(RemoveAt(items, k), nextId, memberCount, copyCount)
  {
    var r := RemoveAt(items, k);
    forall i, j | 0 <= i < j < |r| ensures r[i].id != r[j].id && r[i].copy != r[j].copy {
      var i', j' := if i < k then i else i + 1, if j < k then j else j + 1;
      assert r[i] == items[i'] && r[j] == items[j'] && i' < j';
    }
  }

  /** Deleting the item at `k` keeps every item found elsewhere. */
  lemma RemoveAtKeepsOthers(items: seq<CartItem>, k: nat, i: nat)
    requires k < |items| && i < |items| && i != k
    ensures items[i] in RemoveAt(items, k)
  {
    var r := RemoveAt(items, k);
    if i < k { assert r[i] == items[i]; } else { assert r[i - 1] == items[i]; }
  }

  /** Every item left after deleting at `k` sits at another position of the table. */
  lemma RemoveAtLeavesOthers(items: seq<CartItem>, k: nat, x: CartItem) returns (i: nat)
    requires k < |items| && x in RemoveAt(items, k)
    ensures i < |items| && i != k && items[i] == x
  {
    var r := RemoveAt(items, k);
    var j :| 0 <= j < |r| && r[j] == x;
    i := if j < k then j else j + 1;
  }

  /** In a table with distinct ids, deleting at the position of an id drops exactly that item. */
  lemma RemoveAtDropsExactlyThatId(items: seq<CartItem>, nextId: nat, memberCount: nat, copyCount: nat, id: int)
    requires CartValid(items, nextId, memberCount, copyCount) && FindById(items, id).Some?
    ensures forall x :: x in RemoveAt(items, FindById(items, id).value) <==> x in items && x.id != id
  {
    var k := FindById(items, id).value;
    var r := RemoveAt(items, k);
    forall x | x in items && x.id != id ensures x in r {
      var i :| 0 <= i < |items| && items[i] == x;
      RemoveAtKeepsOthers(items, k, i);
    }
    forall x | x in r ensures x in items && x.id != id {
      var i := RemoveAtLeavesOthers(items, k, x);
    }
  }

  /** removeFromCart: deletes one of the member's own cart items. */
  method RemoveFromCart(db: Store, email: string, cartItemId: int) returns (r: Outcome)
    requires db.Valid()
    modifies db
    ensures db.Valid()
    ensures r.Fail? <==> RemoveFromCartFailure(old(db.members), old(db.cartItems), email, cartItemId).Some?
    ensures r.Fail? ==> r.error == RemoveFromCartFailure(old(db.members), old(db.cartItems), email, cartItemId).value
    ensures r.Fail? ==> unchanged(db)
    ensures r.Done? ==>
      && db.cartItems == RemoveAt(old(db.cartItems), FindById(old(db.cartItems), cartItemId).value)
      && db.members == old(db.members) && db.books == old(db.books) && db.copies == old(db.copies)
      && db.nextCartItemId == old(db.nextCartItemId)
      && db.issues == old(db.issues) && db.payments == old(db.payments)
  {
    var found := FindByEmail(db.members, email);
    if found.None? {
      return Fail(MemberNotFound(email));
    }
    var k := FindById(db.cartItems, cartItemId);
    if k.None? {
      return Fail(Failure(NotFound, "Cart item not found."));
    }
    if db.cartItems[k.value].member != db.members[found.value].id {
      return Fail(Failure(Forbidden, "You are not authorized to remove this item."));
    }
    RemoveAtKeepsCartValid(db.cartItems, db.nextCartItemId, |db.members|, |db.copies|, k.value);
    db.cartItems := RemoveAt(db.cartItems, k.value);
    r := Done;
  }

  // ---- Password ----

  /** changeMyPassword: replaces the stored hash when the old password matches it. */
  method ChangeMyPassword(db: Store, email: string, oldPassword: string, newPassword: string) returns (r: Outcome)
    requires db.Valid()
    modifies db
    ensures db.Valid()
    ensures FindByEmail(old(db.members), email).None? ==> r == Fail(MemberNotFound(email))
    ensures FindByEmail(old(db.members), email).Some? ==>
      var m := FindByEmail(old(db.members), email).value;
      if Passwords.Matches(oldPassword, old(db.members)[m].password) then
        && r == Done
        && db.members == old(db.members)[m := old(db.members)[m].(password := Passwords.Encode(newPassword))]
        && Passwords.Matches(newPassword, db.members[m].password)
        && (Passwords.Matches(oldPassword, db.members[m].password) <==> oldPassword == newPassword)
      else r == Fail(Failure(Rejected, "Incorrect old password"))
    ensures r.Fail? ==> unchanged(db)
    ensures db.books == old(db.books) && db.copies == old(db.copies) && db.cartItems == old(db.cartItems)
    ensures db.nextCartItemId == old(db.nextCartItemId) && db.issues == old(db.issues) && db.payments == old(db.payments)
  {
    var found := FindByEmail(db.members, email);
    if found.None? {
      return Fail(MemberNotFound(email));
    }
    var m := found.value;
    if !Passwords.Matches(oldPassword, db.members[m].password) {
      return Fail(Failure(Rejected, "Incorrect old password"));
    }
    Passwords.MatchesExactlyItsEncoding(newPassword, oldPassword);
    db.members := db.members[m := db.members[m].(password := Passwords.Encode(newPassword))];
    r := Done;
  }

  // ---- Checkout ----

  const SuccessStatus: string := "Success! Books have been issued to your account."
  const NoPaymentDetails: string := "No payment required. Membership is active."

  const RupeeSign: char := '\U{20B9}'

  /** `BigDecimal.toString()` of a non-negative amount of scale 2, held in hundredths. */
  function AmountText(a: nat): string
  {
    NatToString(a / 100) + "." + [DigitChar(a % 100 / 10), DigitChar(a % 10)]
  }

  /** The amount text reads back as the amount: whole rupees before the point, hundredths after it. */
  lemma AmountTextReadsBack(a: nat)
    ensures var s := AmountText(a);
      && |s| >= 4 && s[|s| - 3] == '.'
      && (forall i :: 0 <= i < |s| && i != |s| - 3 ==> IsDigit(s[i]))
      && ParseNat(s[..|s| - 3]) * 100 + ParseNat(s[|s| - 2..]) == a
  {
    var s := AmountText(a);
    assert s[..|s| - 3] == NatToString(a / 100);
    NatToStringRoundTrip(a / 100);
    var t := s[|s| - 2..];
    assert t == [DigitChar(a % 100 / 10), DigitChar(a % 10)];
    assert t[..1][..0] == [];
    assert ParseNat(t[..1]) == a % 100 / 10;
    assert ParseNat(t) == (a % 100 / 10) * 10 + a % 10;
  }

  /**
   * The payment details as the source file spells them: the three bytes of the rupee sign's
   * UTF-8 encoding, each read as a Windows-1252 character.
   */
  const MembershipFeeDetailsAsWritten: string := "Membership Fee (\U{00E2}\U{201A}\U{00B9}500.00)"

  /** The payment details for a charged membership fee: the rupee sign and the fee. */
  const MembershipFeeDetails: string := "Membership Fee (\U{20B9}500.00)"

  /** The spelled-out text carries no rupee sign, so it differs from the intended details. */
  lemma MembershipFeeDetailsAsWrittenLacksRupee()
    ensures RupeeSign !in MembershipFeeDetailsAsWritten
    ensures MembershipFeeDetailsAsWritten != MembershipFeeDetails
    ensures MembershipFeeDetailsAsWritten[16..19] == "\U{00E2}\U{201A}\U{00B9}"
  {
    assert MembershipFeeDetails[16] == RupeeSign;
  }

  /** The intended details name the fee that is charged, in rupees, after the rupee sign. */
  lemma MembershipFeeDetailsShowFee()
    ensures MembershipFeeDetails == "Membership Fee (" + [RupeeSign] + AmountText(MembershipFee) + ")"
    ensures MembershipFeeDetails[16] == RupeeSign
    ensures var amount := MembershipFeeDetails[17..|MembershipFeeDetails| - 1];
      amount == AmountText(MembershipFee)
      && ParseNat(amount[..|amount| - 3]) * 100 + ParseNat(amount[|amount| - 2..]) == MembershipFee
  {
    assert NatToString(500) == "500" by {
      assert NatToString(50) == "50" by {
        assert NatToString(5) == "5";
      }
    }
    assert AmountText(MembershipFee) == "500.00";
    AmountTextReadsBack(MembershipFee);
  }

  datatype CheckoutResponse = CheckoutResponse(
    status: string, borrowedBooks: seq<IssueRecord>, amountPaid: Money, paymentDetails: string)

  function NoLongerAvailable(bookName: string, copyId: nat): Failure
  {
    Failure(Rejected, "Book '" + bookName + "' (Copy ID: " + NatToString(copyId) + ") is no longer available.")
  }

  /** The copies held by `items`. */
  function CartCopies(items: seq<CartItem>): (r: set<nat>)
    ensures forall k :: 0 <= k < |items| ==> items[k].copy in r
  {
    if items == [] then {} else CartCopies(items[..|items| - 1]) + {items[|items| - 1].copy}
  }

  /** A copy is in the set only if some item holds it. */
  lemma {:induction false} CartCopiesHeld(items: seq<CartItem>, c: nat)
    requires c in CartCopies(items)
    ensures exists k :: 0 <= k < |items| && items[k].copy == c
  {
    var init := items[..|items| - 1];
    if c in CartCopies(init) {
      CartCopiesHeld(init, c);
      var k :| 0 <= k < |init| && init[k].copy == c;
      assert items[k].copy == c;
    } else {
      assert items[|items| - 1].copy == c;
    }
  }

  /** With distinct copies, the copy of item `i` is not held by the items before it. */
  lemma NotInEarlierItems(cart: seq<CartItem>, i: nat)
    requires KeysDistinct(cart, CartItemCopy) && i < |cart|
    ensures cart[i].copy !in CartCopies(cart[..i])
  {
    if cart[i].copy in CartCopies(cart[..i]) {
      CartCopiesHeld(cart[..i], cart[i].copy);
    }
  }

  /** The copy table with every copy held by `items` set to ISSUED and the others as they were. */
  function MarkIssued(cs: seq<BookCopy>, items: seq<CartItem>): (r: seq<BookCopy>)
    ensures |r| == |cs|
    ensures forall j :: 0 <= j < |cs| ==> r[j] == if j in CartCopies(items) then cs[j].(status := Issued) else cs[j]
  {
    if items == [] then cs
    else
      var prev := MarkIssued(cs, items[..|items| - 1]);
      var c := items[|items| - 1].copy;
      if c < |prev| then prev[c := prev[c].(status := Issued)] else prev
  }

  /** The records checkout creates: one per cart item, issued today, due LENDING_PERIOD_DAYS later, fine zero. */
  function NewIssueRecords(firstId: nat, member: nat, items: seq<CartItem>, today: Date): (r: seq<IssueRecord>)
    ensures |r| == |items|
    ensures forall k :: 0 <= k < |items| ==>
      r[k] == IssueRecord(firstId + k, member, items[k].copy, today, today + LendingPeriodDays, None, Some(0))
  {
    if items == [] then []
    else NewIssueRecords(firstId, member, items[..|items| - 1], today)
         + [IssueRecord(firstId + |items| - 1, member, items[|items| - 1].copy, today, today + LendingPeriodDays, None, Some(0))]
  }

  lemma MarkIssuedSnoc(cs: seq<BookCopy>, items: seq<CartItem>, x: CartItem)
    requires x.copy < |cs|
    ensures var prev := MarkIssued(cs, items);
      MarkIssued(cs, items + [x]) == prev[x.copy := prev[x.copy].(status := Issued)]
  {
    assert (items + [x])[..|items|] == items;
  }

  lemma NewIssueRecordsSnoc(firstId: nat, member: nat, items: seq<CartItem>, x: CartItem, today: Date)
    ensures NewIssueRecords(firstId, member, items + [x], today)
         == NewIssueRecords(firstId, member, items, today)
            + [IssueRecord(firstId + |items|, member, x.copy, today, today + LendingPeriodDays, None, Some(0))]
  {
    assert (items + [x])[..|items|] == items;
  }

  /** Every item refers to a copy of a table with `n` rows. */
  ghost predicate CopiesInRange(items: seq<CartItem>, n: nat)
  {
    forall k :: 0 <= k < |items| ==> items[k].copy < n
  }

  /** The position of the first item whose copy is not AVAILABLE. */
  function FirstUnavailable(cs: seq<BookCopy>, items: seq<CartItem>): (r: Option<nat>)
    requires CopiesInRange(items, |cs|)
    ensures r.Some? ==> r.value < |items| && cs[items[r.value].copy].status != Available
    ensures r.Some? ==> forall k :: 0 <= k < r.value ==> cs[items[k].copy].status == Available
    ensures r.None? <==> forall k :: 0 <= k < |items| ==> cs[items[k].copy].status == Available
  {
    if items == [] then None
    else if cs[items[0].copy].status != Available then Some(0)
    else match FirstUnavailable(cs, items[1..])
      case None => None
      case Some(k) => Some(k + 1)
  }

  /** Item `i` is the first whose copy is not AVAILABLE. */
  lemma {:induction false} FirstUnavailableAt(cs: seq<BookCopy>, items: seq<CartItem>, i: nat)
    requires CopiesInRange(items, |cs|)
    requires i < |items| && cs[items[i].copy].status != Available
    requires forall k :: 0 <= k < i ==> cs[items[k].copy].status == Available
    ensures FirstUnavailable(cs, items) == Some(i)
  {
    if i > 0 {
      FirstUnavailableAt(cs, items[1..], i - 1);
    }
  }

  /** The items of one member's cart refer to existing copies and hold distinct copies. */
  lemma MemberCartFacts(items: seq<CartItem>, nextId: nat, memberCount: nat, copyCount: nat,
                         member: nat, cart: seq<CartItem>)
    requires CartValid(items, nextId, memberCount, copyCount)
    requires cart == FindByMember(items, member)
    ensures CopiesInRange(cart, copyCount)
    ensures forall k :: 0 <= k < |cart| ==> cart[k].member == member
    ensures KeysDistinct(cart, CartItemCopy)
  {
    forall k | 0 <= k < |cart| ensures cart[k].copy < copyCount && cart[k].member == member {
      assert cart[k] in cart;
      var i :| 0 <= i < |items| && items[i] == cart[k];
    }
    assert KeysDistinct(items, CartItemCopy);
    FilterKeepsKeysDistinct(items, (x: CartItem) => x.member == member, CartItemCopy);
  }

  /** Issuing the copies of a cart whose copies are all AVAILABLE keeps the issue table valid. */
  lemma CheckoutKeepsIssuesValid(rs: seq<IssueRecord>, memberCount: nat, cs: seq<BookCopy>,
                                 cart: seq<CartItem>, member: nat, today: Date)
    requires IssuesValid(rs, memberCount, cs) && member < memberCount
    requires forall k :: 0 <= k < |cart| ==> cart[k].copy < |cs| && cs[cart[k].copy].status == Available
    requires KeysDistinct(cart, CartItemCopy)
    ensures IssuesValid(rs + NewIssueRecords(|rs|, member, cart, today), memberCount, MarkIssued(cs, cart))
  {
    var added := NewIssueRecords(|rs|, member, cart, today);
    var rs', cs' := rs + added, MarkIssued(cs, cart);
    forall i | 0 <= i < |rs'| && rs'[i].returnDate.None? ensures cs'[rs'[i].copy].status == Issued {
      if i >= |rs| {
        assert cart[i - |rs|].copy in CartCopies(cart);
      } else if rs[i].copy in CartCopies(cart) {
        assert cs'[rs[i].copy] == cs[rs[i].copy].(status := Issued);
      }
    }
    forall i, j | 0 <= i < j < |rs'| && rs'[i].returnDate.None? && rs'[j].returnDate.None?
      ensures rs'[i].copy != rs'[j].copy
    {
      if j >= |rs| && i >= |rs| {
        assert CartItemCopy(cart[i - |rs|]) != CartItemCopy(cart[j - |rs|]);
      } else if j >= |rs| {
        assert cs[rs[i].copy].status == Issued;
      }
    }
  }

  /** Recording a membership payment of an existing member keeps the payment table valid. */
  lemma MembershipPaymentKeepsValid(ps: seq<Payment>, memberCount: nat, m: nat, now: Instant, due: Date)
    requires PaymentsValid(ps, memberCount) && m < memberCount
    ensures PaymentsValid(ps + [Payment(|ps|, m, MembershipFee, MembershipPayment, now, Some(due))], memberCount)
  {
  }

  /** Committing a checkout whose cart copies are all AVAILABLE keeps the database valid. */
  lemma CheckoutCommitKeepsValid(
    members: seq<Member>, books: seq<Book>, copies: seq<BookCopy>, cartItems: seq<CartItem>,
    nextId: nat, issues: seq<IssueRecord>, payments: seq<Payment>,
    m: nat, today: Date, payments': seq<Payment>)
    requires TablesValid(members, books, copies, cartItems, nextId, issues, payments)
    requires m < |members| && PaymentsValid(payments', |members|)
    requires CopiesInRange(FindByMember(cartItems, m), |copies|)
    requires FirstUnavailable(copies, FindByMember(cartItems, m)).None?
    ensures var cart := FindByMember(cartItems, m);
      TablesValid(members, books, MarkIssued(copies, cart), WithoutMember(cartItems, m), nextId,
                  issues + NewIssueRecords(|issues|, m, cart, today), payments')
  {
    var cart := FindByMember(cartItems, m);
    MemberCartFacts(cartItems, nextId, |members|, |copies|, m, cart);
    CheckoutKeepsIssuesValid(issues, |members|, copies, cart, m, today);
    WithoutMemberKeepsCartValid(cartItems, nextId, |members|, |copies|, m);
  }

  /** One turn of the checkout loop: the copy is untouched so far, and the staged tables grow by that item. */
  lemma IssueStep(copies0: seq<BookCopy>, cart: seq<CartItem>, i: nat, firstId: nat, member: nat, today: Date)
    requires CopiesInRange(cart, |copies0|) && KeysDistinct(cart, CartItemCopy) && i < |cart|
    ensures var c := cart[i].copy;
      var prev := MarkIssued(copies0, cart[..i]);
      && c < |prev| && prev[c] == copies0[c]
      && MarkIssued(copies0, cart[..i + 1]) == prev[c := prev[c].(status := Issued)]
      && NewIssueRecords(firstId, member, cart[..i + 1], today)
         == NewIssueRecords(firstId, member, cart[..i], today)
            + [IssueRecord(firstId + i, member, c, today, today + LendingPeriodDays, None, Some(0))]
  {
    NotInEarlierItems(cart, i);
    assert cart[..i + 1] == cart[..i] + [cart[i]];
    MarkIssuedSnoc(copies0, cart[..i], cart[i]);
    NewIssueRecordsSnoc(firstId, member, cart[..i], cart[i], today);
  }

  /**
   * The loop of checkoutAndBorrowFromCart over the cart: each copy must still be AVAILABLE, is set
   * to ISSUED and gets an issue record. It stops at the first copy that is not AVAILABLE, whose
   * position it returns in `bad`; the staged tables are meaningful only when `bad` is None.
   */
  method IssueCartCopies(copies0: seq<BookCopy>, cart: seq<CartItem>, firstId: nat, member: nat, today: Date)
    returns (bad: Option<nat>, copies: seq<BookCopy>, newIssues: seq<IssueRecord>)
    requires CopiesInRange(cart, |copies0|)
    requires KeysDistinct(cart, CartItemCopy)
    ensures bad == FirstUnavailable(copies0, cart)
    ensures bad.None? ==> copies == MarkIssued(copies0, cart)
    ensures bad.None? ==> newIssues == NewIssueRecords(firstId, member, cart, today)
  {
    copies := copies0;
    newIssues := [];
    var i := 0;
    while i < |cart|
      invariant 0 <= i <= |cart|
      invariant copies == MarkIssued(copies0, cart[..i])
      invariant newIssues == NewIssueRecords(firstId, member, cart[..i], today)
      invariant forall k :: 0 <= k < i ==> copies0[cart[k].copy].status == Available
    {
      var c := cart[i].copy;
      IssueStep(copies0, cart, i, firstId, member, today);
      if copies[c].status != Available {
        FirstUnavailableAt(copies0, cart, i);
        return Some(i), copies, newIssues;
      }
      copies := copies[c := copies[c].(status := Issued)];
      newIssues := newIssues + [IssueRecord(firstId + i, member, c, today, today + LendingPeriodDays, None, Some(0))];
      i := i + 1;
    }
    assert cart[..i] == cart;
    bad := None;
  }

  /** Why checkoutAndBorrowFromCart throws, in the order it checks; None when it goes through. */
  function CheckoutFailure(members: seq<Member>, books: seq<Book>, copies: seq<BookCopy>,
                           cartItems: seq<CartItem>, nextId: nat, email: string): (f: Option<Failure>)
    requires CopiesValid(copies, |books|) && CartValid(cartItems, nextId, |members|, |copies|)
    ensures f.None? <==>
      && FindByEmail(members, email).Some?
      && var cart := FindByMember(cartItems, FindByEmail(members, email).value);
      && cart != []
      && forall x :: x in cart ==> x.copy < |copies| && copies[x.copy].status == Available
  {
    match FindByEmail(members, email)
    case None => Some(MemberNotFound(email))
    case Some(m) =>
      var cart := FindByMember(cartItems, m);
      MemberCartFacts(cartItems, nextId, |members|, |copies|, m, cart);
      if cart == [] then Some(Failure(Rejected, "Your cart is empty."))
      else match FirstUnavailable(copies, cart)
        case Some(k) =>
          var c := cart[k].copy;
          Some(NoLongerAvailable(books[copies[c].book].name, c))
        case None => None
  }

  /**
   * The membership step of checkoutAndBorrowFromCart: unless the membership is active, the fee is
   * charged, its line is added to the payment details and a MEMBERSHIP payment due `monthLater` is
   * recorded.
   */
  method ChargeMembershipIfDue(payments: seq<Payment>, m: nat, today: Date, now: Instant, monthLater: Date)
    returns (totalAmountToPay: Money, paymentDetails: string, payments': seq<Payment>)
    ensures MembershipActive(payments, m, today) ==>
      totalAmountToPay == 0 && paymentDetails == "" && payments' == payments
    ensures !MembershipActive(payments, m, today) ==>
      && totalAmountToPay == MembershipFee && paymentDetails == MembershipFeeDetails
      && payments' == payments + [Payment(|payments|, m, MembershipFee, MembershipPayment, now, Some(monthLater))]
  {
    totalAmountToPay := 0;
    paymentDetails := "";
    payments' := payments;
    if !MembershipActive(payments, m, today) {
      totalAmountToPay := totalAmountToPay + MembershipFee;
      paymentDetails := paymentDetails + MembershipFeeDetails;
      payments' := payments' + [Payment(|payments|, m, MembershipFee, MembershipPayment, now, Some(monthLater))];
    }
  }

  /** The tables a successful checkout writes, with its response. */
  datatype StagedCheckout = StagedCheckout(
    response: CheckoutResponse, copies: seq<BookCopy>, issues: seq<IssueRecord>,
    payments: seq<Payment>, cartItems: seq<CartItem>)

  /**
   * What a checkout by member `m` writes when it goes through: every copy in the cart becomes
   * ISSUED with a record due LENDING_PERIOD_DAYS later, the cart is emptied, and a MEMBERSHIP
   * payment due `monthLater` is recorded unless the membership is active.
   */
  function CheckoutPlan(members: seq<Member>, copies: seq<BookCopy>, cartItems: seq<CartItem>,
                        issues: seq<IssueRecord>, payments: seq<Payment>,
                        m: nat, today: Date, now: Instant, monthLater: Date): StagedCheckout
  {
    var cart := FindByMember(cartItems, m);
    var active := MembershipActive(payments, m, today);
    var issued := NewIssueRecords(|issues|, m, cart, today);
    StagedCheckout(
      CheckoutResponse(SuccessStatus, issued,
                       if active then 0 else MembershipFee,
                       if active then NoPaymentDetails else MembershipFeeDetails),
      MarkIssued(copies, cart),
      issues + issued,
      payments + (if active then [] else [Payment(|payments|, m, MembershipFee, MembershipPayment, now, Some(monthLater))]),
      WithoutMember(cartItems, m))
  }

  /** After a checkout the member's membership is active and the member's cart is empty. */
  lemma {:induction false} CheckoutPlanEffects(members: seq<Member>, copies: seq<BookCopy>, cartItems: seq<CartItem>,
                                               issues: seq<IssueRecord>, payments: seq<Payment>,
                                               m: nat, today: Date, now: Instant, monthLater: Date)
    requires PaymentsValid(payments, |members|) && m < |members|
    requires today < monthLater
    ensures var plan := CheckoutPlan(members, copies, cartItems, issues, payments, m, today, now, monthLater);
      && MembershipActive(plan.payments, m, today)
      && FindByMember(plan.cartItems, m) == []
      && plan.response.borrowedBooks == plan.issues[|issues|..]
  {
    var plan := CheckoutPlan(members, copies, cartItems, issues, payments, m, today, now, monthLater);
    if !MembershipActive(payments, m, today) {
      var fee := Payment(|payments|, m, MembershipFee, MembershipPayment, now, Some(monthLater));
      MembershipPaymentKeepsValid(payments, |members|, m, now, monthLater);
      MembershipActiveIff(plan.payments, |members|, m, today);
      assert plan.payments[|payments|] == fee;
    }
    WithoutMemberEffect(cartItems, m, m);
  }

  /** The staged pieces of a checkout that went through make up its plan. */
  lemma StagedIsPlan(members: seq<Member>, copies: seq<BookCopy>, cartItems: seq<CartItem>,
                     issues: seq<IssueRecord>, payments: seq<Payment>,
                     m: nat, today: Date, now: Instant, monthLater: Date,
                     amount: Money, details: string, payments': seq<Payment>,
                     copies': seq<BookCopy>, newIssues: seq<IssueRecord>)
    requires MembershipActive(payments, m, today) ==> amount == 0 && details == "" && payments' == payments
    requires !MembershipActive(payments, m, today) ==>
      && amount == MembershipFee && details == MembershipFeeDetails
      && payments' == payments + [Payment(|payments|, m, MembershipFee, MembershipPayment, now, Some(monthLater))]
    requires copies' == MarkIssued(copies, FindByMember(cartItems, m))
    requires newIssues == NewIssueRecords(|issues|, m, FindByMember(cartItems, m), today)
    ensures StagedCheckout(
              CheckoutResponse(SuccessStatus, newIssues, amount, if details == "" then NoPaymentDetails else details),
              copies', issues + newIssues, payments', WithoutMember(cartItems, m))
         == CheckoutPlan(members, copies, cartItems, issues, payments, m, today, now, monthLater)
  {
    if MembershipActive(payments, m, today) {
      assert payments + [] == payments;
    }
  }

  /**
   * The body of checkoutAndBorrowFromCart, with its writes staged rather than applied: the member's
   * cart must be non-empty; a MEMBERSHIP payment is recorded unless the membership is active; each
   * copy is issued for LENDING_PERIOD_DAYS and the cart is cleared.
   */
  method StageCheckout(
    members: seq<Member>, books: seq<Book>, copies: seq<BookCopy>, cartItems: seq<CartItem>,
    nextId: nat, issues: seq<IssueRecord>, payments: seq<Payment>,
    email: string, today: Date, now: Instant, monthLater: Date)
    returns (r: Result<StagedCheckout>)
    requires TablesValid(members, books, copies, cartItems, nextId, issues, payments)
    requires today < monthLater
    ensures r.Err? <==> CheckoutFailure(members, books, copies, cartItems, nextId, email).Some?
    ensures r.Err? ==> r.error == CheckoutFailure(members, books, copies, cartItems, nextId, email).value
    ensures r.Ok? ==>
      r.value == CheckoutPlan(members, copies, cartItems, issues, payments,
                              FindByEmail(members, email).value, today, now, monthLater)
    ensures r.Ok? ==> TablesValid(members, books, r.value.copies, r.value.cartItems,
                                  nextId, r.value.issues, r.value.payments)
  {
    var found := FindByEmail(members, email);
    if found.None? {
      return Err(MemberNotFound(email));
    }
    var m := found.value;
    var cart := FindByMember(cartItems, m);
    if cart == [] {
      return Err(Failure(Rejected, "Your cart is empty."));
    }
    MemberCartFacts(cartItems, nextId, |members|, |copies|, m, cart);

    var totalAmountToPay, paymentDetails, payments' := ChargeMembershipIfDue(payments, m, today, now, monthLater);

    var bad, copies', newIssues := IssueCartCopies(copies, cart, |issues|, m, today);
    if bad.Some? {
      var c := cart[bad.value].copy;
      return Err(NoLongerAvailable(books[copies[c].book].name, c));
    }

    MembershipPaymentKeepsValid(payments, |members|, m, now, monthLater);
    CheckoutCommitKeepsValid(members, books, copies, cartItems, nextId,
                             issues, payments, m, today, payments');
    StagedIsPlan(members, copies, cartItems, issues, payments, m, today, now, monthLater,
                 totalAmountToPay, paymentDetails, payments', copies', newIssues);
    var response := CheckoutResponse(SuccessStatus, newIssues, totalAmountToPay,
                                     if paymentDetails == "" then NoPaymentDetails else paymentDetails);
    r := Ok(StagedCheckout(response, copies', issues + newIssues, payments', WithoutMember(cartItems, m)));
  }

  /**
   * checkoutAndBorrowFromCart. The writes are staged and committed together at the end, which is
   * what the transaction's rollback on an exception amounts to.
   */
  method CheckoutAndBorrowFromCart(db: Store, email: string, today: Date, now: Instant, monthLater: Date)
    returns (r: Result<CheckoutResponse>)
    requires db.Valid()
    requires today < monthLater
    modifies db
    ensures db.Valid()
    ensures r.Err? <==> CheckoutFailure(old(db.members), old(db.books), old(db.copies), old(db.cartItems), old(db.nextCartItemId), email).Some?
    ensures r.Err? ==> r.error == CheckoutFailure(old(db.members), old(db.books), old(db.copies), old(db.cartItems), old(db.nextCartItemId), email).value
    ensures r.Err? ==> unchanged(db)
    ensures r.Ok? ==>
      var plan := CheckoutPlan(old(db.members), old(db.copies), old(db.cartItems), old(db.issues), old(db.payments),
                               FindByEmail(old(db.members), email).value, today, now, monthLater);
      && r.value == plan.response
      && db.copies == plan.copies && db.issues == plan.issues
      && db.payments == plan.payments && db.cartItems == plan.cartItems
      && db.members == old(db.members) && db.books == old(db.books)
      && db.nextCartItemId == old(db.nextCartItemId)
  {
    var staged := StageCheckout(db.members, db.books, db.copies, db.cartItems, db.nextCartItemId,
                                db.issues, db.payments, email, today, now, monthLater);
    if staged.Err? {
      return Err(staged.error);
    }
    var s := staged.value;
    db.Commit(s.copies, s.issues, s.payments, s.cartItems);
    r := Ok(s.response);
  }
}
