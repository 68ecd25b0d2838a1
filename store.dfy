/**
 * The database behind the Spring Data repositories: one table per entity. Members, books,
 * copies, issue records and payments are never deleted, so an identity-generated id is the
 * row's position; cart items are deleted, so their ids come from a counter.
 */
module LibraryStore {
  import opened Wrappers
  import opened Entities
  import opened Seqs

  ghost predicate MembersValid(ms: seq<Member>)
  {
    && (forall i :: 0 <= i < |ms| ==> ms[i].id == i)
    && (forall i, j :: 0 <= i < j < |ms| ==> ms[i].email != ms[j].email)
  }

  ghost predicate BooksValid(bs: seq<Book>)
  {
    forall i :: 0 <= i < |bs| ==> bs[i].id == i && bs[i].price > 0
  }

  ghost predicate CopiesValid(cs: seq<BookCopy>, bookCount: nat)
  {
    forall i :: 0 <= i < |cs| ==> cs[i].id == i && cs[i].book < bookCount
  }

  /** Every cart item refers to a member and a copy; ids are fresh; a copy sits in one cart at most. */
  ghost predicate CartValid(items: seq<CartItem>, nextId: nat, memberCount: nat, copyCount: nat)
  {
    && (forall i :: 0 <= i < |items| ==>
          items[i].id < nextId && items[i].member < memberCount && items[i].copy < copyCount)
    && (forall i, j :: 0 <= i < j < |items| ==> items[i].id != items[j].id && items[i].copy != items[j].copy)
  }

  /** An unreturned record holds its copy ISSUED, and no copy has two unreturned records. */
  ghost predicate IssuesValid(rs: seq<IssueRecord>, memberCount: nat, cs: seq<BookCopy>)
  {
    && (forall i :: 0 <= i < |rs| ==> rs[i].id == i && rs[i].member < memberCount && rs[i].copy < |cs|)
    && (forall i :: 0 <= i < |rs| && rs[i].returnDate.None? ==> cs[rs[i].copy].status == Issued)
    && (forall i, j :: 0 <= i < j < |rs| && rs[i].returnDate.None? && rs[j].returnDate.None? ==>
          rs[i].copy != rs[j].copy)
  }

  /** Payments refer to members, and a MEMBERSHIP payment always carries its due date. */
  ghost predicate PaymentsValid(ps: seq<Payment>, memberCount: nat)
  {
    forall i :: 0 <= i < |ps| ==>
      && ps[i].id == i && ps[i].member < memberCount
      && (ps[i].kind == MembershipPayment ==> ps[i].dueDate.Some?)
  }

  /** The invariant of the whole database. */
  ghost predicate TablesValid(
    members: seq<Member>, books: seq<Book>, copies: seq<BookCopy>, cartItems: seq<CartItem>,
    nextCartItemId: nat, issues: seq<IssueRecord>, payments: seq<Payment>)
  {
    && MembersValid(members)
    && BooksValid(books)
    && CopiesValid(copies, |books|)
    && CartValid(cartItems, nextCartItemId, |members|, |copies|)
    && IssuesValid(issues, |members|, copies)
    && PaymentsValid(payments, |members|)
  }

  class Store {
    var members: seq<Member>
    var books: seq<Book>
    var copies: seq<BookCopy>
    var cartItems: seq<CartItem>
    var nextCartItemId: nat
    var issues: seq<IssueRecord>
    var payments: seq<Payment>

    ghost predicate Valid()
      reads this
    {
      TablesValid(members, books, copies, cartItems, nextCartItemId, issues, payments)
    }

    constructor ()
      ensures Valid()
      ensures members == [] && books == [] && copies == [] && cartItems == []
      ensures issues == [] && payments == []
    {
      members, books, copies, cartItems := [], [], [], [];
      nextCartItemId := 0;
      issues, payments := [], [];
    }

    /** Writes the tables a transaction changed, all at once; members, books and the id counter stay. */
    method Commit(copies': seq<BookCopy>, issues': seq<IssueRecord>, payments': seq<Payment>, cartItems': seq<CartItem>)
      requires TablesValid(members, books, copies', cartItems', nextCartItemId, issues', payments')
      modifies this
      ensures Valid()
      ensures copies == copies' && issues == issues' && payments == payments' && cartItems == cartItems'
      ensures members == old(members) && books == old(books) && nextCartItemId == old(nextCartItemId)
    {
      copies, issues, payments, cartItems := copies', issues', payments', cartItems';
    }
  }

  /** MemberRepository.findByEmail: the position of the member with that email. */
  function FindByEmail(ms: seq<Member>, email: string): (r: Option<nat>)
    ensures r.Some? ==> r.value < |ms| && ms[r.value].email == email
    ensures r.None? <==> forall i :: 0 <= i < |ms| ==> ms[i].email != email
  {
    FirstIndex(ms, (m: Member) => m.email == email)
  }

  /** With unique emails, the lookup finds the one member holding the email. */
  lemma {:induction false} FindByEmailUnique(ms: seq<Member>, i: nat)
    requires MembersValid(ms) && i < |ms|
    ensures FindByEmail(ms, ms[i].email) == Some(i)
  {
    var r := FindByEmail(ms, ms[i].email);
    assert r.Some?;
    assert ms[r.value].email == ms[i].email;
  }
}
