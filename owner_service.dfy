/** OwnerService: the key figures on the owner's dashboard. */
module OwnerService {
  import opened Entities
  import opened Seqs
  import opened LibraryStore
  import opened IssueRecordRepository

  /** DashboardKpiDTO; `activeMembers` is never filled in, so it keeps the default 0. */
  datatype DashboardKpis = DashboardKpis(
    totalMembers: nat, activeMembers: nat, totalBooks: nat, totalCopies: nat,
    issuedCopies: nat, totalAssetValue: Money)

  /** The sum of the book prices, starting from zero. */
  function TotalAssetValue(bs: seq<Book>): Money
  {
    if bs == [] then 0 else TotalAssetValue(bs[..|bs| - 1]) + bs[|bs| - 1].price
  }

  /** getDashboardKpis */
  function GetDashboardKpis(members: seq<Member>, books: seq<Book>, copies: seq<BookCopy>,
                            issues: seq<IssueRecord>): (k: DashboardKpis)
    ensures k.totalMembers == |members| && k.totalBooks == |books| && k.totalCopies == |copies|
    ensures k.totalAssetValue == TotalAssetValue(books)
    ensures k.activeMembers == 0
    ensures k.issuedCopies <= |issues|
    ensures k.issuedCopies == 0 <==> forall x :: x in issues ==> x.returnDate.Some?
  {
    var unreturned := Filter(issues, Unreturned);
    assert unreturned != [] ==> unreturned[0] in unreturned;
    DashboardKpis(|members|, 0, |books|, |copies|, |unreturned|, TotalAssetValue(books))
  }

  /** With every price positive, the asset value is at least one hundredth per book, and zero only for an empty catalogue. */
  lemma {:induction false} AssetValueBounds(bs: seq<Book>)
    requires BooksValid(bs)
    ensures TotalAssetValue(bs) >= |bs|
    ensures TotalAssetValue(bs) == 0 <==> bs == []
  {
    if bs != [] {
      AssetValueBounds(bs[..|bs| - 1]);
    }
  }

  /** Adding a book raises the asset value by its price. */
  lemma AddingBookRaisesAssetValue(bs: seq<Book>, b: Book)
    ensures TotalAssetValue(bs + [b]) == TotalAssetValue(bs) + b.price
  {
    assert (bs + [b])[..|bs|] == bs;
  }

  /** The copies held by the unreturned records of `rs`. */
  function UnreturnedCopies(rs: seq<IssueRecord>): set<nat>
  {
    if rs == [] then {}
    else UnreturnedCopies(rs[..|rs| - 1]) + (if rs[|rs| - 1].returnDate.None? then {rs[|rs| - 1].copy} else {})
  }

  /** The numbers below `n`. */
  function Below(n: nat): (r: set<nat>)
    ensures |r| == n
    ensures forall i: nat :: i in r <==> i < n
  {
    if n == 0 then {} else Below(n - 1) + {n - 1}
  }

  lemma {:induction false} SubsetSize(a: set<nat>, b: set<nat>)
    requires a <= b
    ensures |a| <= |b|
    decreases |b|
  {
    if a != {} {
      var x :| x in a;
      SubsetSize(a - {x}, b - {x});
    }
  }

  /**
   * Unreturned records hold distinct copies, one each: there are as many unreturned records as
   * copies they hold.
   */
  lemma {:induction false} UnreturnedCount(rs: seq<IssueRecord>, n: nat)
    requires forall i :: 0 <= i < |rs| ==> rs[i].copy < n
    requires forall i, j :: 0 <= i < j < |rs| && rs[i].returnDate.None? && rs[j].returnDate.None? ==>
      rs[i].copy != rs[j].copy
    ensures |Filter(rs, Unreturned)| == |UnreturnedCopies(rs)|
    ensures UnreturnedCopies(rs) <= Below(n)
  {
    if rs != [] {
      var init, last := rs[..|rs| - 1], rs[|rs| - 1];
      UnreturnedCount(init, n);
      if last.returnDate.None? {
        if last.copy in UnreturnedCopies(init) {
          var i := UnreturnedAt(init, last.copy);
        }
      }
    }
  }

  /** A position of an unreturned record holding `c`. */
  lemma {:induction false} UnreturnedAt(rs: seq<IssueRecord>, c: nat) returns (i: nat)
    requires c in UnreturnedCopies(rs)
    ensures i < |rs| && rs[i].copy == c && rs[i].returnDate.None?
  {
    var init := rs[..|rs| - 1];
    if c in UnreturnedCopies(init) {
      i := UnreturnedAt(init, c);
    } else {
      i := |rs| - 1;
    }
  }

  /** In a valid store no more copies are out on loan than exist. */
  lemma IssuedNotAboveCopies(rs: seq<IssueRecord>, memberCount: nat, cs: seq<BookCopy>)
    requires IssuesValid(rs, memberCount, cs)
    ensures |Filter(rs, Unreturned)| <= |cs|
  {
    UnreturnedCount(rs, |cs|);
    SubsetSize(UnreturnedCopies(rs), Below(|cs|));
  }

  /** The owner's figures in a valid store: loans within copies, and asset value within prices. */
  lemma KpisInValidStore(members: seq<Member>, books: seq<Book>, copies: seq<BookCopy>, cartItems: seq<CartItem>,
                         nextId: nat, issues: seq<IssueRecord>, payments: seq<Payment>)
    requires TablesValid(members, books, copies, cartItems, nextId, issues, payments)
    ensures var k := GetDashboardKpis(members, books, copies, issues);
      && k.issuedCopies <= k.totalCopies
      && k.totalAssetValue >= k.totalBooks
      && (k.totalAssetValue == 0 <==> k.totalBooks == 0)
  {
    IssuedNotAboveCopies(issues, |members|, copies);
    AssetValueBounds(books);
  }
}
