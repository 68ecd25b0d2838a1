/** IssueRecordRepository's derived queries over the issue-record table. */
module IssueRecordRepository {
  import opened Wrappers
  import opened Entities
  import opened Seqs
  import opened LibraryStore

  predicate Unreturned(r: IssueRecord)
  {
    r.returnDate.None?
  }

  function IssueDateOf(r: IssueRecord): int
  {
    r.issueDate
  }

  /** findByBookCopyAndReturnDateIsNull: the active record of a copy, if any. */
  function FindByBookCopyAndReturnDateIsNull(rs: seq<IssueRecord>, copy: nat): (r: Option<IssueRecord>)
    ensures r.Some? ==> r.value in rs && r.value.copy == copy && r.value.returnDate.None?
    ensures r.None? <==> forall x :: x in rs ==> !(x.copy == copy && x.returnDate.None?)
  {
    var active := Filter(rs, (x: IssueRecord) => x.copy == copy && x.returnDate.None?);
    if active == [] then None else assert active[0] in active; Some(active[0])
  }

  /** In a valid store the active record of a copy is unique, and its id is its position. */
  lemma ActiveRecordUnique(rs: seq<IssueRecord>, memberCount: nat, cs: seq<BookCopy>, copy: nat)
    requires IssuesValid(rs, memberCount, cs)
    requires FindByBookCopyAndReturnDateIsNull(rs, copy).Some?
    ensures var x := FindByBookCopyAndReturnDateIsNull(rs, copy).value;
      && x.id < |rs| && rs[x.id] == x
      && forall i :: 0 <= i < |rs| && rs[i].copy == copy && rs[i].returnDate.None? ==> i == x.id
  {
    var x := FindByBookCopyAndReturnDateIsNull(rs, copy).value;
    var k :| 0 <= k < |rs| && rs[k] == x;
    assert x.id == k;
  }

  /** findByDueDateBeforeAndReturnDateIsNull: the unreturned records due strictly before `date`. */
  function FindByDueDateBeforeAndReturnDateIsNull(rs: seq<IssueRecord>, date: Date): (r: seq<IssueRecord>)
    ensures forall x :: multiset(r)[x] == if x.dueDate < date && x.returnDate.None? then multiset(rs)[x] else 0
    ensures forall x :: x in r <==> x in rs && x.dueDate < date && x.returnDate.None?
  {
    Filter(rs, (x: IssueRecord) => x.dueDate < date && x.returnDate.None?)
  }

  /** findByMemberOrderByIssueDateDesc: the member's records, latest issue date first. */
  function FindByMemberOrderByIssueDateDesc(rs: seq<IssueRecord>, member: nat): (r: seq<IssueRecord>)
    ensures forall x :: multiset(r)[x] == if x.member == member then multiset(rs)[x] else 0
    ensures forall x :: x in r <==> x in rs && x.member == member
    ensures SortedDesc(r, IssueDateOf)
  {
    SortDesc(Filter(rs, (x: IssueRecord) => x.member == member), IssueDateOf)
  }

  /** findByMemberAndReturnDateIsNull: the member's unreturned records. */
  function FindByMemberAndReturnDateIsNull(rs: seq<IssueRecord>, member: nat): (r: seq<IssueRecord>)
    ensures forall x :: multiset(r)[x] == if x.member == member && x.returnDate.None? then multiset(rs)[x] else 0
    ensures forall x :: x in r <==> x in rs && x.member == member && x.returnDate.None?
  {
    Filter(rs, (x: IssueRecord) => x.member == member && x.returnDate.None?)
  }

  /** The unreturned records are the history with the returned ones dropped, up to order. */
  lemma ActiveIsFilteredHistory(rs: seq<IssueRecord>, member: nat)
    ensures multiset(FindByMemberAndReturnDateIsNull(rs, member))
         == multiset(Filter(FindByMemberOrderByIssueDateDesc(rs, member), Unreturned))
    ensures |FindByMemberAndReturnDateIsNull(rs, member)|
         == |Filter(FindByMemberOrderByIssueDateDesc(rs, member), Unreturned)|
  {
    var a := FindByMemberAndReturnDateIsNull(rs, member);
    var b := Filter(FindByMemberOrderByIssueDateDesc(rs, member), Unreturned);
    assert forall x :: multiset(a)[x] == multiset(b)[x];
    assert multiset(a) == multiset(b);
    assert |multiset(a)| == |a| && |multiset(b)| == |b|;
  }
}
