/** PaymentRepository's derived queries, and the membership test the services build on them. */
module PaymentRepository {
  import opened Wrappers
  import opened Entities
  import opened Seqs
  import opened LibraryStore

  /**
   * `a` sorts no later than `b` under `ORDER BY dueDate DESC`, where a missing due date
   * (SQL NULL) is the smallest value and so comes last.
   */
  predicate DueNoEarlier(a: Option<Date>, b: Option<Date>)
  {
    b.None? || (a.Some? && a.value >= b.value)
  }

  function TransactionTimeOf(p: Payment): int
  {
    p.transactionTime
  }

  /** The first payment of `s` whose due date is no earlier than every other one's. */
  function LatestDue(s: seq<Payment>): (r: Option<Payment>)
    ensures r.None? <==> s == []
    ensures r.Some? ==> r.value in s && forall p :: p in s ==> DueNoEarlier(r.value.dueDate, p.dueDate)
  {
    if s == [] then None
    else
      var rest := LatestDue(s[1..]);
      assert s == [s[0]] + s[1..];
      if rest.None? || DueNoEarlier(s[0].dueDate, rest.value.dueDate) then Some(s[0]) else rest
  }

  /** findTopByMemberAndTypeOrderByDueDateDesc: the member's payment of that type due last. */
  function FindTopByMemberAndTypeOrderByDueDateDesc(ps: seq<Payment>, member: nat, kind: PaymentType): (r: Option<Payment>)
    ensures r.None? <==> forall p :: p in ps ==> !(p.member == member && p.kind == kind)
    ensures r.Some? ==>
      && r.value in ps && r.value.member == member && r.value.kind == kind
      && forall p :: p in ps && p.member == member && p.kind == kind ==> DueNoEarlier(r.value.dueDate, p.dueDate)
  {
    var mine := Filter(ps, (p: Payment) => p.member == member && p.kind == kind);
    assert mine == [] ==> forall p :: p in ps ==> !(p.member == member && p.kind == kind);
    LatestDue(mine)
  }

  /** findByMemberOrderByTransactionTimeDesc: the member's payments, latest first. */
  function FindByMemberOrderByTransactionTimeDesc(ps: seq<Payment>, member: nat): (r: seq<Payment>)
    ensures forall x :: multiset(r)[x] == if x.member == member then multiset(ps)[x] else 0
    ensures forall x :: x in r <==> x in ps && x.member == member
    ensures SortedDesc(r, TransactionTimeOf)
  {
    SortDesc(Filter(ps, (p: Payment) => p.member == member), TransactionTimeOf)
  }

  /**
   * The member's membership is active on `today`: the latest-due MEMBERSHIP payment exists and
   * its due date is after today (a payment without a due date counts as not active).
   */
  predicate MembershipActive(ps: seq<Payment>, member: nat, today: Date)
  {
    match FindTopByMemberAndTypeOrderByDueDateDesc(ps, member, MembershipPayment)
    case None => false
    case Some(p) => p.dueDate.Some? && p.dueDate.value > today
  }

  /** Active exactly when some membership payment of the member runs past today. */
  lemma MembershipActiveIff(ps: seq<Payment>, memberCount: nat, member: nat, today: Date)
    requires PaymentsValid(ps, memberCount)
    ensures MembershipActive(ps, member, today) <==>
      exists i :: 0 <= i < |ps| && ps[i].member == member && ps[i].kind == MembershipPayment
        && ps[i].dueDate.Some? && ps[i].dueDate.value > today
  {
    var top := FindTopByMemberAndTypeOrderByDueDateDesc(ps, member, MembershipPayment);
    if i :| (0 <= i < |ps| && ps[i].member == member && ps[i].kind == MembershipPayment
             && ps[i].dueDate.Some? && ps[i].dueDate.value > today) {
      assert ps[i] in ps;
      assert top.Some?;
      var k :| 0 <= k < |ps| && ps[k] == top.value;
      assert top.value.dueDate.Some?;
    }
    if MembershipActive(ps, member, today) {
      var k :| 0 <= k < |ps| && ps[k] == top.value;
      assert ps[k].dueDate.Some? && ps[k].dueDate.value > today;
    }
  }
}
