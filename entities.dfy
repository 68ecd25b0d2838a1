/**
 * The persistent entities of the lending domain, as values.
 * A `LocalDate` is a day number, a `LocalDateTime` an instant number; money is a count of
 * hundredths of a rupee, the scale of the price column, so 5.00 is 500 and 500.00 is 50000.
 */
module Entities {
  import opened Wrappers

  type Date = int
  type Instant = int
  type Money = int

  /** MemberService.LENDING_PERIOD_DAYS and LibrarianService.LENDING_PERIOD_DAYS. */
  const LendingPeriodDays: int := 7
  /** FINE_PER_DAY = 5.00 */
  const FinePerDay: Money := 500
  /** MEMBERSHIP_FEE = 500.00 */
  const MembershipFee: Money := 50000

  datatype Role = RoleOwner | RoleLibrarian | RoleMember

  datatype Member = Member(id: nat, name: string, email: string, phone: string, password: string, role: Role)

  datatype Book = Book(id: nat, name: string, author: string, subject: Option<string>, isbn: string, price: Money)

  datatype BookStatus = Available | Issued

  datatype BookCopy = BookCopy(id: nat, book: nat, rack: string, status: BookStatus)

  datatype CartItem = CartItem(id: nat, member: nat, copy: nat, addedAt: Instant)

  datatype IssueRecord = IssueRecord(
    id: nat, member: nat, copy: nat,
    issueDate: Date, dueDate: Date, returnDate: Option<Date>,
    fine: Option<Money>)

  datatype PaymentType = MembershipPayment | FinePayment

  datatype Payment = Payment(
    id: nat, member: nat, amount: Money, kind: PaymentType,
    transactionTime: Instant, dueDate: Option<Date>)

  /** `ChronoUnit.DAYS.between(from, to)` for dates. */
  function DaysBetween(from: Date, to: Date): int
  {
    to - from
  }

  /** The fine charged for a record whose due date was `due`, on day `today`. */
  function LateFine(due: Date, today: Date): (fine: Money)
    requires due < today
    ensures fine >= FinePerDay
    ensures fine % FinePerDay == 0
  {
    FinePerDay * DaysBetween(due, today)
  }
}

/**
 * A stand-in for the BCrypt `PasswordEncoder`: the encoding tags the raw password, and a raw
 * password matches exactly the encodings made from it.
 */
module Passwords {

  const Tag: string := "{bcrypt}"

  function Encode(raw: string): (hash: string)
    ensures hash != raw
    ensures |hash| == |raw| + |Tag|
  {
    Tag + raw
  }

  predicate Matches(raw: string, hash: string)
  {
    hash == Encode(raw)
  }

  /** A password matches its own encoding, and only the password it was made from matches it. */
  lemma MatchesExactlyItsEncoding(raw: string, other: string)
    ensures Matches(raw, Encode(raw))
    ensures Matches(other, Encode(raw)) <==> other == raw
  {
    if Matches(other, Encode(raw)) {
      assert Encode(other)[|Tag|..] == other;
      assert Encode(raw)[|Tag|..] == raw;
    }
  }
}
