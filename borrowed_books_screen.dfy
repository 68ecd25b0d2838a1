/**
 * BorrowedBooksScreen: how many days each borrowed book has left, and the standing derived from
 * that number.
 */
module BorrowedBooksScreen {
  import opened Wrappers
  import opened Text
  import opened ApiClient
  import opened FinesScreen

  /** `Math.ceil(a / b)` for a positive divisor. */
  function CeilDiv(a: int, b: int): (q: int)
    requires b > 0
    ensures q * b - b < a <= q * b
  {
    -((-a) / b)
  }

  /**
   * `daysRemaining`: the due instant minus now, in days, rounded up. A value of 0 also stands for
   * JavaScript's -0, which compares and prints like 0.
   */
  function DaysRemaining(dueDate: int, now: int): int
  {
    CeilDiv(dueDate - now, DayMs)
  }

  datatype Standing = Good | Warning | Danger

  /** The status chosen by the if/else chain: below 0 overdue, up to 3 due soon, else good. */
  function StandingOf(daysRemaining: int): Standing
  {
    if daysRemaining < 0 then Danger
    else if daysRemaining <= 3 then Warning
    else Good
  }

  function StandingText(s: Standing): string
  {
    match s
    case Good => "Good Standing"
    case Warning => "Due Soon"
    case Danger => "Overdue"
  }

  /**
   * What the standing says about the instants: overdue exactly when at least a full day has
   * passed since the due instant, due soon from then up to three days ahead, good beyond.
   */
  lemma StandingMeaning(dueDate: int, now: int)
    ensures StandingOf(DaysRemaining(dueDate, now)) == Danger <==> now - dueDate >= DayMs
    ensures StandingOf(DaysRemaining(dueDate, now)) == Warning <==>
      -DayMs < dueDate - now <= 3 * DayMs
    ensures StandingOf(DaysRemaining(dueDate, now)) == Good <==> dueDate - now > 3 * DayMs
  {
  }

  /** A book less than a day past its due instant has 0 days left and is due soon, not overdue. */
  lemma FirstLateDayIsWarning(dueDate: int, now: int)
    requires dueDate < now < dueDate + DayMs
    ensures DaysRemaining(dueDate, now) == 0
    ensures StandingOf(DaysRemaining(dueDate, now)) == Warning
  {
    StandingMeaning(dueDate, now);
  }

  /**
   * A book this screen marks overdue is one the fines screen charges for: it is in the overdue
   * list and costs at least one day's fine.
   */
  lemma DangerIsFined(items: seq<BorrowedItem>, now: int, k: nat)
    requires k < |items| && items[k].returnDate.None?
    requires StandingOf(DaysRemaining(items[k].dueDate, now)) == Danger
    ensures items[k] in OverdueBooks(items, now)
    ensures ItemFine(items[k], now) >= FinePerDay
  {
    StandingMeaning(items[k].dueDate, now);
    ItemFineBounds(items[k], now);
  }

  const OverdueByPrefix: string := "Overdue by "

  /** The "Days Remaining" value: the number itself, or "Overdue by" and its magnitude. */
  function DaysLabel(daysRemaining: int): string
  {
    if daysRemaining >= 0 then NatToString(daysRemaining)
    else OverdueByPrefix + NatToString(-daysRemaining)
  }

  /** The label gives the number back: its digits read as the days left, or as the days late. */
  lemma DaysLabelReadsBack(d: int)
    ensures d >= 0 ==> IsNumeral(DaysLabel(d)) && ParseNat(DaysLabel(d)) == d
    ensures d < 0 ==>
      var l := DaysLabel(d);
      && |l| > |OverdueByPrefix| && l[..|OverdueByPrefix|] == OverdueByPrefix
      && IsNumeral(l[|OverdueByPrefix|..]) && ParseNat(l[|OverdueByPrefix|..]) == -d
  {
    if d >= 0 {
      NatToStringRoundTrip(d);
    } else {
      var l := DaysLabel(d);
      assert l[|OverdueByPrefix|..] == NatToString(-d);
      NatToStringRoundTrip(-d);
    }
  }

  /** A string of decimal digits. */
  predicate IsNumeral(s: string)
  {
    forall i :: 0 <= i < |s| ==> IsDigit(s[i])
  }
}
