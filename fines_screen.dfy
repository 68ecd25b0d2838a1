/**
 * FinesScreen: the fine the member's app estimates for the books still out past their due
 * instant, at five rupees per full day.
 */
module FinesScreen {
  import opened Wrappers
  import opened ApiClient

  /** Milliseconds in a day (1000 * 60 * 60 * 24). */
  const DayMs: int := 86400000

  /** Rupees charged per book and per full day past the due instant. */
  const FinePerDay: int := 5

  /** `Math.floor(a / b)` for a positive divisor. */
  function FloorDiv(a: int, b: int): (q: int)
    requires b > 0
    ensures q * b <= a < q * b + b
  {
    a / b
  }

  /** The filter of `overdueBooks`: not returned, and `now` strictly after the due instant. */
  predicate IsOverdue(item: BorrowedItem, now: int)
  {
    item.returnDate.None? && now > item.dueDate
  }

  /** `overdueBooks`: the overdue items, in the order of the list. */
  function OverdueBooks(items: seq<BorrowedItem>, now: int): (r: seq<BorrowedItem>)
    ensures |r| <= |items|
    ensures forall x :: x in r <==> x in items && IsOverdue(x, now)
  {
    if items == [] then []
    else
      var init, last := items[..|items| - 1], items[|items| - 1];
      assert items == init + [last];
      if IsOverdue(last, now) then OverdueBooks(init, now) + [last] else OverdueBooks(init, now)
  }

  /** `daysOverdue`: the whole days elapsed since the due instant. */
  function DaysOverdue(item: BorrowedItem, now: int): int
  {
    FloorDiv(now - item.dueDate, DayMs)
  }

  /** The fine shown beside one overdue item (`currentFine`). */
  function ItemFine(item: BorrowedItem, now: int): int
  {
    DaysOverdue(item, now) * FinePerDay
  }

  /** The `reduce` behind the total: the item fines added up from 0. */
  function SumFines(items: seq<BorrowedItem>, now: int): int
  {
    if items == [] then 0 else SumFines(items[..|items| - 1], now) + ItemFine(items[|items| - 1], now)
  }

  /** `totalOutstandingFine` */
  function TotalOutstandingFine(items: seq<BorrowedItem>, now: int): int
  {
    SumFines(OverdueBooks(items, now), now)
  }

  /** What one item of the list adds to the total: its fine when overdue, nothing otherwise. */
  function Contribution(item: BorrowedItem, now: int): int
  {
    if IsOverdue(item, now) then ItemFine(item, now) else 0
  }

  /** The total computed item by item over the whole list, without filtering first. */
  function SumContributions(items: seq<BorrowedItem>, now: int): int
  {
    if items == [] then 0
    else SumContributions(items[..|items| - 1], now) + Contribution(items[|items| - 1], now)
  }

  /**
   * The fine of an overdue item: five rupees for each full day since the due instant, so never
   * negative, a multiple of five, and nothing during the first day.
   */
  lemma ItemFineBounds(item: BorrowedItem, now: int)
    requires IsOverdue(item, now)
    ensures ItemFine(item, now) >= 0 && ItemFine(item, now) % FinePerDay == 0
    ensures ItemFine(item, now) == 0 <==> now - item.dueDate < DayMs
    ensures ItemFine(item, now) >= FinePerDay <==> now - item.dueDate >= DayMs
  {
  }

  /** Filtering, then adding up, gives the item-by-item total. */
  lemma {:induction false} TotalIsSumOfContributions(items: seq<BorrowedItem>, now: int)
    ensures TotalOutstandingFine(items, now) == SumContributions(items, now)
  {
    if items != [] {
      var init, last := items[..|items| - 1], items[|items| - 1];
      TotalIsSumOfContributions(init, now);
      if IsOverdue(last, now) {
        var r := OverdueBooks(init, now) + [last];
        assert r[..|r| - 1] == OverdueBooks(init, now);
      }
    }
  }

  /** Every item adds a non-negative multiple of five. */
  lemma {:induction false} SumContributionsBounds(items: seq<BorrowedItem>, now: int)
    ensures SumContributions(items, now) >= 0
    ensures SumContributions(items, now) % FinePerDay == 0
    ensures SumContributions(items, now) > 0 <==>
      exists x :: x in items && IsOverdue(x, now) && now - x.dueDate >= DayMs
  {
    if items != [] {
      var init, last := items[..|items| - 1], items[|items| - 1];
      SumContributionsBounds(init, now);
      assert items == init + [last];
      if IsOverdue(last, now) {
        ItemFineBounds(last, now);
      }
    }
  }

  /**
   * The total is a non-negative multiple of five, 0 for an empty list, and positive exactly when
   * some unreturned item is at least a full day past its due instant.
   */
  lemma TotalOutstandingFineBounds(items: seq<BorrowedItem>, now: int)
    ensures TotalOutstandingFine(items, now) >= 0
    ensures TotalOutstandingFine(items, now) % FinePerDay == 0
    ensures items == [] ==> TotalOutstandingFine(items, now) == 0
    ensures TotalOutstandingFine(items, now) > 0 <==>
      exists x :: x in items && IsOverdue(x, now) && now - x.dueDate >= DayMs
  {
    TotalIsSumOfContributions(items, now);
    SumContributionsBounds(items, now);
  }

  /** An item less than a full day past due is listed as overdue and adds nothing. */
  lemma FirstDayIsFree(items: seq<BorrowedItem>, now: int, k: nat)
    requires k < |items| && items[k].returnDate.None?
    requires items[k].dueDate < now < items[k].dueDate + DayMs
    ensures items[k] in OverdueBooks(items, now)
    ensures ItemFine(items[k], now) == 0
  {
    ItemFineBounds(items[k], now);
  }

  /** One item adds no less later than earlier. */
  lemma ContributionGrows(item: BorrowedItem, now1: int, now2: int)
    requires now1 <= now2
    ensures Contribution(item, now1) <= Contribution(item, now2)
  {
    if IsOverdue(item, now1) {
      assert IsOverdue(item, now2);
    } else if IsOverdue(item, now2) {
      ItemFineBounds(item, now2);
    }
  }

  lemma {:induction false} SumContributionsGrows(items: seq<BorrowedItem>, now1: int, now2: int)
    requires now1 <= now2
    ensures SumContributions(items, now1) <= SumContributions(items, now2)
  {
    if items != [] {
      SumContributionsGrows(items[..|items| - 1], now1, now2);
      ContributionGrows(items[|items| - 1], now1, now2);
    }
  }

  /** For a fixed list, the total never goes down as time passes. */
  lemma TotalGrowsWithTime(items: seq<BorrowedItem>, now1: int, now2: int)
    requires now1 <= now2
    ensures TotalOutstandingFine(items, now1) <= TotalOutstandingFine(items, now2)
  {
    TotalIsSumOfContributions(items, now1);
    TotalIsSumOfContributions(items, now2);
    SumContributionsGrows(items, now1, now2);
  }

  /** The status card at the top of the screen. */
  datatype StatusCard = StatusCard(pink: bool, amount: int, message: string)

  const ReturnPrompt: string := "Please return overdue books to settle fines."
  const NoFinesMessage: string := "You have no outstanding fines. Well done!"

  function FinesStatusCard(items: seq<BorrowedItem>, now: int): StatusCard
  {
    var total := TotalOutstandingFine(items, now);
    if total > 0 then StatusCard(true, total, ReturnPrompt) else StatusCard(false, total, NoFinesMessage)
  }

  /** The "Overdue Books (n)" section is shown when the overdue list is non-empty. */
  predicate ShowsOverdueSection(items: seq<BorrowedItem>, now: int)
  {
    |OverdueBooks(items, now)| > 0
  }

  /**
   * The pink card with the return prompt appears exactly when some unreturned book is a full day
   * late; otherwise the green card shows a zero total.
   */
  lemma StatusCardMeaning(items: seq<BorrowedItem>, now: int)
    ensures var card := FinesStatusCard(items, now);
      && (card.pink <==> exists x :: x in items && IsOverdue(x, now) && now - x.dueDate >= DayMs)
      && (card.message == ReturnPrompt <==> card.pink)
      && (!card.pink ==> card.amount == 0)
  {
    TotalOutstandingFineBounds(items, now);
  }

  /** A book a few hours late is listed in the overdue section while the card stays green. */
  lemma OverdueSectionWithGreenCard()
    ensures var items := [BorrowedItem(1, "Dune", "Herbert", 7, 0, DayMs, None)];
      ShowsOverdueSection(items, DayMs + 1) && !FinesStatusCard(items, DayMs + 1).pink
  {
    var items := [BorrowedItem(1, "Dune", "Herbert", 7, 0, DayMs, None)];
    assert items[0] in OverdueBooks(items, DayMs + 1);
    StatusCardMeaning(items, DayMs + 1);
  }
}
