# ShelfSync lending core in Dafny

ShelfSync is a library system. A Spring backend keeps members, books, physical copies, carts,
loans (issue records) and payments. A React Native app lets members browse the catalogue, fill
a cart, check out, and follow their loans and fines. This project models the lending core of
both halves and proves what each operation promises.

**Backend.**
- `LibraryStore.Store` is the database: one sequence per table, plus the cart item id counter.
  Its `Valid()` invariant says:
  - ids are positions;
  - emails are unique;
  - every reference points at an existing row;
  - an unreturned loan holds its copy ISSUED, and no copy has two unreturned loans;
  - a copy sits in at most one cart.
- The Spring Data repositories (`IssueRecordRepository`, `BookCopyRepository`,
  `CartItemRepository`, `PaymentRepository`, `BookRepository`) are pure filter, sort and count
  functions over those tables.
- The request DTO constraints (`Dtos`) are validity predicates.
- The services (`MemberService`, `LibrarianService`, `AuthService`, `OwnerService`,
  `DataInitializer`) are methods that change the store.
  - Every refusal the source throws is an `Err` carrying its message, and it leaves the
    store unchanged.
  - A transactional operation that writes several tables stages its writes and commits them
    together. This is what rollback-on-exception amounts to: checkout is all or nothing.

**Frontend.**
- Each screen with React state is a `State` class. Its fields are the `useState` variables,
  plus two logs:
  - the requests sent, each with the value of the progress flag at the time;
  - the alerts and navigations shown.
- Server answers are parameters: an answer, or a failure with the server's optional error text.
- The handlers with several outcomes and an await chain (`LoginScreen`, `RegisterScreen`,
  `BookDetailsScreen`) have their decisions in a pure `...FlowOf` function. The handler method
  is proved to follow it, and lemmas state what the flow guarantees. The remaining handlers
  (`CartScreen`, `ChangePasswordScreen`, `SearchBookScreen`) state their requests, effects and
  new state directly in their `ensures`.
- `AuthContext.Context` models the session: the token, the loading flag, the persisted
  storage, and the order of its steps. `AppNavigator.Render` picks the navigation graph.
- The fines, due-status and initials computations are pure functions with lemmas. They are
  linked to the backend where the two meet:
  - a book shown as overdue is one the fines screen charges;
  - a copy the app puts in the cart is one the server lists as AVAILABLE.

**Units.**
- Backend money is whole hundredths of a rupee: FINE_PER_DAY is 500 and MEMBERSHIP_FEE is 50000.
- Backend dates are whole days.
- Frontend instants are whole milliseconds. The screens divide by 86,400,000, with floor for
  fines and ceiling for days remaining.

**Checkout in the app.** `handleCheckout` in `CartScreen.jsx` only shows an alert; the list is
refreshed by the next `fetchCart`. So `HandleCheckout` keeps `cartItems`, even after a
successful checkout.

## Model

| member | source | states |
|---|---|---|
| Entities.LateFine | ShelfSync-backend/src/main/java/com/sunbeam/library/app/service/LibrarianService.java:119-122 | a return after the due date costs at least FINE_PER_DAY, and always a whole multiple of it |
| Passwords.MatchesExactlyItsEncoding | ShelfSync-backend/src/main/java/com/sunbeam/library/app/service/AuthService.java:29 | under the tagging stand-in for the encoder, a raw password matches its own encoding and no other raw password does (BCrypt's 72-byte limit is admitted under Left out) |
| LibraryStore.FindByEmail | ShelfSync-backend/src/main/java/com/sunbeam/library/app/service/MemberService.java:38-41 | the member lookup by email returns a row holding that email, and nothing exactly when no member has it |
| LibraryStore.FindByEmailUnique | ShelfSync-backend/src/main/java/com/sunbeam/library/app/service/MemberService.java:38-41 | with unique emails, looking up a member's own email finds that very member |
| LibraryStore.Store.Commit | ShelfSync-backend/src/main/java/com/sunbeam/library/app/service/MemberService.java:121 | the writes of one transaction land together: copies, issue records, payments and cart items are replaced, members, books and the cart id counter are untouched, and the database invariant holds |
| IssueRecordRepository.FindByBookCopyAndReturnDateIsNull | ShelfSync-backend/src/main/java/com/sunbeam/library/app/repository/IssueRecordRepository.java:15 | a result is an unreturned record of that copy; no result exactly when the copy has no unreturned record |
| IssueRecordRepository.ActiveRecordUnique | ShelfSync-backend/src/main/java/com/sunbeam/library/app/repository/IssueRecordRepository.java:15 | in a valid database the unreturned record of a copy is the only one, found at the position its id names |
| IssueRecordRepository.FindByDueDateBeforeAndReturnDateIsNull | ShelfSync-backend/src/main/java/com/sunbeam/library/app/repository/IssueRecordRepository.java:16 | exactly the unreturned records due strictly before the date, with their multiplicities |
| IssueRecordRepository.FindByMemberOrderByIssueDateDesc | ShelfSync-backend/src/main/java/com/sunbeam/library/app/repository/IssueRecordRepository.java:17 | exactly the member's records, with their multiplicities, in non-increasing issue-date order |
| IssueRecordRepository.FindByMemberAndReturnDateIsNull | ShelfSync-backend/src/main/java/com/sunbeam/library/app/repository/IssueRecordRepository.java:18 | exactly the member's unreturned records, with their multiplicities |
| IssueRecordRepository.ActiveIsFilteredHistory | ShelfSync-backend/src/main/java/com/sunbeam/library/app/repository/IssueRecordRepository.java:17-18 | the member's unreturned records are, as a multiset and in number, the history filtered by a missing return date |
| BookCopyRepository.FindByBook | ShelfSync-backend/src/main/java/com/sunbeam/library/app/repository/BookCopyRepository.java:13 | exactly the copies of the book, with their multiplicities |
| BookCopyRepository.FindByBookAndStatus | ShelfSync-backend/src/main/java/com/sunbeam/library/app/repository/BookCopyRepository.java:15 | exactly the copies of the book in the given status |
| BookCopyRepository.CountIsSizeOfFind | ShelfSync-backend/src/main/java/com/sunbeam/library/app/repository/BookCopyRepository.java:14-15 | the count query equals the length of the matching find query |
| BookCopyRepository.CountByBookAndStatus | ShelfSync-backend/src/main/java/com/sunbeam/library/app/repository/BookCopyRepository.java:14 | the count never exceeds the table size; CountIsSizeOfFind ties it to the find query |
| BookCopyRepository.FindByStatusWithinFindByBook | ShelfSync-backend/src/main/java/com/sunbeam/library/app/repository/BookCopyRepository.java:13-15 | the copies of a book in one status are a sub-multiset of all its copies |
| BookCopyRepository.AvailableNotAboveTotal | ShelfSync-backend/src/main/java/com/sunbeam/library/app/repository/BookCopyRepository.java:14 | a book never has more AVAILABLE copies than copies |
| CartItemRepository.FindByMember | ShelfSync-backend/src/main/java/com/sunbeam/library/app/repository/CartItemRepository.java:13 | exactly the member's cart items, with their multiplicities |
| CartItemRepository.FindById | ShelfSync-backend/src/main/java/com/sunbeam/library/app/service/MemberService.java:111-112 | the cart item lookup by id returns an item with that id, and nothing exactly when there is none |
| CartItemRepository.FindByBookCopyId | ShelfSync-backend/src/main/java/com/sunbeam/library/app/repository/CartItemRepository.java:14 | a result holds that copy; no result exactly when no cart holds it |
| CartItemRepository.FindByBookCopyIdUnique | ShelfSync-backend/src/main/java/com/sunbeam/library/app/repository/CartItemRepository.java:14 | in a valid cart table the item found for a copy is the one item holding it |
| CartItemRepository.WithoutMember | ShelfSync-backend/src/main/java/com/sunbeam/library/app/repository/CartItemRepository.java:15 | the cart table without the member's items: every other item keeps its multiplicity |
| CartItemRepository.WithoutMemberEffect | ShelfSync-backend/src/main/java/com/sunbeam/library/app/repository/CartItemRepository.java:13-15 | after deleting a member's cart it is empty, and every other member's cart is as before |
| CartItemRepository.WithoutMemberKeepsCartValid | ShelfSync-backend/src/main/java/com/sunbeam/library/app/repository/CartItemRepository.java:15 | deleting a member's cart keeps the cart table valid |
| CartItemRepository.DeleteByMember | ShelfSync-backend/src/main/java/com/sunbeam/library/app/repository/CartItemRepository.java:15 | the cart table becomes the table without the member's items; every other table is unchanged |
| PaymentRepository.LatestDue | ShelfSync-backend/src/main/java/com/sunbeam/library/app/repository/PaymentRepository.java:14 | the payment picked has a due date no earlier than any other's; nothing only for no payments |
| PaymentRepository.FindTopByMemberAndTypeOrderByDueDateDesc | ShelfSync-backend/src/main/java/com/sunbeam/library/app/repository/PaymentRepository.java:14 | a payment of that member and type due no earlier than any other such payment; nothing exactly when there is none |
| PaymentRepository.FindByMemberOrderByTransactionTimeDesc | ShelfSync-backend/src/main/java/com/sunbeam/library/app/repository/PaymentRepository.java:15 | exactly the member's payments, newest transaction first |
| PaymentRepository.MembershipActiveIff | ShelfSync-backend/src/main/java/com/sunbeam/library/app/service/MemberService.java:133-134 | the membership is active exactly when some MEMBERSHIP payment of the member is due strictly after today |
| BookRepository.SearchBooks | ShelfSync-backend/src/main/java/com/sunbeam/library/app/repository/BookRepository.java:14-19 | exactly the books whose name, author or subject contain the query ignoring case, or whose isbn contains it as typed |
| BookRepository.SearchMatches | ShelfSync-backend/src/main/java/com/sunbeam/library/app/repository/BookRepository.java:14-19 | the query's WHERE clause for one book; NameContainingQueryIsFound and QueryCaseIrrelevant state its case rules |
| BookRepository.NameContainingQueryIsFound | ShelfSync-backend/src/main/java/com/sunbeam/library/app/repository/BookRepository.java:15 | a book whose name contains the query is found |
| BookRepository.QueryCaseIrrelevant | ShelfSync-backend/src/main/java/com/sunbeam/library/app/repository/BookRepository.java:15-17 | queries equal up to case match the same books through name, author and subject |
| BookRepository.EmptyQueryFindsAll | ShelfSync-backend/src/main/java/com/sunbeam/library/app/repository/BookRepository.java:14-19 | the empty query returns every book, in order |
| Dtos.SpacesAreBlank | ShelfSync-backend/src/main/java/com/sunbeam/library/app/dto/RegisterRequestDTO.java:19 | a string of n spaces is blank but meets a minimum size of n |
| Dtos.AddBookViolations | ShelfSync-backend/src/main/java/com/sunbeam/library/app/dto/AddBookRequestDTO.java:11-24 | no violation exactly when the request is valid: name, author and isbn not blank, price present and positive |
| Dtos.AddBookSubjectFreePriceStrict | ShelfSync-backend/src/main/java/com/sunbeam/library/app/dto/AddBookRequestDTO.java:17-24 | the subject never affects validity; a zero or missing price is refused |
| Dtos.AddCopyViolations | ShelfSync-backend/src/main/java/com/sunbeam/library/app/dto/AddCopyRequestDTO.java:10-18 | no violation exactly when the book id is present, the rack not blank and at least one copy is asked for |
| Dtos.AddCopyMinimumIsOne | ShelfSync-backend/src/main/java/com/sunbeam/library/app/dto/AddCopyRequestDTO.java:16-18 | one copy is accepted and zero refused |
| Dtos.SixSpacePasswordRejected | ShelfSync-backend/src/main/java/com/sunbeam/library/app/dto/RegisterRequestDTO.java:19-20 | six spaces meet the size rule but not the blank rule, so registration is refused |
| Dtos.RegisterValidHasFields | ShelfSync-backend/src/main/java/com/sunbeam/library/app/dto/RegisterRequestDTO.java:10-20 | a valid registration has every field and a password of at least six characters |
| Dtos.ChangePasswordLengthRule | ShelfSync-backend/src/main/java/com/sunbeam/library/app/dto/ChangePasswordDTO.java:9-12 | for every pair of passwords: with a non-blank old password of any length, the request passes exactly when the new password has six or more characters and is not blank; a missing old password always fails |
| MemberService.AccruedFine | ShelfSync-backend/src/main/java/com/sunbeam/library/app/service/MemberService.java:54-59 | a loan's accrued fine is a non-negative multiple of FINE_PER_DAY, positive exactly when it is past due |
| MemberService.TotalAccrued | ShelfSync-backend/src/main/java/com/sunbeam/library/app/service/MemberService.java:54-60 | the fine total is a non-negative multiple of FINE_PER_DAY, zero exactly when nothing is past due |
| MemberService.PastDue | ShelfSync-backend/src/main/java/com/sunbeam/library/app/service/MemberService.java:55 | every record kept is due strictly before today |
| MemberService.SumOfPastDueIsTotalAccrued | ShelfSync-backend/src/main/java/com/sunbeam/library/app/service/MemberService.java:54-60 | summing 5 x days late over the past-due records gives the accrued total |
| MemberService.SumLateFines | ShelfSync-backend/src/main/java/com/sunbeam/library/app/service/MemberService.java:54-60 | the map-and-reduce of the fines over past-due records; SumOfPastDueIsTotalAccrued equates it with the accrued total |
| MemberService.TotalAccruedAppend | ShelfSync-backend/src/main/java/com/sunbeam/library/app/service/MemberService.java:60 | the total of two lists is the sum of their totals |
| MemberService.TotalAccruedPermutation | ShelfSync-backend/src/main/java/com/sunbeam/library/app/service/MemberService.java:50-60 | the total does not depend on the order of the records |
| MemberService.OutstandingFines | ShelfSync-backend/src/main/java/com/sunbeam/library/app/service/MemberService.java:54-60 | the dashboard fine over the unreturned records equals their accrued total |
| MemberService.MapToMemberProfile | ShelfSync-backend/src/main/java/com/sunbeam/library/app/service/MemberService.java:271-284 | the profile copies the member's fields; it is active exactly when the membership is, and then a due date after today is shown |
| MemberService.GetMemberDashboard | ShelfSync-backend/src/main/java/com/sunbeam/library/app/service/MemberService.java:44-76 | unknown email fails; otherwise the membership flag and due date of the latest MEMBERSHIP payment (active exactly when that date is after today), borrowed count, books read, fines over the unreturned records and the first min(3, n) records of the newest-first history |
| MemberService.DashboardFinesZeroIff | ShelfSync-backend/src/main/java/com/sunbeam/library/app/service/MemberService.java:54-60 | the dashboard fine is zero exactly when none of the member's unreturned books is past due |
| MemberService.MapToBookDto | ShelfSync-backend/src/main/java/com/sunbeam/library/app/service/MemberService.java:235-246 | the book's fields are copied; total and available copies are the sizes of the repository queries, available never above total |
| MemberService.GetAvailableCopiesForBook | ShelfSync-backend/src/main/java/com/sunbeam/library/app/service/MemberService.java:286-294 | unknown book fails with its message; otherwise exactly the book's AVAILABLE copies, as many as the DTO's available count |
| MemberService.AddToCartFailure | ShelfSync-backend/src/main/java/com/sunbeam/library/app/service/MemberService.java:81-90 | addToCart goes through exactly when the member exists, the copy exists, is AVAILABLE and sits in no cart |
| MemberService.AddToCart | ShelfSync-backend/src/main/java/com/sunbeam/library/app/service/MemberService.java:80-99 | on failure nothing changes; otherwise exactly one item linking member and copy is added under a fresh id and no other table changes |
| MemberService.RemoveFromCartFailure | ShelfSync-backend/src/main/java/com/sunbeam/library/app/service/MemberService.java:110-116 | removeFromCart goes through exactly when the member and the item exist and the item is the member's |
| MemberService.RemoveAtKeepsCartValid | ShelfSync-backend/src/main/java/com/sunbeam/library/app/service/MemberService.java:117 | deleting one cart item keeps the cart table valid |
| MemberService.RemoveAtDropsExactlyThatId | ShelfSync-backend/src/main/java/com/sunbeam/library/app/service/MemberService.java:117 | deleting the item found by id removes that id and keeps every other item |
| MemberService.RemoveAtKeepsOthers | ShelfSync-backend/src/main/java/com/sunbeam/library/app/service/MemberService.java:117 | deleting one position keeps every item at another position |
| MemberService.RemoveAtLeavesOthers | ShelfSync-backend/src/main/java/com/sunbeam/library/app/service/MemberService.java:117 | every item left after deleting one position came from another position |
| MemberService.RemoveFromCart | ShelfSync-backend/src/main/java/com/sunbeam/library/app/service/MemberService.java:109-118 | on failure nothing changes; otherwise exactly that item is deleted and no other table changes |
| MemberService.ChangeMyPassword | ShelfSync-backend/src/main/java/com/sunbeam/library/app/service/MemberService.java:214-221 | unknown member or wrong old password change nothing; otherwise only that member's hash becomes the new password's encoding, which the new password matches |
| MemberService.AmountTextReadsBack | ShelfSync-backend/src/main/java/com/sunbeam/library/app/service/MemberService.java:138 | the two-decimal amount text is digits, a point and two digits that read back to the amount in hundredths |
| MemberService.AmountText | ShelfSync-backend/src/main/java/com/sunbeam/library/app/service/MemberService.java:138 | BigDecimal's two-decimal text of an amount; AmountTextReadsBack proves it reads back |
| MemberService.MembershipFeeDetailsAsWrittenLacksRupee | ShelfSync-backend/src/main/java/com/sunbeam/library/app/service/MemberService.java:138 | the details string as written holds three mis-decoded characters and no rupee sign |
| MemberService.MembershipFeeDetailsShowFee | ShelfSync-backend/src/main/java/com/sunbeam/library/app/service/MemberService.java:138 | the corrected details string shows the rupee sign followed by the fee, which reads back as 500.00 |
| MemberService.CartCopiesHeld | ShelfSync-backend/src/main/java/com/sunbeam/library/app/service/MemberService.java:150-151 | a copy in the cart's copy set is held by some cart item |
| MemberService.MarkIssued | ShelfSync-backend/src/main/java/com/sunbeam/library/app/service/MemberService.java:150-156 | exactly the copies in the cart become ISSUED; every other copy is as before |
| MemberService.NewIssueRecords | ShelfSync-backend/src/main/java/com/sunbeam/library/app/service/MemberService.java:158-164 | one record per cart item, in cart order: that member and copy, issued today, due LENDING_PERIOD_DAYS later, fine zero, not returned |
| MemberService.FirstUnavailable | ShelfSync-backend/src/main/java/com/sunbeam/library/app/service/MemberService.java:150-154 | the first cart item whose copy is not AVAILABLE, nothing exactly when all are |
| MemberService.FirstUnavailableAt | ShelfSync-backend/src/main/java/com/sunbeam/library/app/service/MemberService.java:150-154 | the first position with an unavailable copy is the one reported |
| MemberService.MemberCartFacts | ShelfSync-backend/src/main/java/com/sunbeam/library/app/service/MemberService.java:124 | a member's cart in a valid table refers to existing copies, only to that member, and holds each copy once |
| MemberService.CheckoutKeepsIssuesValid | ShelfSync-backend/src/main/java/com/sunbeam/library/app/service/MemberService.java:149-165 | issuing every AVAILABLE cart copy with new records keeps the issue table valid |
| MemberService.MembershipPaymentKeepsValid | ShelfSync-backend/src/main/java/com/sunbeam/library/app/service/MemberService.java:140-146 | recording a MEMBERSHIP payment with a due date keeps the payment table valid |
| MemberService.CheckoutCommitKeepsValid | ShelfSync-backend/src/main/java/com/sunbeam/library/app/service/MemberService.java:149-167 | the tables written by a checkout that goes through satisfy the database invariant |
| MemberService.IssueCartCopies | ShelfSync-backend/src/main/java/com/sunbeam/library/app/service/MemberService.java:149-165 | the loop stops at the first unavailable copy; when there is none, the copies are marked ISSUED and the new records are the planned ones |
| MemberService.CheckoutFailure | ShelfSync-backend/src/main/java/com/sunbeam/library/app/service/MemberService.java:123-154 | checkout goes through exactly when the member exists, the cart is non-empty and every cart copy is AVAILABLE |
| MemberService.ChargeMembershipIfDue | ShelfSync-backend/src/main/java/com/sunbeam/library/app/service/MemberService.java:130-147 | an active membership charges nothing; otherwise the fee, its details line and one MEMBERSHIP payment due a month later (the details carry the corrected rupee text, admitted under Left out) |
| MemberService.CheckoutPlanEffects | ShelfSync-backend/src/main/java/com/sunbeam/library/app/service/MemberService.java:133-175 | after a checkout the membership is active, the member's cart is empty and the response lists exactly the new records |
| MemberService.CheckoutPlan | ShelfSync-backend/src/main/java/com/sunbeam/library/app/service/MemberService.java:121-177 | the tables and response a successful checkout writes; CheckoutPlanEffects and CheckoutCommitKeepsValid state its effects and validity |
| MemberService.StagedIsPlan | ShelfSync-backend/src/main/java/com/sunbeam/library/app/service/MemberService.java:169-176 | the staged amount, details, copies, records and payments make up the checkout's plan |
| MemberService.StageCheckout | ShelfSync-backend/src/main/java/com/sunbeam/library/app/service/MemberService.java:122-177 | fails exactly as CheckoutFailure says; otherwise yields the plan, and the planned tables are valid (with the corrected fee text, admitted under Left out) |
| MemberService.CheckoutAndBorrowFromCart | ShelfSync-backend/src/main/java/com/sunbeam/library/app/service/MemberService.java:121-177 | all or nothing: a failure changes no table; success writes exactly the plan and returns its response (with the corrected fee text, admitted under Left out) |
| LibrarianService.AddBook | ShelfSync-backend/src/main/java/com/sunbeam/library/app/service/LibrarianService.java:42-50 | a book with the request's fields is appended under the next id; nothing else changes |
| LibrarianService.AddedBookIsNewAndFound | ShelfSync-backend/src/main/java/com/sunbeam/library/app/service/LibrarianService.java:42-50 | the new book has no copies yet and a search by its name finds it |
| LibrarianService.NewCopies | ShelfSync-backend/src/main/java/com/sunbeam/library/app/service/LibrarianService.java:57-64 | exactly n copies of the book on the requested rack, all AVAILABLE, with consecutive ids |
| LibrarianService.AddCopies | ShelfSync-backend/src/main/java/com/sunbeam/library/app/service/LibrarianService.java:53-67 | unknown book fails and changes nothing; otherwise exactly the new copies are appended |
| LibrarianService.NewCopiesAreAvailable | ShelfSync-backend/src/main/java/com/sunbeam/library/app/service/LibrarianService.java:53-67 | adding n copies raises the book's AVAILABLE count by n and no other book's |
| LibrarianService.IssueBookFailure | ShelfSync-backend/src/main/java/com/sunbeam/library/app/service/LibrarianService.java:70-89 | issueBook goes through exactly when member and copy exist, the copy is AVAILABLE and the membership is active; availability is checked first |
| LibrarianService.IssueBook | ShelfSync-backend/src/main/java/com/sunbeam/library/app/service/LibrarianService.java:70-102 | a failure changes nothing; success sets the copy ISSUED and appends a record issued today, due 7 days later, without a fine |
| LibrarianService.IssueKeepsValid | ShelfSync-backend/src/main/java/com/sunbeam/library/app/service/LibrarianService.java:92-101 | issuing an AVAILABLE copy keeps the issue table valid, and the new record is the copy's active one |
| LibrarianService.ReturnedRecord | ShelfSync-backend/src/main/java/com/sunbeam/library/app/service/LibrarianService.java:116-133 | the returned record keeps its fields, is returned today, and its fine is 5 x days late, zero when on time |
| LibrarianService.FinePayments | ShelfSync-backend/src/main/java/com/sunbeam/library/app/service/LibrarianService.java:119-130 | exactly one FINE payment of the fine for the borrower when the fine is non-zero, none otherwise |
| LibrarianService.ReturnBook | ShelfSync-backend/src/main/java/com/sunbeam/library/app/service/LibrarianService.java:105-136 | unknown copy and no active record fail with their messages and change nothing; otherwise the record is closed, the copy AVAILABLE and any fine paid |
| LibrarianService.ReturnKeepsValid | ShelfSync-backend/src/main/java/com/sunbeam/library/app/service/LibrarianService.java:113-116 | closing an active record and freeing its copy keeps the issue table valid and leaves the copy without an active record |
| AuthService.RegisterNewMember | ShelfSync-backend/src/main/java/com/sunbeam/library/app/service/AuthService.java:20-34 | a registered email fails and changes nothing; otherwise one ROLE_MEMBER with the request's fields and an encoded password is added and found by its email |
| OwnerService.GetDashboardKpis | ShelfSync-backend/src/main/java/com/sunbeam/library/app/service/OwnerService.java:22-42 | the member, book and copy totals are the table sizes and the asset value is the sum of the prices; activeMembers stays 0; issued copies count the unreturned records, zero exactly when every record is returned |
| OwnerService.AssetValueBounds | ShelfSync-backend/src/main/java/com/sunbeam/library/app/service/OwnerService.java:31-33 | with positive prices the asset value is at least one hundredth per book and zero only for no books |
| OwnerService.TotalAssetValue | ShelfSync-backend/src/main/java/com/sunbeam/library/app/service/OwnerService.java:31-33 | the reduce of the prices from zero; AssetValueBounds and AddingBookRaisesAssetValue state its bounds and additivity |
| OwnerService.AddingBookRaisesAssetValue | ShelfSync-backend/src/main/java/com/sunbeam/library/app/service/OwnerService.java:31-33 | adding a book raises the asset value by its price |
| OwnerService.UnreturnedCount | ShelfSync-backend/src/main/java/com/sunbeam/library/app/service/OwnerService.java:26-28 | with at most one unreturned record per copy, the unreturned records are as many as the copies they hold |
| OwnerService.IssuedNotAboveCopies | ShelfSync-backend/src/main/java/com/sunbeam/library/app/service/OwnerService.java:25-28 | in a valid database the unreturned records are no more than the copies |
| OwnerService.KpisInValidStore | ShelfSync-backend/src/main/java/com/sunbeam/library/app/service/OwnerService.java:22-42 | in a valid database issued copies never exceed total copies, and the asset value is zero exactly when there are no books |
| DataInitializer.SaveIfAbsent | ShelfSync-backend/src/main/java/com/sunbeam/library/app/config/DataInitializer.java:23-31 | the account is added exactly when its email is unknown; afterwards the email is known |
| DataInitializer.Run | ShelfSync-backend/src/main/java/com/sunbeam/library/app/config/DataInitializer.java:21-45 | the member table becomes the seeded table; no other table changes |
| DataInitializer.SaveIfAbsentKeepsValid | ShelfSync-backend/src/main/java/com/sunbeam/library/app/config/DataInitializer.java:23-31 | saving an account under the next id keeps the member table valid |
| DataInitializer.SeededAccounts | ShelfSync-backend/src/main/java/com/sunbeam/library/app/config/DataInitializer.java:21-45 | both staff emails are known afterwards, existing rows are kept, at most two rows are added, and new accounts carry encoded passwords |
| DataInitializer.Seeded | ShelfSync-backend/src/main/java/com/sunbeam/library/app/config/DataInitializer.java:21-45 | the member table after run(); SeededAccounts and SeededIdempotent state its contents and idempotence |
| DataInitializer.OwnerAccount | ShelfSync-backend/src/main/java/com/sunbeam/library/app/config/DataInitializer.java:24-29 | the owner row; SeededAccounts states that it is appended exactly as built when the email was absent, and that "owpassword" matches its hash |
| DataInitializer.LibrarianAccount | ShelfSync-backend/src/main/java/com/sunbeam/library/app/config/DataInitializer.java:36-41 | the librarian row; SeededAccounts states that it is appended last exactly as built when the email was absent, and that "adpassword" matches its hash |
| DataInitializer.SeededIdempotent | ShelfSync-backend/src/main/java/com/sunbeam/library/app/config/DataInitializer.java:21-45 | running the initializer twice gives the same table as running it once |
| ApiClient.ErrorText | ShelfSync-frontend/src/screens/main/CartScreen.jsx:60 | the server's error text when it is non-empty, the fallback otherwise |
| FinesScreen.OverdueBooks | ShelfSync-frontend/src/screens/main/FinesScreen.jsx:33 | exactly the items without a return date whose due instant is strictly before now |
| FinesScreen.ItemFineBounds | ShelfSync-frontend/src/screens/main/FinesScreen.jsx:41-43 | an item's fine is a non-negative multiple of 5, zero exactly when it is less than a day late |
| FinesScreen.DaysOverdue | ShelfSync-frontend/src/screens/main/FinesScreen.jsx:41 | the floor of the elapsed days; ItemFineBounds and FirstDayIsFree state its rounding |
| FinesScreen.ItemFine | ShelfSync-frontend/src/screens/main/FinesScreen.jsx:41-42 | days overdue times FINE_PER_DAY; ItemFineBounds and ContributionGrows state its range and monotonicity |
| FinesScreen.TotalIsSumOfContributions | ShelfSync-frontend/src/screens/main/FinesScreen.jsx:33-38 | the total over the overdue list equals a sum over all items where items not overdue count zero |
| FinesScreen.TotalOutstandingFine | ShelfSync-frontend/src/screens/main/FinesScreen.jsx:35-38 | the reduce over the overdue list; TotalIsSumOfContributions, TotalOutstandingFineBounds and TotalGrowsWithTime state its value, bounds and growth |
| FinesScreen.SumContributionsBounds | ShelfSync-frontend/src/screens/main/FinesScreen.jsx:35-38 | that sum is a non-negative multiple of 5, positive exactly when some item is overdue by a full day |
| FinesScreen.TotalOutstandingFineBounds | ShelfSync-frontend/src/screens/main/FinesScreen.jsx:35-38 | the total is a non-negative multiple of 5, zero for no items, positive exactly when an overdue item is a full day late |
| FinesScreen.FirstDayIsFree | ShelfSync-frontend/src/screens/main/FinesScreen.jsx:33-36 | an item less than a day past due is listed as overdue and costs nothing |
| FinesScreen.ContributionGrows | ShelfSync-frontend/src/screens/main/FinesScreen.jsx:33-37 | one item's contribution never falls as time passes |
| FinesScreen.SumContributionsGrows | ShelfSync-frontend/src/screens/main/FinesScreen.jsx:35-38 | the sum of contributions never falls as time passes |
| FinesScreen.TotalGrowsWithTime | ShelfSync-frontend/src/screens/main/FinesScreen.jsx:33-38 | for a fixed list the total is non-decreasing in now |
| FinesScreen.StatusCardMeaning | ShelfSync-frontend/src/screens/main/FinesScreen.jsx:69-72 | the card is pink with the return prompt exactly when the total is positive, green with the no-fines message otherwise, and shows the total |
| FinesScreen.FinesStatusCard | ShelfSync-frontend/src/screens/main/FinesScreen.jsx:69-72 | the card for a total; StatusCardMeaning states when each colour and message shows |
| FinesScreen.OverdueSectionWithGreenCard | ShelfSync-frontend/src/screens/main/FinesScreen.jsx:69-76 | a book a few hours late is listed in the overdue section under a green no-fines card |
| BorrowedBooksScreen.StandingMeaning | ShelfSync-frontend/src/screens/main/BorrowedBooksScreen.jsx:36-41 | Overdue exactly when at least a day late, Due Soon exactly when due within three days or less than a day late, Good Standing otherwise |
| BorrowedBooksScreen.DaysRemaining | ShelfSync-frontend/src/screens/main/BorrowedBooksScreen.jsx:38 | the ceiling of the days until due; StandingMeaning and FirstLateDayIsWarning state its rounding |
| BorrowedBooksScreen.StandingOf | ShelfSync-frontend/src/screens/main/BorrowedBooksScreen.jsx:39-41 | the standing from the days remaining; StandingMeaning states each band in terms of the instants |
| BorrowedBooksScreen.FirstLateDayIsWarning | ShelfSync-frontend/src/screens/main/BorrowedBooksScreen.jsx:38-41 | less than a day late rounds to zero days remaining and shows Due Soon |
| BorrowedBooksScreen.DangerIsFined | ShelfSync-frontend/src/screens/main/BorrowedBooksScreen.jsx:38-40 | an unreturned item shown Overdue is in the fines screen's overdue list and costs at least 5 |
| BorrowedBooksScreen.DaysLabelReadsBack | ShelfSync-frontend/src/screens/main/BorrowedBooksScreen.jsx:60 | the label is the number of days when not negative, and "Overdue by " with its magnitude otherwise, both reading back |
| BorrowedBooksScreen.DaysLabel | ShelfSync-frontend/src/screens/main/BorrowedBooksScreen.jsx:60 | the days-remaining text; DaysLabelReadsBack proves it reads back |
| CartScreen.WithoutEntry | ShelfSync-frontend/src/screens/main/CartScreen.jsx:44 | keeps exactly the items whose cart item id differs from the target |
| CartScreen.WithoutAbsentEntry | ShelfSync-frontend/src/screens/main/CartScreen.jsx:44 | removing an id that is not listed changes nothing |
| CartScreen.WithoutListedEntry | ShelfSync-frontend/src/screens/main/CartScreen.jsx:44 | with distinct ids, removing a listed item drops exactly it and keeps the others in order |
| CartScreen.CheckoutButtonFor | ShelfSync-frontend/src/screens/main/CartScreen.jsx:109-111 | the button exists exactly for a non-empty cart and is disabled exactly while checking out |
| CartScreen.State.constructor | ShelfSync-frontend/src/screens/main/CartScreen.jsx:11-16 | the screen starts empty, loading, not checking out, with no view refs, requests or alerts |
| CartScreen.State.Render | ShelfSync-frontend/src/screens/main/CartScreen.jsx:66-72 | the rendered list registers a view ref for each listed item, none while loading |
| CartScreen.State.FetchCart | ShelfSync-frontend/src/screens/main/CartScreen.jsx:18-28 | sends viewCart while loading; an answer replaces the list, a failure keeps it and alerts; loading ends false |
| CartScreen.State.HandleRemove | ShelfSync-frontend/src/screens/main/CartScreen.jsx:36-52 | no view ref: nothing changes and nothing is sent; otherwise the item is dropped locally, removal is sent, and a failure alerts and refetches |
| CartScreen.State.HandleCheckout | ShelfSync-frontend/src/screens/main/CartScreen.jsx:54-64 | sends checkout while checking out, alerts success or the error text, never touches the list, and ends with the button enabled |
| AuthContext.StoreToken | ShelfSync-frontend/src/context/AuthContext.js:11-16 | a truthy token is written under 'userToken', a falsy one removes the key; every other key is untouched |
| AuthContext.RestoreAfterStore | ShelfSync-frontend/src/context/AuthContext.js:13-37 | reading the key back after storing a token gives that token, and nothing after a removal or an empty token |
| AuthContext.StoreTokenOverwrites | ShelfSync-frontend/src/context/AuthContext.js:11-16 | storing twice leaves what the second store left |
| AuthContext.Context.constructor | ShelfSync-frontend/src/context/AuthContext.js:7-8 | the session starts loading, signed out, over the persisted storage |
| AuthContext.Context.SetTokenAndState | ShelfSync-frontend/src/context/AuthContext.js:11-18 | the storage is written or cleared before the token is published |
| AuthContext.Context.Login | ShelfSync-frontend/src/context/AuthContext.js:21-25 | loading on, token stored then published, loading off, in that order |
| AuthContext.Context.Logout | ShelfSync-frontend/src/context/AuthContext.js:28-32 | loading on, key removed, token cleared, loading off |
| AuthContext.Context.IsLoggedIn | ShelfSync-frontend/src/context/AuthContext.js:34-43 | the token becomes the stored value, or stays as it was on a read error; loading always ends false |
| AppNavigator.Render | ShelfSync-frontend/src/navigation/AppNavigator.js:43-83 | exactly one of spinner (while loading), main graph starting at Dashboard (truthy token) or auth graph starting at Login |
| AppNavigator.StartupGraph | ShelfSync-frontend/src/navigation/AppNavigator.js:77-83 | after the stored token is read, the main graph shows exactly when a non-empty token is stored |
| AppNavigator.SessionSurvivesRestart | ShelfSync-frontend/src/navigation/AppNavigator.js:77-83 | a login survives a restart into the main graph, a logout into the auth graph |
| ProfileScreen.SplitJoinRoundTrip | ShelfSync-frontend/src/screens/main/ProfileScreen.jsx:37 | splitting on single spaces and joining back gives the name |
| ProfileScreen.SplitOnSpace | ShelfSync-frontend/src/screens/main/ProfileScreen.jsx:37 | at least one part, none holding a space; SplitJoinRoundTrip proves joining the parts gives back the string |
| ProfileScreen.SplitAfterWord | ShelfSync-frontend/src/screens/main/ProfileScreen.jsx:37 | a space-free word and a space split into that word followed by the rest's split |
| ProfileScreen.SplitSingleWord | ShelfSync-frontend/src/screens/main/ProfileScreen.jsx:37 | a space-free string splits into itself |
| ProfileScreen.FirstLetter | ShelfSync-frontend/src/screens/main/ProfileScreen.jsx:38-40 | at most one character, exactly one for a non-empty word |
| ProfileScreen.InitialsLength | ShelfSync-frontend/src/screens/main/ProfileScreen.jsx:36-43 | at most two letters; a single word gives its upper-cased first letter |
| ProfileScreen.GetInitials | ShelfSync-frontend/src/screens/main/ProfileScreen.jsx:36-43 | the first letter of the first and last parts; InitialsLength and the three example lemmas state its length and edge cases |
| ProfileScreen.InitialsOfThreeWords | ShelfSync-frontend/src/screens/main/ProfileScreen.jsx:39-41 | the first and last words give the initials and the middle word is ignored |
| ProfileScreen.TrailingSpaceGivesOneLetter | ShelfSync-frontend/src/screens/main/ProfileScreen.jsx:37-41 | a trailing space leaves an empty last word, so one letter |
| ProfileScreen.LeadingSpaceDropsFirstLetter | ShelfSync-frontend/src/screens/main/ProfileScreen.jsx:37-41 | a leading space makes the first word empty, so only the last word's letter |
| ProfileScreen.MembershipDetailsOfProfile | ShelfSync-frontend/src/screens/main/ProfileScreen.jsx:62-64 | the status reads Active exactly when the membership is active, then with a due date; distinct members get distinct LIB- ids |
| ProfileScreen.MembershipDetails | ShelfSync-frontend/src/screens/main/ProfileScreen.jsx:62-64 | the id, status and due texts of the profile card; MembershipDetailsOfProfile states their meaning |
| ChangePasswordScreen.FormError | ShelfSync-frontend/src/screens/main/ChangePasswordScreen.jsx:17-20 | the first failing guard wins: all fields, then the match, then at least six characters; no error exactly when all hold |
| ChangePasswordScreen.SentFormAgainstServerRules | ShelfSync-frontend/src/screens/main/ChangePasswordScreen.jsx:17-22 | a form the screen sends meets the server's size rule; the server accepts it exactly when both passwords have content |
| ChangePasswordScreen.BlankPasswordPassesScreen | ShelfSync-frontend/src/screens/main/ChangePasswordScreen.jsx:17-22 | six spaces typed twice pass the screen but are refused by the server |
| ChangePasswordScreen.State.HandleUpdatePassword | ShelfSync-frontend/src/screens/main/ChangePasswordScreen.jsx:16-32 | the error is cleared; a guard failure sets it and sends nothing; otherwise the request is sent and its failure shows the server's text or the fallback |
| RegisterScreen.FieldsError | ShelfSync-frontend/src/screens/auth/RegisterScreen.jsx:31-32 | all five fields filled first, then the passwords equal; no error exactly when both hold |
| RegisterScreen.RegisterFlowFacts | ShelfSync-frontend/src/screens/auth/RegisterScreen.jsx:30-47 | a refused form sends nothing; login is requested only after a successful registration, with the same credentials; sign-in only with the returned token |
| RegisterScreen.RegisterFlowOf | ShelfSync-frontend/src/screens/auth/RegisterScreen.jsx:30-47 | the requests, alerts and sign-in of one press; RegisterFlowFacts states them and HandleRegister is proved to follow them |
| RegisterScreen.State.HandleRegister | ShelfSync-frontend/src/screens/auth/RegisterScreen.jsx:30-47 | requests, alerts and the session follow the flow; the session is untouched unless signed in; loading ends false once anything was sent |
| LoginScreen.LoginFlowFacts | ShelfSync-frontend/src/screens/auth/LoginScreen.jsx:26-44 | an empty field sends nothing; a token signs in with exactly that token; any failure shows the same invalid-credentials alert |
| LoginScreen.LoginFlowOf | ShelfSync-frontend/src/screens/auth/LoginScreen.jsx:26-44 | the requests, alerts and sign-in of one press; LoginFlowFacts states them and HandleLogin is proved to follow them |
| LoginScreen.State.HandleLogin | ShelfSync-frontend/src/screens/auth/LoginScreen.jsx:26-44 | requests, alerts and the session follow the flow; the session is untouched unless signed in; loading ends false once the request was sent |
| BookDetailsScreen.AddFlowFacts | ShelfSync-frontend/src/screens/main/BookDetailsScreen.jsx:13-45 | out of stock sends nothing; an empty or missing list goes back without adding; otherwise the first listed copy is added |
| BookDetailsScreen.AddFlowOf | ShelfSync-frontend/src/screens/main/BookDetailsScreen.jsx:13-45 | the requests and effects of one press; AddFlowFacts and AddedCopyIsAvailable state them and HandleAddToCart is proved to follow them |
| BookDetailsScreen.AddedCopyIsAvailable | ShelfSync-frontend/src/screens/main/BookDetailsScreen.jsx:22-29 | against the server's list, the copy added is an AVAILABLE copy of the book |
| BookDetailsScreen.State.HandleAddToCart | ShelfSync-frontend/src/screens/main/BookDetailsScreen.jsx:13-45 | requests and alerts follow the flow; out of stock leaves the flag alone, otherwise adding is over and the button enabled afterwards |
| SearchBookScreen.AvailabilityLabelMeaning | ShelfSync-frontend/src/screens/main/SearchBookScreen.jsx:9-22 | the label is 'Unavailable' exactly without copies; otherwise the number of copies, reading back, then ' available' |
| SearchBookScreen.AvailabilityLabel | ShelfSync-frontend/src/screens/main/SearchBookScreen.jsx:9-22 | the availability chip text; AvailabilityLabelMeaning states when it reads Unavailable and that the count reads back |
| SearchBookScreen.ServerBookHasCopies | ShelfSync-frontend/src/screens/main/SearchBookScreen.jsx:9 | a book as the server describes it has copies exactly when an AVAILABLE copy of it exists |
| SearchBookScreen.State.FetchAllBooks | ShelfSync-frontend/src/screens/main/SearchBookScreen.jsx:38-48 | the catalogue replaces the list, or a failure keeps it and alerts; loading ends false |
| SearchBookScreen.State.HandleSearch | ShelfSync-frontend/src/screens/main/SearchBookScreen.jsx:54-68 | a blank query reloads the catalogue without searching; any other is sent untrimmed, its answer replaces the list and a failure keeps it |

## Left out

- **Controllers and `SecurityConfig`.** They map requests and configure Spring Security. Bean
  Validation runs there, so `AddBook`, `AddCopies` and `RegisterNewMember` require
  the DTO predicate instead of re-checking it.
- **`api.js`.** The HTTP client is replaced by the `ApiCall` values the screens send and by
  answers passed in as parameters. Attaching the stored token as a bearer header is not
  modelled.
- **Other screens.** DashboardScreen, BorrowingHistoryScreen, PaymentHistoryScreen,
  AvailableCopiesScreen and `app.js` are not modelled. Nor are styling, animations, the
  `useFocusEffect` refetch wiring, and the fetch-on-focus of the fines and borrowed-books
  screens.
- **Thin read services.** `viewCart`, `searchBooks`, `getAllBooks`, `getMyBorrowedBooks`,
  `getMyProfile` and `getMyPaymentHistory` only wrap the repository queries modelled here. The
  same goes for the DTO mappers other than `mapToBookDTO` and `mapToMemberProfileDTO`.
  - `MemberRepository` and `BookCopy`/`Book` lookups by id are not part of this model; they
    are `FindByEmail` and index checks.
- **BCrypt.** `Passwords.Encode` is a tagging stand-in, so "matches" is equality of
  encodings. Salting and the hash function itself are not modelled.
- Passwords.MatchesExactlyItsEncoding: holds of the stand-in only. The configured
  `BCryptPasswordEncoder` reads only the first 72 bytes of a password, so two passwords that share
  a 72-byte prefix match the same hash (newer Spring versions refuse longer passwords instead).
- MemberService.ChangeMyPassword: its clause that the old password matches the new hash exactly
  when the two passwords are equal inherits the same 72-byte gap.
- **Calendar and clock.**
  - The email-format check and `LocalDate.plusMonths(1)` are parameters (`isEmail`, and
    `monthLater`, required to lie after today).
  - `LocalDate.now()`, `LocalDateTime.now()` and `new Date()` are parameters.
- **Text handling.**
  - LIKE wildcards in a search query are treated as plain characters.
  - SQL `LOWER` and JS `toUpperCase` change only ASCII letters.
  - Strings count characters, not UTF-16 code units.
  - `toLocaleDateString` is a parameter (`formatDate`).
  - JS date-string parsing is not modelled: instants are given in milliseconds.
- **Numbers.**
  - BigDecimal scale is not modelled; money is exact hundredths.
  - Floating-point division of whole milliseconds is taken as exact.
  - JS `-0` from `Math.ceil` is modelled as 0.
- **Concurrency and persistence.** Each service call is one atomic step. Races between
  members, double taps, updates after unmount and JPA lazy loading are not modelled.
- **AsyncStorage.** A failed write is not modelled; a failed read is.
- **Alert buttons.** Their callbacks (navigating to Dashboard, going back) are not modelled,
  except the direct `goBack` in BookDetailsScreen.
- **Null data.** A null `response.data` is modelled only for the copies list in
  BookDetailsScreen, where the source tests for it.
- MemberService.GetAvailableCopiesForBook: requires the book table to be valid (ids are
  positions), so that an id inside the table names its own book.
- MemberService.MapToMemberProfile: a MEMBERSHIP payment without a due date would make the
  source throw a NullPointerException. The store invariant rules it out, because membership
  payments are only created with one.
- MemberService.ChargeMembershipIfDue: the MEMBERSHIP payment's details and the checkout's
  `paymentDetails` carry the corrected text "Membership Fee (₹500.00)", not the mojibake
  "Membership Fee (â‚¹500.00)" that `MemberService.java:138` builds (see Findings). The
  as-written text is `MembershipFeeDetailsAsWritten`.
- MemberService.StageCheckout: stages that corrected text, for the same reason.
- MemberService.CheckoutAndBorrowFromCart: commits and returns that corrected text, for the same
  reason.
- OwnerService.GetDashboardKpis: the issued count is stated through its bounds and zero case;
  its exact value is the length of the unreturned-record filter.

## Findings

| source | as written | input that shows it | evidently intended | confidence | as-written member | corrected member |
|---|---|---|---|---|---|---|
| ShelfSync-backend/src/main/java/com/sunbeam/library/app/service/MemberService.java:138 | the fee line is built from the UTF-8 bytes of the rupee sign decoded as Windows-1252, giving "Membership Fee (â‚¹500.00)" | any checkout by a member whose membership is not active | "Membership Fee (₹500.00)", a rupee sign before the fee | not executed | MemberService.MembershipFeeDetailsAsWrittenLacksRupee | MemberService.MembershipFeeDetailsShowFee |
