/**
 * What the React Native screens see of the backend: the requests they send through the api
 * client, the answer each request gets, and the alerts and navigation they trigger.
 */
module ApiClient {
  import opened Wrappers

  /** The api client's calls, with the arguments each screen passes. */
  datatype ApiCall =
    | ViewCart
    | RemoveFromCart(cartItemId: nat)
    | CheckoutCart
    | ChangeMyPassword(oldPassword: string, newPassword: string)
    | RegisterCall(name: string, email: string, phone: string, password: string)
    | LoginCall(email: string, password: string)
    | GetAvailableCopies(bookId: nat)
    | AddToCart(copyId: nat)
    | GetAllBooks
    | SearchBooks(query: string)

  /**
   * A request as a screen issues it; `whileBusy` is the screen's progress flag (loading,
   * checkingOut, isAddingToCart, ...) at the moment the request goes out.
   */
  datatype Request = Request(call: ApiCall, whileBusy: bool)

  /** Requests sent one after the other while the screen shows its progress flag. */
  function WhileBusy(calls: seq<ApiCall>): seq<Request>
  {
    seq(|calls|, i requires 0 <= i < |calls| => Request(calls[i], true))
  }

  /**
   * How an awaited request settles: the response body, or a rejected promise carrying the
   * `error` field of the server's JSON body when there is one.
   */
  datatype Response<+T> = Answer(data: T) | Failed(serverError: Option<string>)

  /**
   * An entry of the member's borrowed-books list (IssueRecordDTO) as the screens read it: each
   * date is the instant, in milliseconds, that `new Date(...)` makes of it.
   */
  datatype BorrowedItem = BorrowedItem(
    id: nat, bookName: string, bookAuthor: string, copyId: nat,
    issueDate: int, dueDate: int, returnDate: Option<int>)

  /** What a handler shows or does besides setting state. */
  datatype Effect =
    | Alert(title: string, message: string)
    | GoBack

  /** A JavaScript string is falsy exactly when it is empty. */
  predicate Truthy(s: string)
  {
    s != ""
  }

  /** A value that may be null (a token, say): truthy when present and non-empty. */
  predicate TruthyOpt(s: Option<string>)
  {
    s.Some? && Truthy(s.value)
  }

  /** `error.response?.data?.error || fallback`: the server's message unless it is absent or empty. */
  function ErrorText(serverError: Option<string>, fallback: string): (r: string)
    ensures TruthyOpt(serverError) ==> r == serverError.value
    ensures !TruthyOpt(serverError) ==> r == fallback
    ensures Truthy(fallback) ==> Truthy(r)
  {
    if TruthyOpt(serverError) then serverError.value else fallback
  }

  /** The characters `String.prototype.trim` removes: white space and line terminators. */
  predicate IsJsWhitespace(c: char)
  {
    || c == '\t' || c == '\n' || c == '\U{000B}' || c == '\U{000C}' || c == '\r' || c == ' '
    || c == '\U{00A0}' || c == '\U{1680}' || ('\U{2000}' <= c <= '\U{200A}')
    || c == '\U{2028}' || c == '\U{2029}' || c == '\U{202F}' || c == '\U{205F}' || c == '\U{3000}'
    || c == '\U{FEFF}'
  }

  /** `s.trim()` is empty: every character of `s` is white space. */
  predicate IsBlank(s: string)
  {
    forall i :: 0 <= i < |s| ==> IsJsWhitespace(s[i])
  }
}
