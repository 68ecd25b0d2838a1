/** BookDetailsScreen: putting a copy of the shown book into the member's cart. */
module BookDetailsScreen {
  import opened Wrappers
  import opened Text
  import opened Entities
  import opened LibraryStore
  import opened MemberService
  import opened ApiClient

  const OutOfStock: Effect := Alert("Out of Stock", "There are no available copies of this book to borrow.")
  const NoCopyLeft: Effect :=
    Alert("Sorry!", "No copies were available at this moment. Someone might have just borrowed the last one.")
  const AddFailed: Effect := Alert("Error", "Could not add this book to your cart. Please try again.")

  /** The success alert names the copy and the book. */
  function AddedAlert(copyId: nat, bookName: string): Effect
  {
    Alert("Success!", "Copy #" + NatToString(copyId) + " of \"" + bookName + "\" has been added to your cart.")
  }

  /** What one press of the button leads to: the requests, and the alerts and navigation. */
  datatype AddFlow = AddFlow(calls: seq<ApiCall>, effects: seq<Effect>)

  /**
   * handleAddToCart's decisions, given the copies the server lists (null or a list) and how the
   * add-to-cart request settles.
   */
  function AddFlowOf(book: BookDto, copies: Response<Option<seq<BookCopy>>>, added: Response<()>): AddFlow
  {
    if book.availableCopies == 0 then AddFlow([], [OutOfStock])
    else
      match copies
      case Failed(_) => AddFlow([GetAvailableCopies(book.id)], [AddFailed])
      case Answer(listed) =>
        if listed.None? || |listed.value| == 0 then AddFlow([GetAvailableCopies(book.id)], [NoCopyLeft, GoBack])
        else
          var first := listed.value[0];
          var calls := [GetAvailableCopies(book.id), AddToCart(first.id)];
          match added
          case Answer(_) => AddFlow(calls, [AddedAlert(first.id, book.name)])
          case Failed(_) => AddFlow(calls, [AddFailed])
  }

  /**
   * A book shown with no available copy sends nothing; an empty list sends no add-to-cart request
   * and goes back; otherwise the copy asked for is the first one listed.
   */
  lemma AddFlowFacts(book: BookDto, copies: Response<Option<seq<BookCopy>>>, added: Response<()>)
    ensures var f := AddFlowOf(book, copies, added);
      && (f.calls == [] <==> book.availableCopies == 0)
      && (f.calls != [] ==> f.calls[0] == GetAvailableCopies(book.id))
      && (GoBack in f.effects <==>
            book.availableCopies > 0 && copies.Answer? && (copies.data.None? || copies.data.value == []))
      && (GoBack in f.effects ==> |f.calls| == 1)
      && (|f.calls| == 2 <==>
            book.availableCopies > 0 && copies.Answer? && copies.data.Some? && copies.data.value != [])
      && (|f.calls| == 2 ==> f.calls[1] == AddToCart(copies.data.value[0].id))
  {
  }

  /**
   * Against the server's list of available copies for the book (the answer of
   * getAvailableCopiesForBook), the copy put into the cart is an available copy of that book.
   */
  lemma AddedCopyIsAvailable(books: seq<Book>, cs: seq<BookCopy>, book: BookDto, added: Response<()>)
    requires BooksValid(books)
    requires GetAvailableCopiesForBook(books, cs, book.id).Ok?
    ensures var f := AddFlowOf(book, Answer(Some(GetAvailableCopiesForBook(books, cs, book.id).value)), added);
      |f.calls| == 2 ==> exists x :: x in cs && f.calls[1] == AddToCart(x.id) && x.book == book.id && x.status == Available
  {
    var listed := GetAvailableCopiesForBook(books, cs, book.id).value;
    if book.availableCopies > 0 && listed != [] {
      assert listed[0] in listed;
    }
  }

  /** The button is disabled while adding, and for a book shown with no available copy. */
  function AddButtonDisabled(isAddingToCart: bool, book: BookDto): bool
  {
    isAddingToCart || book.availableCopies == 0
  }

  class State {
    const book: BookDto
    var isAddingToCart: bool
    var requests: seq<Request>
    var effects: seq<Effect>

    constructor(book: BookDto)
      ensures this.book == book && !isAddingToCart && requests == [] && effects == []
    {
      this.book := book;
      isAddingToCart := false;
      requests := [];
      effects := [];
    }

    /**
     * handleAddToCart: out of stock, nothing is sent and the flag is not touched; otherwise the
     * requests go out while adding, and adding is over afterwards.
     */
    method HandleAddToCart(copies: Response<Option<seq<BookCopy>>>, added: Response<()>)
      modifies this
      ensures var f := AddFlowOf(book, copies, added);
        && requests == old(requests) + WhileBusy(f.calls)
        && effects == old(effects) + f.effects
      ensures book.availableCopies == 0 ==> isAddingToCart == old(isAddingToCart)
      ensures book.availableCopies > 0 ==> !isAddingToCart && !AddButtonDisabled(isAddingToCart, book)
    {
      if book.availableCopies == 0 {
        effects := effects + [OutOfStock];
        return;
      }
      isAddingToCart := true;
      requests := requests + [Request(GetAvailableCopies(book.id), isAddingToCart)];
      match copies {
        case Failed(_) =>
          effects := effects + [AddFailed];
        case Answer(listed) =>
          if listed.None? || |listed.value| == 0 {
            effects := effects + [NoCopyLeft, GoBack];
          } else {
            var first := listed.value[0];
            requests := requests + [Request(AddToCart(first.id), isAddingToCart)];
            match added {
              case Answer(_) =>
                effects := effects + [AddedAlert(first.id, book.name)];
              case Failed(_) =>
                effects := effects + [AddFailed];
            }
          }
      }
      isAddingToCart := false;
    }
  }
}
