/** SearchBookScreen: the catalogue list, narrowed by a search query. */
module SearchBookScreen {
  import opened Wrappers
  import opened Text
  import opened Entities
  import opened BookCopyRepository
  import opened MemberService
  import opened ApiClient

  const LoadFailed: Effect := Alert("Error", "Could not load the library's books.")
  const SearchFailed: Effect := Alert("Error", "Could not perform search.")
  const AvailableSuffix: string := " available"

  /** `hasCopies` */
  predicate HasCopies(b: BookDto)
  {
    b.availableCopies > 0
  }

  /** The availability chip of a list row. */
  function AvailabilityLabel(b: BookDto): string
  {
    if HasCopies(b) then NatToString(b.availableCopies) + AvailableSuffix else "Unavailable"
  }

  /**
   * The chip reads "Unavailable" exactly when no copy is available; otherwise it starts with the
   * number of available copies, which reads back from its digits.
   */
  lemma AvailabilityLabelMeaning(b: BookDto)
    ensures AvailabilityLabel(b) == "Unavailable" <==> !HasCopies(b)
    ensures HasCopies(b) ==>
      var l := AvailabilityLabel(b);
      var n := |l| - |AvailableSuffix|;
      && n >= 1 && l[n..] == AvailableSuffix
      && (forall i :: 0 <= i < n ==> IsDigit(l[i]))
      && ParseNat(l[..n]) == b.availableCopies
  {
    if HasCopies(b) {
      var l := AvailabilityLabel(b);
      var n := |l| - |AvailableSuffix|;
      assert l[..n] == NatToString(b.availableCopies);
      NatToStringRoundTrip(b.availableCopies);
    } else {
      assert AvailabilityLabel(b)[0] == 'U';
    }
  }

  /** For a book as the server describes it, the chip shows a count exactly when an AVAILABLE copy exists. */
  lemma ServerBookHasCopies(b: Book, cs: seq<BookCopy>)
    ensures HasCopies(MapToBookDto(b, cs)) <==> exists x :: x in cs && x.book == b.id && x.status == Available
  {
    var found := FindByBookAndStatus(cs, b.id, Available);
    if found != [] {
      assert found[0] in found;
    }
  }

  class State {
    var searchQuery: string
    var books: seq<BookDto>
    var loading: bool
    var isSearching: bool
    var requests: seq<Request>
    var effects: seq<Effect>

    constructor()
      ensures searchQuery == "" && books == [] && loading && !isSearching && requests == [] && effects == []
    {
      searchQuery := "";
      books := [];
      loading := true;
      isSearching := false;
      requests := [];
      effects := [];
    }

    /** fetchAllBooks: the whole catalogue replaces the list; a failure keeps it and alerts. */
    method FetchAllBooks(response: Response<seq<BookDto>>)
      modifies this
      ensures requests == old(requests) + [Request(GetAllBooks, true)]
      ensures response.Answer? ==> books == response.data && effects == old(effects)
      ensures response.Failed? ==> books == old(books) && effects == old(effects) + [LoadFailed]
      ensures !loading && isSearching == old(isSearching) && searchQuery == old(searchQuery)
    {
      loading := true;
      requests := requests + [Request(GetAllBooks, loading)];
      match response {
        case Answer(all) =>
          books := all;
        case Failed(_) =>
          effects := effects + [LoadFailed];
      }
      loading := false;
    }

    /**
     * handleSearch: a blank query reloads the catalogue instead of searching; any other query is
     * sent as typed, untrimmed, and its result replaces the list.
     */
    method HandleSearch(all: Response<seq<BookDto>>, found: Response<seq<BookDto>>)
      modifies this
      ensures IsBlank(searchQuery) ==>
        && requests == old(requests) + [Request(GetAllBooks, true)]
        && (all.Answer? ==> books == all.data && effects == old(effects))
        && (all.Failed? ==> books == old(books) && effects == old(effects) + [LoadFailed])
        && !loading && isSearching == old(isSearching)
      ensures !IsBlank(searchQuery) ==>
        && requests == old(requests) + [Request(SearchBooks(searchQuery), true)]
        && (found.Answer? ==> books == found.data && effects == old(effects))
        && (found.Failed? ==> books == old(books) && effects == old(effects) + [SearchFailed])
        && !isSearching && loading == old(loading)
      ensures searchQuery == old(searchQuery)
    {
      if IsBlank(searchQuery) {
        FetchAllBooks(all);
        return;
      }
      isSearching := true;
      requests := requests + [Request(SearchBooks(searchQuery), isSearching)];
      match found {
        case Answer(result) =>
          books := result;
        case Failed(_) =>
          effects := effects + [SearchFailed];
      }
      isSearching := false;
    }
  }
}
