/**
 * CartScreen: the member's cart as the app holds it, with removal of one entry (optimistic,
 * repaired by a reload when the server refuses) and checkout.
 */
module CartScreen {
  import opened Wrappers
  import opened ApiClient

  /** CartItemDTO as the screen lists it. */
  datatype CartEntry = CartEntry(cartItemId: nat, copyId: nat, bookName: string, rack: string)

  /** The removal filter: every entry whose id differs from `id`, in the order of the list. */
  function WithoutEntry(items: seq<CartEntry>, id: nat): (r: seq<CartEntry>)
    ensures |r| <= |items|
    ensures forall x :: x in r <==> x in items && x.cartItemId != id
  {
    if items == [] then []
    else
      assert items == [items[0]] + items[1..];
      (if items[0].cartItemId != id then [items[0]] else []) + WithoutEntry(items[1..], id)
  }

  /** The cart ids of a list, as the rendered rows register them. */
  function EntryIds(items: seq<CartEntry>): (r: set<nat>)
    ensures forall i :: 0 <= i < |items| ==> items[i].cartItemId in r
    ensures forall id :: id in r ==> exists i :: 0 <= i < |items| && items[i].cartItemId == id
  {
    set i | 0 <= i < |items| :: items[i].cartItemId
  }

  /** No two entries share a cart id. */
  predicate IdsDistinct(items: seq<CartEntry>)
  {
    forall i, j :: 0 <= i < j < |items| ==> items[i].cartItemId != items[j].cartItemId
  }

  /** Removing an id that is not listed leaves the list as it was. */
  lemma {:induction false} WithoutAbsentEntry(items: seq<CartEntry>, id: nat)
    requires forall i :: 0 <= i < |items| ==> items[i].cartItemId != id
    ensures WithoutEntry(items, id) == items
  {
    if items != [] {
      WithoutAbsentEntry(items[1..], id);
      assert items == [items[0]] + items[1..];
    }
  }

  /** Removing a listed id drops exactly that entry and keeps the others in order. */
  lemma {:induction false} WithoutListedEntry(items: seq<CartEntry>, k: nat)
    requires IdsDistinct(items) && k < |items|
    ensures WithoutEntry(items, items[k].cartItemId) == items[..k] + items[k + 1..]
  {
    var id := items[k].cartItemId;
    var rest := items[1..];
    if k == 0 {
      assert forall i :: 0 <= i < |rest| ==> rest[i] == items[i + 1];
      WithoutAbsentEntry(rest, id);
    } else {
      WithoutListedEntry(rest, k - 1);
      assert rest[k - 1] == items[k];
      assert items[..k] == [items[0]] + rest[..k - 1];
      assert rest[k..] == items[k + 1..];
    }
  }

  /** The checkout button: absent for an empty cart, otherwise present and maybe disabled. */
  datatype CheckoutButton = NoButton | Button(disabled: bool)

  function CheckoutButtonFor(items: seq<CartEntry>, checkingOut: bool): (b: CheckoutButton)
    ensures b.Button? <==> items != []
    ensures b.Button? ==> (b.disabled <==> checkingOut)
  {
    if |items| > 0 then Button(checkingOut) else NoButton
  }

  const LoadFailedAlert: Effect := Alert("Error", "Could not load your cart.")
  const SyncFailedAlert: Effect := Alert("Error", "Could not sync removal with server.")
  const CheckoutFallback: string := "An error occurred during checkout."

  /** The screen's state, the row refs it has registered, and what it has sent and shown. */
  class State {
    var cartItems: seq<CartEntry>
    var loading: bool
    var checkingOut: bool
    var viewRefs: set<nat>
    var requests: seq<Request>
    var effects: seq<Effect>

    constructor()
      ensures cartItems == [] && loading && !checkingOut && viewRefs == {}
      ensures requests == [] && effects == []
    {
      cartItems := [];
      loading := true;
      checkingOut := false;
      viewRefs := {};
      requests := [];
      effects := [];
    }

    /** A render: while loading only the spinner is shown, otherwise one row per entry. */
    method Render()
      modifies this
      ensures viewRefs == if loading then {} else EntryIds(cartItems)
      ensures cartItems == old(cartItems) && loading == old(loading) && checkingOut == old(checkingOut)
      ensures requests == old(requests) && effects == old(effects)
    {
      viewRefs := if loading then {} else EntryIds(cartItems);
    }

    /** fetchCart: the server's cart replaces the list; a failure keeps it and alerts. */
    method FetchCart(response: Response<seq<CartEntry>>)
      modifies this
      ensures requests == old(requests) + [Request(ViewCart, true)]
      ensures response.Answer? ==> cartItems == response.data && effects == old(effects)
      ensures response.Failed? ==> cartItems == old(cartItems) && effects == old(effects) + [LoadFailedAlert]
      ensures !loading
      ensures checkingOut == old(checkingOut) && viewRefs == old(viewRefs)
    {
      loading := true;
      requests := requests + [Request(ViewCart, loading)];
      match response {
        case Answer(items) =>
          cartItems := items;
        case Failed(_) =>
          effects := effects + [LoadFailedAlert];
      }
      loading := false;
    }

    /**
     * handleRemove: without a registered row nothing happens; otherwise the entry leaves the
     * list, the server is asked to remove it, and a refusal alerts and reloads the cart.
     */
    method HandleRemove(item: CartEntry, removal: Response<()>, reload: Response<seq<CartEntry>>)
      modifies this
      ensures item.cartItemId !in old(viewRefs) ==> unchanged(this)
      ensures item.cartItemId in old(viewRefs) && removal.Answer? ==>
        && cartItems == WithoutEntry(old(cartItems), item.cartItemId)
        && requests == old(requests) + [Request(RemoveFromCart(item.cartItemId), false)]
        && effects == old(effects) && loading == old(loading)
      ensures item.cartItemId in old(viewRefs) && removal.Failed? ==>
        && cartItems == (if reload.Answer? then reload.data else WithoutEntry(old(cartItems), item.cartItemId))
        && requests == old(requests) + [Request(RemoveFromCart(item.cartItemId), false), Request(ViewCart, true)]
        && effects == old(effects) + [SyncFailedAlert] + (if reload.Failed? then [LoadFailedAlert] else [])
        && !loading
      ensures checkingOut == old(checkingOut) && viewRefs == old(viewRefs)
    {
      var id := item.cartItemId;
      if id !in viewRefs {
        return;
      }
      cartItems := WithoutEntry(cartItems, id);
      requests := requests + [Request(RemoveFromCart(id), false)];
      if removal.Failed? {
        effects := effects + [SyncFailedAlert];
        FetchCart(reload);
      }
    }

    /**
     * handleCheckout: the request goes out with the button disabled; the outcome is only
     * alerted, and the list is left as it was.
     */
    method HandleCheckout(response: Response<string>)
      modifies this
      ensures requests == old(requests) + [Request(CheckoutCart, true)]
      ensures response.Answer? ==> effects == old(effects) + [Alert("Checkout Successful", response.data)]
      ensures response.Failed? ==>
        effects == old(effects) + [Alert("Checkout Failed", ErrorText(response.serverError, CheckoutFallback))]
      ensures !checkingOut
      ensures cartItems == old(cartItems) && loading == old(loading) && viewRefs == old(viewRefs)
      ensures CheckoutButtonFor(cartItems, checkingOut) == CheckoutButtonFor(old(cartItems), false)
    {
      checkingOut := true;
      requests := requests + [Request(CheckoutCart, checkingOut)];
      match response {
        case Answer(status) =>
          effects := effects + [Alert("Checkout Successful", status)];
        case Failed(serverError) =>
          effects := effects + [Alert("Checkout Failed", ErrorText(serverError, CheckoutFallback))];
      }
      checkingOut := false;
    }
  }
}
