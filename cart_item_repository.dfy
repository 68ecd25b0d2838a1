/** CartItemRepository's derived queries and its bulk delete. */
module CartItemRepository {
  import opened Wrappers
  import opened Entities
  import opened Seqs
  import opened LibraryStore

  function CartItemId(x: CartItem): nat
  {
    x.id
  }

  function CartItemCopy(x: CartItem): nat
  {
    x.copy
  }

  /** findByMember: the member's cart items, in table order. */
  function FindByMember(items: seq<CartItem>, member: nat): (r: seq<CartItem>)
    ensures forall x :: multiset(r)[x] == if x.member == member then multiset(items)[x] else 0
    ensures forall x :: x in r <==> x in items && x.member == member
  {
    Filter(items, (x: CartItem) => x.member == member)
  }

  /** findById: the position of the cart item with that id, if any. */
  function FindById(items: seq<CartItem>, id: int): (r: Option<nat>)
    ensures r.Some? ==> r.value < |items| && items[r.value].id == id
    ensures r.None? <==> forall i :: 0 <= i < |items| ==> items[i].id != id
  {
    FirstIndex(items, (x: CartItem) => x.id == id)
  }

  /** findByBookCopyId: the cart item holding a copy, if any. */
  function FindByBookCopyId(items: seq<CartItem>, copy: nat): (r: Option<CartItem>)
    ensures r.Some? ==> r.value in items && r.value.copy == copy
    ensures r.None? <==> forall x :: x in items ==> x.copy != copy
  {
    if items == [] then None
    else if items[0].copy == copy then Some(items[0])
    else FindByBookCopyId(items[1..], copy)
  }

  /** In a valid cart table the item holding a copy is the only one. */
  lemma FindByBookCopyIdUnique(items: seq<CartItem>, nextId: nat, memberCount: nat, copyCount: nat, i: nat)
    requires CartValid(items, nextId, memberCount, copyCount) && i < |items|
    ensures FindByBookCopyId(items, items[i].copy) == Some(items[i])
  {
    var x := FindByBookCopyId(items, items[i].copy).value;
    var k :| 0 <= k < |items| && items[k] == x;
    assert k == i;
  }

  /** The table after deleteByMember(member). */
  function WithoutMember(items: seq<CartItem>, member: nat): (r: seq<CartItem>)
    ensures forall x :: multiset(r)[x] == if x.member != member then multiset(items)[x] else 0
  {
    Filter(items, (x: CartItem) => x.member != member)
  }

  /**
   * After deleting a member's items the member's cart is empty, and every other member's cart
   * is exactly as it was.
   */
  lemma WithoutMemberEffect(items: seq<CartItem>, member: nat, other: nat)
    ensures FindByMember(WithoutMember(items, member), member) == []
    ensures other != member ==> FindByMember(WithoutMember(items, member), other) == FindByMember(items, other)
  {
    if other != member {
      FilterTwice(items, (x: CartItem) => x.member != member, (x: CartItem) => x.member == other);
    }
  }

  /** Deleting items keeps the cart table valid. */
  lemma WithoutMemberKeepsCartValid(items: seq<CartItem>, nextId: nat, memberCount: nat, copyCount: nat, member: nat)
    requires CartValid(items, nextId, memberCount, copyCount)
    ensures CartValid(WithoutMember(items, member), nextId, memberCount, copyCount)
  {
    var p := (x: CartItem) => x.member != member;
    var r := WithoutMember(items, member);
    assert KeysDistinct(items, CartItemId);
    assert KeysDistinct(items, CartItemCopy);
    FilterKeepsKeysDistinct(items, p, CartItemId);
    FilterKeepsKeysDistinct(items, p, CartItemCopy);
    forall i | 0 <= i < |r|
      ensures r[i].id < nextId && r[i].member < memberCount && r[i].copy < copyCount
    {
      assert r[i] in items;
    }
  }

  /** deleteByMember(member), applied to the store. */
  method DeleteByMember(db: Store, member: nat)
    requires db.Valid()
    modifies db
    ensures db.Valid()
    ensures db.cartItems == WithoutMember(old(db.cartItems), member)
    ensures db.members == old(db.members) && db.books == old(db.books) && db.copies == old(db.copies)
    ensures db.nextCartItemId == old(db.nextCartItemId)
    ensures db.issues == old(db.issues) && db.payments == old(db.payments)
  {
    WithoutMemberKeepsCartValid(db.cartItems, db.nextCartItemId, |db.members|, |db.copies|, member);
    db.cartItems := WithoutMember(db.cartItems, member);
  }
}
