/** The "add to cart" button. It keeps its own `isInCart` flag, recomputed by an
 effect whenever the cart changes, and a press either removes or adds the
 product depending on that flag. The effect sniffs the shape of the FIRST cart
 entry and then reads every entry as if it had that shape. */
module CartButton {
  import opened Js
  import opened EntryLists
  import opened Storage
  import opened CartStore
  import InitStores

  /** `checkIfInCart()` as written: the new value of `isInCart`, given the old one.
   If the first entry is a wrapper every entry is read as `item.product.id`; if it
   is a bare product every entry is read as `item.id`; otherwise the flag stays. */
  function CheckIfInCart(items: seq<Entry>, id: string, prev: bool): (r: Eval<bool>)
    ensures |items| == 0 ==> r == Ok(false)
    ensures |items| > 0 && items[0] == Null ==> r.Throws?
    ensures |items| > 0 && HasProduct(items[0]) && (forall i | 0 <= i < |items| :: HasProduct(items[i])) ==>
              r == Ok(exists i | 0 <= i < |items| :: ProductIdField(items[i]) == Ok(Some(id)))
    ensures |items| > 0 && HasProduct(items[0]) && r.Ok? ==>
              (r.value <==> exists i | 0 <= i < |items| :: ProductIdField(items[i]) == Ok(Some(id)))
    ensures |items| > 0 && items[0] != Null && !HasProduct(items[0]) && HasId(items[0]) && Null !in items ==>
              r == Ok(exists i | 0 <= i < |items| :: IdIs(items[i], id))
    ensures |items| > 0 && items[0] != Null && !HasProduct(items[0]) && !HasId(items[0]) ==> r == Ok(prev)
  {
    if |items| == 0 then Ok(false)
    else if items[0] == Null then Throws
    else if HasProduct(items[0]) then AnyMatch(items, ProductIdField, id)
    else if HasId(items[0]) then AnyMatch(items, IdField, id)
    else Ok(prev)
  }

  /** With a wrapper first, a bare product reached before any match raises the
   TypeError (`item.product` is undefined). */
  lemma BareEntryAfterWrapperThrows(items: seq<Entry>, id: string, prev: bool, k: nat)
    requires 0 < k < |items| && HasProduct(items[0])
    requires items[k].Raw?
    requires forall j | 0 <= j < k :: ProductIdField(items[j]) != Ok(Some(id))
    ensures CheckIfInCart(items, id, prev).Throws?
  {
    AnyMatchThrows(items, ProductIdField, id);
    assert ProductIdField(items[k]).Throws? && NoMatchBefore(items, ProductIdField, id, k);
  }

  /** On a freshly migrated legacy cart the button gives the same answer as it did
   on the bare list before migration. */
  lemma {:induction false} MigrationKeepsInCartAnswer(s: seq<Entry>, id: string, prev: bool)
    requires InitStores.NeedsMigration(s) && Null !in s
    ensures CheckIfInCart(InitStores.Migrate(s).value, id, prev) == CheckIfInCart(s, id, prev)
  {
    var m := InitStores.Migrate(s).value;
    assert HasProduct(m[0]);
    AnyMatchSameKeys(m, s, ProductIdField, IdField, id);
  }

  /** Two scans whose keys agree element by element give the same answer. */
  lemma {:induction false} AnyMatchSameKeys(a: seq<Entry>, b: seq<Entry>,
                                            ka: Entry -> Eval<Option<string>>, kb: Entry -> Eval<Option<string>>, id: string)
    requires |a| == |b|
    requires forall i | 0 <= i < |a| :: ka(a[i]) == kb(b[i])
    ensures AnyMatch(a, ka, id) == AnyMatch(b, kb, id)
  {
    if |a| > 0 {
      assert forall i | 0 <= i < |a[1..]| :: a[1..][i] == a[i + 1] && b[1..][i] == b[i + 1];
      AnyMatchSameKeys(a[1..], b[1..], ka, kb, id);
    }
  }

  /** The situation every user reaches: a legacy cart is migrated at start-up and
   a new product is then added through the store, which appends it bare. The
   button's effect for that product then raises instead of answering. */
  lemma MigratedCartThenAddThrows(s: seq<Entry>, product: Product, prev: bool)
    requires InitStores.NeedsMigration(s) && Null !in s
    requires AnyMatch(InitStores.Migrate(s).value, IdField, product.id) == Ok(false)
    ensures CheckIfInCart(ListAfterAdd(InitStores.Migrate(s).value, product), product.id, prev).Throws?
  {
    var m := InitStores.Migrate(s).value;
    var c := ListAfterAdd(m, product);
    assert c == m + [Raw(product)];
    assert forall j | 0 <= j < |m| :: c[j] == m[j] && ProductIdField(c[j]) == IdField(m[j]);
    BareEntryAfterWrapperThrows(c, product.id, prev, |m|);
  }

  /** A concrete instance: one migrated product, then a second product added. */
  lemma MixedCartCounterexample()
    ensures var p := Product("1", "", "", "", "10", "", "m", "b");
            var q := Product("2", "", "", "", "20", "", "m", "b");
            CheckIfInCart([Wrapped(Raw(p), 1, Some("1")), Raw(q)], "2", false).Throws?
  {
    var p := Product("1", "", "", "", "10", "", "m", "b");
    var q := Product("2", "", "", "", "20", "", "m", "b");
    var items := [Wrapped(Raw(p), 1, Some("1")), Raw(q)];
    BareEntryAfterWrapperThrows(items, "2", false, 1);
  }

  /** The evidently intended test: read each entry by its own shape,
   `(item.product ?? item).id`, so that wrapped and bare entries can coexist. */
  function OwnProductId(e: Entry): Eval<Option<string>>
  {
    if HasProduct(e) then IdField(e.inner) else IdField(e)
  }

  /** Wrappers carry the id of the product they wrap (the migration keeps this). */
  ghost predicate ConsistentWrappers(items: seq<Entry>)
  {
    forall i | 0 <= i < |items| :: HasProduct(items[i]) ==> IdField(items[i]) == IdField(items[i].inner)
  }

  /** The corrected membership test, on any mix of bare and wrapped entries. */
  function InCart(items: seq<Entry>, id: string): (r: Eval<bool>)
    ensures (forall i | 0 <= i < |items| :: OwnProductId(items[i]).Ok?) ==>
              r == Ok(exists i | 0 <= i < |items| :: OwnProductId(items[i]) == Ok(Some(id)))
  {
    AnyMatch(items, OwnProductId, id)
  }

  /** On a cart without `null` whose wrappers are consistent, the corrected test
   never raises and agrees with the store's own duplicate check. */
  lemma InCartAgreesWithStore(items: seq<Entry>, id: string)
    requires Null !in items && ConsistentWrappers(items)
    ensures InCart(items, id).Ok?
    ensures InCart(items, id) == AnyMatch(items, IdField, id)
  {
    forall i | 0 <= i < |items| ensures OwnProductId(items[i]) == IdField(items[i]) {
      assert items[i] != Null;
    }
    AnyMatchSameKeys(items, items, OwnProductId, IdField, id);
  }

  /** An add appends a bare product, which is not a wrapper, so the wrappers stay consistent. */
  lemma AddKeepsConsistentWrappers(items: seq<Entry>, product: Product)
    requires ConsistentWrappers(items)
    ensures ConsistentWrappers(ListAfterAdd(items, product))
  {
    var c := ListAfterAdd(items, product);
    forall j | 0 <= j < |c| && HasProduct(c[j]) ensures IdField(c[j]) == IdField(c[j].inner) {
      assert j < |items| && c[j] == items[j];
    }
  }

  /** A remove only drops entries, so the wrappers left stay consistent. */
  lemma RemoveKeepsConsistentWrappers(items: seq<Entry>, id: string)
    requires ConsistentWrappers(items)
    ensures ConsistentWrappers(ListAfterRemove(items, id))
  {
    var c := ListAfterRemove(items, id);
    forall j | 0 <= j < |c| && HasProduct(c[j]) ensures IdField(c[j]) == IdField(c[j].inner) {
      if Null !in items {
        assert c[j] in items;
      }
      var k :| 0 <= k < |items| && items[k] == c[j];
    }
  }

  /** The migration makes every wrapper carry its product's id, and an add after
   it keeps that. */
  lemma ConsistentAfterMigrateAndAdd(s: seq<Entry>, product: Product)
    requires Null !in s
    ensures ConsistentWrappers(InitStores.Migrate(s).value)
    ensures ConsistentWrappers(ListAfterAdd(InitStores.Migrate(s).value, product))
  {
    var m := InitStores.Migrate(s).value;
    forall j | 0 <= j < |m| && HasProduct(m[j]) ensures IdField(m[j]) == IdField(m[j].inner) {
    }
    AddKeepsConsistentWrappers(m, product);
  }

  /** A store operation on the cart list. */
  datatype CartOp = Add(product: Product) | Remove(id: string) | Clear

  /** The cart list after one store operation. */
  function Step(items: seq<Entry>, op: CartOp): seq<Entry>
  {
    match op
    case Add(p) => ListAfterAdd(items, p)
    case Remove(id) => ListAfterRemove(items, id)
    case Clear => []
  }

  /** The cart list after a sequence of store operations, in order. */
  function Replay(items: seq<Entry>, ops: seq<CartOp>): seq<Entry>
    decreases |ops|
  {
    if |ops| == 0 then items else Replay(Step(items, ops[0]), ops[1..])
  }

  /** Every cart the app produces from a consistent start, whatever adds, removes
   and clears follow, keeps its wrappers consistent; with `InCartAgreesWithStore`
   the corrected test then never raises on a cart without `null`. */
  lemma {:induction false} ReplayKeepsConsistentWrappers(items: seq<Entry>, ops: seq<CartOp>)
    requires ConsistentWrappers(items)
    ensures ConsistentWrappers(Replay(items, ops))
    decreases |ops|
  {
    if |ops| > 0 {
      if ops[0].Add? {
        AddKeepsConsistentWrappers(items, ops[0].product);
      } else if ops[0].Remove? {
        RemoveKeepsConsistentWrappers(items, ops[0].id);
      }
      ReplayKeepsConsistentWrappers(Step(items, ops[0]), ops[1..]);
    }
  }

  class AddToCartButton {
    const product: Product
    var isInCart: bool

    constructor (product: Product)
      ensures this.product == product && !isInCart
    {
      this.product := product;
      isInCart := false;
    }

    /** The effect: recompute `isInCart`; a TypeError crashes the effect and the flag keeps its value. */
    method Refresh(cart: Cart) returns (crashed: bool)
      modifies this
      ensures crashed <==> CheckIfInCart(cart.cartItems, product.id, old(isInCart)).Throws?
      ensures !crashed ==> isInCart == CheckIfInCart(cart.cartItems, product.id, old(isInCart)).value
      ensures crashed ==> isInCart == old(isInCart)
    {
      var checked := CheckIfInCart(cart.cartItems, product.id, isInCart);
      match checked
      case Ok(b) =>
        isInCart := b;
        crashed := false;
      case Throws =>
        crashed := true;
    }

    /** `handleAddToCart()`: the store operations never raise, so the flag is
     always set afterwards, even when the store refused the product. */
    method Press(cart: Cart, disk: Disk, writeFails: bool)
      modifies this, cart, disk
      ensures cart.isLoading == old(cart.isLoading)
      ensures old(isInCart) ==> !isInCart && cart.cartItems == ListAfterRemove(old(cart.cartItems), product.id)
      ensures old(isInCart) && Null in old(cart.cartItems) ==>
                cart.error == Some(RemoveError) && disk.items == old(disk.items)
      ensures old(isInCart) && Null !in old(cart.cartItems) ==>
                if writeFails
                then cart.error == Some(RemoveError) && disk.items == old(disk.items)
                else cart.error == old(cart.error) && disk.items == old(disk.items)[CartKey := Parsed(cart.cartItems)]
      ensures !old(isInCart) ==> isInCart && cart.cartItems == ListAfterAdd(old(cart.cartItems), product)
      ensures !old(isInCart) && AnyMatch(old(cart.cartItems), IdField, product.id) == Ok(true) ==>
                cart.error == old(cart.error) && disk.items == old(disk.items)
      ensures !old(isInCart) && AnyMatch(old(cart.cartItems), IdField, product.id).Throws? ==>
                cart.error == Some(AddError) && disk.items == old(disk.items)
      ensures !old(isInCart) && AnyMatch(old(cart.cartItems), IdField, product.id) == Ok(false) ==>
                if writeFails
                then cart.error == Some(AddError) && disk.items == old(disk.items)
                else cart.error == old(cart.error) && disk.items == old(disk.items)[CartKey := Parsed(cart.cartItems)]
    {
      if isInCart {
        cart.RemoveFromCart(product.id, disk, writeFails);
        isInCart := false;
      } else {
        var _ := cart.AddToCart(product, disk, writeFails);
        isInCart := true;
      }
    }
  }
}
