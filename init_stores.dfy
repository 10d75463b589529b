/** Start-up loading of both stores. The cart load also migrates a cart saved in
 the legacy shape (bare products) to `{product, quantity: 1, id}` wrappers and
 writes the migrated list back without waiting for, or caring about, the result.
 Unlike the stores' own load operations, these never record an error: anything
 that goes wrong ends with an empty list, or with the list untouched when even
 the read failed. */
module InitStores {
  import opened Js
  import opened EntryLists
  import opened Storage
  import CartStore
  import FavoritesStore

  /** The legacy-shape test: the first element is truthy, has no truthy
   `product` and has a truthy `id`. Only the first element is looked at. */
  predicate NeedsMigration(s: seq<Entry>): (r: bool)
    ensures r <==>
              |s| > 0 &&
              ((s[0].Raw? && s[0].item.id != "") ||
               (s[0].Wrapped? && s[0].inner == Null && s[0].id.Some? && s[0].id.value != ""))
  {
    |s| > 0 && s[0] != Null && !HasProduct(s[0]) && HasId(s[0])
  }

  /** Only the first element is looked at: whatever follows a non-empty list
   never changes the answer. */
  lemma NeedsMigrationLooksAtFirstOnly(s: seq<Entry>, t: seq<Entry>)
    requires |s| > 0
    ensures NeedsMigration(s + t) == NeedsMigration(s)
  {
    assert (s + t)[0] == s[0];
  }

  /** `parsedCart.map(item => ({product: item, quantity: 1, id: item.id}))`;
   reading `id` of a `null` element raises a TypeError. */
  function Migrate(s: seq<Entry>): (r: Eval<seq<Entry>>)
    ensures r.Ok? <==> Null !in s
    ensures r.Ok? ==> |r.value| == |s|
    ensures r.Ok? ==> forall i | 0 <= i < |s| ::
              r.value[i].Wrapped? && r.value[i].inner == s[i] && r.value[i].quantity == 1 &&
              IdField(r.value[i]) == IdField(s[i]) && ProductIdField(r.value[i]) == IdField(s[i])
  {
    if |s| == 0 then Ok([])
    else
      match IdField(s[0])
      case Throws => Throws
      case Ok(k) =>
        match Migrate(s[1..])
        case Throws => Throws
        case Ok(rest) => Ok([Wrapped(s[0], 1, k)] + rest)
  }

  /** Removing an id before or after the migration gives the same cart: the
   migration keeps the ids that `removeFromCart` filters on. */
  lemma {:induction false} MigrateCommutesWithRemove(s: seq<Entry>, id: string)
    requires Null !in s
    ensures Migrate(ListAfterRemove(s, id)) == Ok(ListAfterRemove(Migrate(s).value, id))
  {
    if |s| > 0 {
      assert forall e | e in s[1..] :: e in s;
      MigrateCommutesWithRemove(s[1..], id);
      var m := Migrate(s).value;
      assert m[1..] == Migrate(s[1..]).value;
      assert m[0] != Null;
      assert forall e | e in m[1..] :: e in m;
      var rest := ListAfterRemove(s[1..], id);
      if !IdIs(s[0], id) {
        assert ListAfterRemove(s, id) == [s[0]] + rest;
        assert ([s[0]] + rest)[1..] == rest;
      }
    }
  }

  /** The migration keeps whether the ids are pairwise distinct. */
  lemma MigrateKeepsUniqueIds(s: seq<Entry>)
    requires Null !in s
    ensures UniqueIds(Migrate(s).value) <==> UniqueIds(s)
  {
  }

  /** `initializeCart()`. */
  method InitializeCart(cart: CartStore.Cart, disk: Disk, readFails: bool, writeFails: bool)
    modifies cart, disk
    ensures !cart.isLoading && cart.error == old(cart.error)
    ensures readFails ==> cart.cartItems == old(cart.cartItems) && disk.items == old(disk.items)
    ensures !readFails && (CartKey !in old(disk.items) || old(disk.items)[CartKey] in {Empty, Malformed}) ==>
              cart.cartItems == [] && disk.items == old(disk.items)
    ensures !readFails && CartKey in old(disk.items) && old(disk.items)[CartKey].Parsed? ==>
              var s := old(disk.items)[CartKey].entries;
              if !NeedsMigration(s) then
                cart.cartItems == s && disk.items == old(disk.items)
              else if Null in s then
                cart.cartItems == [] && disk.items == old(disk.items)
              else
                cart.cartItems == Migrate(s).value &&
                disk.items == if writeFails then old(disk.items) else old(disk.items)[CartKey := Parsed(cart.cartItems)]
  {
    var stored := disk.GetItem(CartKey, readFails);
    match stored
    case ReadFailed =>
      cart.isLoading := false;
    case NotFound =>
      cart.cartItems, cart.isLoading := [], false;
    case Found(Empty) =>
      cart.cartItems, cart.isLoading := [], false;
    case Found(Malformed) =>
      cart.cartItems, cart.isLoading := [], false;
    case Found(Parsed(s)) =>
      var normalized := s;
      if NeedsMigration(s) {
        var migrated := Migrate(s);
        match migrated
        case Throws =>
          cart.cartItems, cart.isLoading := [], false;
          return;
        case Ok(m) =>
          normalized := m;
          var _ := disk.SetItem(CartKey, normalized, writeFails);
      }
      cart.cartItems, cart.isLoading := normalized, false;
  }

  /** `initializeFavorites()`: the same load, without any migration. */
  method InitializeFavorites(favs: FavoritesStore.Favorites, disk: Disk, readFails: bool)
    modifies favs
    ensures !favs.isLoading && favs.error == old(favs.error)
    ensures readFails ==> favs.favorites == old(favs.favorites)
    ensures !readFails && (FavoritesKey !in disk.items || disk.items[FavoritesKey] in {Empty, Malformed}) ==>
              favs.favorites == []
    ensures !readFails && FavoritesKey in disk.items && disk.items[FavoritesKey].Parsed? ==>
              favs.favorites == disk.items[FavoritesKey].entries
  {
    var stored := disk.GetItem(FavoritesKey, readFails);
    match stored
    case ReadFailed =>
      favs.isLoading := false;
    case NotFound =>
      favs.favorites, favs.isLoading := [], false;
    case Found(Empty) =>
      favs.favorites, favs.isLoading := [], false;
    case Found(Malformed) =>
      favs.favorites, favs.isLoading := [], false;
    case Found(Parsed(s)) =>
      favs.favorites, favs.isLoading := s, false;
  }
}
