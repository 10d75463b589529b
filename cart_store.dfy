/** The cart store: a list of products that refuses a second entry with the same
 id, mirrored to the `cart` key of device storage after every change. A failed
 storage call never rolls the in-memory list back; it only records an error. */
module CartStore {
  import opened Js
  import opened EntryLists
  import opened Storage

  /** Which operation last recorded a failure (the source stores a message per operation). */
  datatype CartError = AddError | RemoveError | ClearError | LoadError

  /** What `addToCart` reports: `success` is true only for `Added`. */
  datatype AddResult = Added | AlreadyInCart | AddFailed
  {
    predicate Success()
    {
      this == Added
    }
  }

  class Cart {
    var cartItems: seq<Entry>
    var isLoading: bool
    var error: Option<CartError>

    constructor ()
      ensures cartItems == [] && !isLoading && error == None
    {
      cartItems := [];
      isLoading := false;
      error := None;
    }

    /** `addToCart(product)`: a product whose id is already in the cart is
     refused without a write; a new one is appended and the list is written. */
    method AddToCart(product: Product, disk: Disk, writeFails: bool) returns (r: AddResult)
      modifies this, disk
      ensures isLoading == old(isLoading)
      ensures cartItems == ListAfterAdd(old(cartItems), product)
      ensures AnyMatch(old(cartItems), IdField, product.id) == Ok(true) ==>
                r == AlreadyInCart && error == old(error) && disk.items == old(disk.items)
      ensures AnyMatch(old(cartItems), IdField, product.id).Throws? ==>
                r == AddFailed && error == Some(AddError) && disk.items == old(disk.items)
      ensures AnyMatch(old(cartItems), IdField, product.id) == Ok(false) ==>
                cartItems == old(cartItems) + [Raw(product)] &&
                (if writeFails
                 then r == AddFailed && error == Some(AddError) && disk.items == old(disk.items)
                 else r == Added && error == old(error) && disk.items == old(disk.items)[CartKey := Parsed(cartItems)])
      ensures r.Success() ==> disk.items[CartKey] == Parsed(cartItems)
    {
      var found := AnyMatch(cartItems, IdField, product.id);
      match found
      case Throws =>
        error := Some(AddError);
        r := AddFailed;
      case Ok(true) =>
        r := AlreadyInCart;
      case Ok(false) =>
        cartItems := cartItems + [Raw(product)];
        var ok := disk.SetItem(CartKey, cartItems, writeFails);
        if ok {
          r := Added;
        } else {
          error := Some(AddError);
          r := AddFailed;
        }
    }

    /** `removeFromCart(id)`: every entry with that id goes, the rest keep their order. */
    method RemoveFromCart(id: string, disk: Disk, writeFails: bool)
      modifies this, disk
      ensures isLoading == old(isLoading)
      ensures cartItems == ListAfterRemove(old(cartItems), id)
      ensures Null in old(cartItems) ==> error == Some(RemoveError) && disk.items == old(disk.items)
      ensures Null !in old(cartItems) ==>
                if writeFails
                then error == Some(RemoveError) && disk.items == old(disk.items)
                else error == old(error) && disk.items == old(disk.items)[CartKey := Parsed(cartItems)]
    {
      var filtered := FilterOutId(cartItems, id);
      match filtered
      case Throws =>
        error := Some(RemoveError);
      case Ok(rest) =>
        cartItems := rest;
        var ok := disk.SetItem(CartKey, cartItems, writeFails);
        if !ok {
          error := Some(RemoveError);
        }
    }

    /** `clearCart()`: the list empties first, then the key is deleted. */
    method ClearCart(disk: Disk, removeFails: bool)
      modifies this, disk
      ensures cartItems == [] && isLoading == old(isLoading)
      ensures removeFails ==> error == Some(ClearError) && disk.items == old(disk.items)
      ensures !removeFails ==> error == old(error) && disk.items == old(disk.items) - {CartKey} && CartKey !in disk.items
    {
      cartItems := [];
      var ok := disk.RemoveItem(CartKey, removeFails);
      if !ok {
        error := Some(ClearError);
      }
    }

    /** `loadCartFromStorage()`: an absent (or empty) key gives an empty cart, a
     parsed list replaces the cart, and a failed read or parse records an error
     and leaves the cart as it was. Loading always ends with `isLoading` false. */
    method LoadCartFromStorage(disk: Disk, readFails: bool)
      modifies this
      ensures !isLoading
      ensures readFails ==> cartItems == old(cartItems) && error == Some(LoadError)
      ensures !readFails && (CartKey !in disk.items || disk.items[CartKey] == Empty) ==>
                cartItems == [] && error == old(error)
      ensures !readFails && CartKey in disk.items && disk.items[CartKey] == Malformed ==>
                cartItems == old(cartItems) && error == Some(LoadError)
      ensures !readFails && CartKey in disk.items && disk.items[CartKey].Parsed? ==>
                cartItems == disk.items[CartKey].entries && error == old(error)
    {
      isLoading := true;
      var stored := disk.GetItem(CartKey, readFails);
      match stored
      case ReadFailed =>
        error := Some(LoadError);
        isLoading := false;
      case NotFound =>
        cartItems := [];
        isLoading := false;
      case Found(Empty) =>
        cartItems := [];
        isLoading := false;
      case Found(Malformed) =>
        error := Some(LoadError);
        isLoading := false;
      case Found(Parsed(entries)) =>
        cartItems := entries;
        isLoading := false;
    }
  }
}
