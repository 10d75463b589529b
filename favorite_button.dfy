/** The favourite star button: `isFavorite` is recomputed from the favorites list
 by an effect, and a press adds or removes the product depending on it. */
module FavoriteToggle {
  import opened Js
  import opened EntryLists
  import opened Storage
  import opened FavoritesStore

  /** `favorites.some(item => item.id === product.id)`: on a list without `null`
   it never raises and holds exactly when some favorite has the id. */
  lemma IsFavoriteMeansPresent(favorites: seq<Entry>, id: string)
    requires Null !in favorites
    ensures AnyMatch(favorites, IdField, id).Ok?
    ensures AnyMatch(favorites, IdField, id).value <==> exists i | 0 <= i < |favorites| :: IdIs(favorites[i], id)
  {
    if AnyMatch(favorites, IdField, id) != Ok(false) {
      var i :| 0 <= i < |favorites| && IdIs(favorites[i], id);
      assert forall j | 0 <= j < |favorites| :: favorites[j] != Null;
      assert ReadableBefore(favorites, IdField, i);
    }
  }

  /** The list a toggle leaves behind, given what the button believed. */
  function ListAfterToggle(favorites: seq<Entry>, product: Product, isFavorite: bool): (r: seq<Entry>)
    ensures isFavorite ==> |r| <= |favorites| && forall e | e in r :: e in favorites
    ensures isFavorite && Null !in favorites ==> forall e | e in r :: !IdIs(e, product.id)
    ensures !isFavorite ==> r == favorites || r == favorites + [Raw(product)]
  {
    if isFavorite then ListAfterRemove(favorites, product.id) else ListAfterAdd(favorites, product)
  }

  /** When the flag is in step with the list, a toggle flips whether the
   product's id is among the favorites. */
  lemma ToggleFlipsMembership(favorites: seq<Entry>, product: Product)
    requires Null !in favorites
    ensures AnyMatch(favorites, IdField, product.id).Ok?
    ensures AnyMatch(ListAfterToggle(favorites, product, AnyMatch(favorites, IdField, product.id).value), IdField, product.id)
            == Ok(!AnyMatch(favorites, IdField, product.id).value)
  {
    IsFavoriteMeansPresent(favorites, product.id);
    if AnyMatch(favorites, IdField, product.id).value {
      RemoveMakesNonMember(favorites, product.id);
    } else {
      AddMakesMember(favorites, product);
    }
  }

  /** Whatever the flag says, a toggle keeps the favorites' ids distinct. */
  lemma ToggleKeepsUniqueIds(favorites: seq<Entry>, product: Product, isFavorite: bool)
    requires UniqueIds(favorites)
    ensures UniqueIds(ListAfterToggle(favorites, product, isFavorite))
  {
    if isFavorite {
      RemoveKeepsUniqueIds(favorites, product.id);
    } else {
      AddKeepsUniqueIds(favorites, product);
    }
  }

  class FavoriteButton {
    const product: Product
    var isFavorite: bool

    constructor (product: Product)
      ensures this.product == product && !isFavorite
    {
      this.product := product;
      isFavorite := false;
    }

    /** The effect: recompute `isFavorite`; a TypeError crashes the effect and the flag keeps its value. */
    method Refresh(store: Favorites) returns (crashed: bool)
      modifies this
      ensures crashed <==> AnyMatch(store.favorites, IdField, product.id).Throws?
      ensures !crashed ==> isFavorite == AnyMatch(store.favorites, IdField, product.id).value
      ensures crashed ==> isFavorite == old(isFavorite)
    {
      var found := AnyMatch(store.favorites, IdField, product.id);
      match found
      case Ok(b) =>
        isFavorite := b;
        crashed := false;
      case Throws =>
        crashed := true;
    }

    /** `toggleFavorite()`: remove when the flag says favourite, add otherwise. */
    method Toggle(store: Favorites, disk: Disk, writeFails: bool)
      modifies store, disk
      ensures store.isLoading == old(store.isLoading)
      ensures store.favorites == ListAfterToggle(old(store.favorites), product, isFavorite)
      ensures isFavorite && Null in old(store.favorites) ==>
                store.error == Some(RemoveError) && disk.items == old(disk.items)
      ensures isFavorite && Null !in old(store.favorites) ==>
                if writeFails
                then store.error == Some(RemoveError) && disk.items == old(disk.items)
                else store.error == old(store.error) && disk.items == old(disk.items)[FavoritesKey := Parsed(store.favorites)]
      ensures !isFavorite && AnyMatch(old(store.favorites), IdField, product.id) == Ok(true) ==>
                store.error == old(store.error) && disk.items == old(disk.items)
      ensures !isFavorite && AnyMatch(old(store.favorites), IdField, product.id).Throws? ==>
                store.error == Some(AddError) && disk.items == old(disk.items)
      ensures !isFavorite && AnyMatch(old(store.favorites), IdField, product.id) == Ok(false) ==>
                if writeFails
                then store.error == Some(AddError) && disk.items == old(disk.items)
                else store.error == old(store.error) && disk.items == old(disk.items)[FavoritesKey := Parsed(store.favorites)]
    {
      if isFavorite {
        store.RemoveFromFavorites(product.id, disk, writeFails);
      } else {
        store.AddToFavorites(product, disk, writeFails);
      }
    }

    /** A refresh followed by a toggle flips the product's membership, whether or not the write succeeds. */
    method RefreshThenToggle(store: Favorites, disk: Disk, writeFails: bool)
      requires Null !in store.favorites
      modifies this, store, disk
      ensures AnyMatch(store.favorites, IdField, product.id) == Ok(!AnyMatch(old(store.favorites), IdField, product.id).value)
    {
      var _ := Refresh(store);
      ToggleFlipsMembership(store.favorites, product);
      Toggle(store, disk, writeFails);
    }
  }
}
