/** The favorites store: the same set-like list as the cart, mirrored to the
 `favorites` key. Adding a product that is already there is a silent no-op. */
module FavoritesStore {
  import opened Js
  import opened EntryLists
  import opened Storage

  /** Which operation last recorded a failure. */
  datatype FavoritesError = AddError | RemoveError | ClearError | LoadError

  class Favorites {
    var favorites: seq<Entry>
    var isLoading: bool
    var error: Option<FavoritesError>

    constructor ()
      ensures favorites == [] && !isLoading && error == None
    {
      favorites := [];
      isLoading := false;
      error := None;
    }

    /** `addToFavorites(product)`: a product with a new id is appended and the
     list written; an id already present changes nothing and writes nothing. */
    method AddToFavorites(product: Product, disk: Disk, writeFails: bool)
      modifies this, disk
      ensures isLoading == old(isLoading)
      ensures favorites == ListAfterAdd(old(favorites), product)
      ensures AnyMatch(old(favorites), IdField, product.id) == Ok(true) ==>
                error == old(error) && disk.items == old(disk.items)
      ensures AnyMatch(old(favorites), IdField, product.id).Throws? ==>
                error == Some(AddError) && disk.items == old(disk.items)
      ensures AnyMatch(old(favorites), IdField, product.id) == Ok(false) ==>
                favorites == old(favorites) + [Raw(product)] &&
                if writeFails
                then error == Some(AddError) && disk.items == old(disk.items)
                else error == old(error) && disk.items == old(disk.items)[FavoritesKey := Parsed(favorites)]
    {
      var found := AnyMatch(favorites, IdField, product.id);
      match found
      case Throws =>
        error := Some(AddError);
      case Ok(true) =>
      case Ok(false) =>
        favorites := favorites + [Raw(product)];
        var ok := disk.SetItem(FavoritesKey, favorites, writeFails);
        if !ok {
          error := Some(AddError);
        }
    }

    /** `removeFromFavorites(id)`: every entry with that id goes, the rest keep their order. */
    method RemoveFromFavorites(id: string, disk: Disk, writeFails: bool)
      modifies this, disk
      ensures isLoading == old(isLoading)
      ensures favorites == ListAfterRemove(old(favorites), id)
      ensures Null in old(favorites) ==> error == Some(RemoveError) && disk.items == old(disk.items)
      ensures Null !in old(favorites) ==>
                if writeFails
                then error == Some(RemoveError) && disk.items == old(disk.items)
                else error == old(error) && disk.items == old(disk.items)[FavoritesKey := Parsed(favorites)]
    {
      var filtered := FilterOutId(favorites, id);
      match filtered
      case Throws =>
        error := Some(RemoveError);
      case Ok(rest) =>
        favorites := rest;
        var ok := disk.SetItem(FavoritesKey, favorites, writeFails);
        if !ok {
          error := Some(RemoveError);
        }
    }

    /** `clearFavorites()`: the list empties first, then the key is deleted. */
    method ClearFavorites(disk: Disk, removeFails: bool)
      modifies this, disk
      ensures favorites == [] && isLoading == old(isLoading)
      ensures removeFails ==> error == Some(ClearError) && disk.items == old(disk.items)
      ensures !removeFails ==> error == old(error) && disk.items == old(disk.items) - {FavoritesKey} && FavoritesKey !in disk.items
    {
      favorites := [];
      var ok := disk.RemoveItem(FavoritesKey, removeFails);
      if !ok {
        error := Some(ClearError);
      }
    }

    /** `loadFavoritesFromStorage()`: the same three-way load as the cart's. */
    method LoadFavoritesFromStorage(disk: Disk, readFails: bool)
      modifies this
      ensures !isLoading
      ensures readFails ==> favorites == old(favorites) && error == Some(LoadError)
      ensures !readFails && (FavoritesKey !in disk.items || disk.items[FavoritesKey] == Empty) ==>
                favorites == [] && error == old(error)
      ensures !readFails && FavoritesKey in disk.items && disk.items[FavoritesKey] == Malformed ==>
                favorites == old(favorites) && error == Some(LoadError)
      ensures !readFails && FavoritesKey in disk.items && disk.items[FavoritesKey].Parsed? ==>
                favorites == disk.items[FavoritesKey].entries && error == old(error)
    {
      isLoading := true;
      var stored := disk.GetItem(FavoritesKey, readFails);
      match stored
      case ReadFailed =>
        error := Some(LoadError);
        isLoading := false;
      case NotFound =>
        favorites := [];
        isLoading := false;
      case Found(Empty) =>
        favorites := [];
        isLoading := false;
      case Found(Malformed) =>
        error := Some(LoadError);
        isLoading := false;
      case Found(Parsed(entries)) =>
        favorites := entries;
        isLoading := false;
    }
  }
}
