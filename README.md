# e-market client state, modelled in Dafny

This project models the client-side state layer of the e-market mobile shop.
That layer has four parts:

- the **cart store**: a list of products that refuses a second entry with the same id;
- the **favorites store**: the same set-like list;
- the **start-up loading** of both lists from device storage, including the
  migration of a legacy cart;
- the **catalog store**: a fetch-once guard.

It also models the decisions the UI components make over these lists:

- the "add to cart" button's in-cart test and press handler;
- the favourite star's test and toggle;
- the filter sheet's option lists, toggles, reset and apply rules.

Modules, one per source unit:

| module | file | models |
|---|---|---|
| `Js` | js.dfy | product records; list entries as the JSON they are stored as (`null`, a bare product, a `{product, quantity, id}` wrapper, or an object with neither field); field reads that raise a TypeError |
| `EntryLists` | entry_lists.dfy | the `some` / `filter` / append logic both stores share, and its properties |
| `Storage` | storage.dfy | device storage as a key → document map; a document is empty text, malformed text or a parsed list |
| `CartStore` | cart_store.dfy | the cart store as a class with `cartItems`, `isLoading`, `error` |
| `FavoritesStore` | favorites_store.dfy | the favorites store as a class with `favorites`, `isLoading`, `error` |
| `InitStores` | init_stores.dfy | start-up loading and the legacy-cart migration |
| `ProductStore` | product_store.dfy | the catalog store's fetch-once guard |
| `CartButton` | cart_button.dfy | the add-to-cart button |
| `FavoriteToggle` | favorite_button.dfy | the favourite button |
| `FilterModal` | filter_modal.dfy | the filter sheet |

Every asynchronous store operation is one atomic step. Whether its storage read,
write or delete fails is passed in as a flag. A failed write leaves storage as it
was. The catalog request's outcome is passed in as `None` for failure, or `Some`
list for success.

Other parts of the app expect a quantity cart. The basket screen reads
`increaseQuantity`, `decreaseQuantity` and `getTotalPrice` from the cart store
(src/app/(tabs)/basket/index.tsx:21-23), and a cart line carries a `quantity`
(src/components/Card/CardItem.tsx:15). The cart store (src/store/useCardStore.ts)
defines none of these: `addToCart` refuses a product whose id is already present. The model follows the code. The only quantity in the
model is the constant `1` that the start-up migration writes into each wrapper.

## Model

| member | source | states |
|---|---|---|
| `Js.IdField` | src/store/useCardStore.ts:26 | reading `item.id` raises exactly on `null`; it yields an id exactly for a bare product, or a wrapper that has one |
| `Js.ProductIdField` | src/components/Button/AddToCardButton.tsx:26 | reading `item.product.id` succeeds exactly when `item.product` is an object, and then yields that object's `id` |
| `EntryLists.AnyMatch` | src/store/useCardStore.ts:25-27 | the `some` scan answers true exactly when some element has the id and no element before it raises; it answers false exactly when every element can be read and none has the id |
| `EntryLists.AnyMatchThrows` | src/store/useCardStore.ts:25-27 | the scan raises exactly when some element raises before any element matches |
| `EntryLists.FilterOutId` | src/store/useCardStore.ts:47-48 | the `filter` raises exactly when the list holds a `null`; otherwise it keeps exactly the elements without the id, and the result is no longer than the input |
| `EntryLists.ListAfterAdd` | src/store/useCardStore.ts:23-35 | a product whose id is absent from a list without `null` is appended at the end, and the earlier entries stay as they were; a duplicate, or a `null` that makes the scan raise, leaves the list unchanged |
| `EntryLists.ListAfterRemove` | src/store/useCardStore.ts:47-50 | without a `null`, the entries left are exactly those without the id; with one, the list is left unchanged |
| `EntryLists.FilterOutIdAppend` | src/store/useCardStore.ts:48 | filtering distributes over concatenation, so the entries that stay keep their order |
| `EntryLists.FilterOutIdAbsent` | src/store/useCardStore.ts:48 | filtering out an id that no entry carries returns the same list |
| `EntryLists.RemoveAbsentIsNoop` | src/store/useCardStore.ts:47-50 | removing an absent id leaves the list equal |
| `EntryLists.RemoveIsIdempotent` | src/store/useFavoritesStore.ts:44-49 | removing an id twice is the same as removing it once |
| `EntryLists.AddThenRemoveRestores` | src/store/useFavoritesStore.ts:32-49 | adding a product with a fresh id and then removing that id restores the original list |
| `EntryLists.AddKeepsUniqueIds` | src/store/useCardStore.ts:25-35 | if the ids were pairwise distinct before an add, they still are after it |
| `EntryLists.RemoveKeepsUniqueIds` | src/store/useFavoritesStore.ts:44-49 | a remove keeps the ids pairwise distinct |
| `EntryLists.AddMakesMember` | src/store/useFavoritesStore.ts:24-34 | after an add on a list without `null`, the membership scan finds the product |
| `EntryLists.RemoveMakesNonMember` | src/store/useFavoritesStore.ts:44-49 | after a remove on a list without `null`, the membership scan no longer finds the id |
| `Storage.Disk.GetItem` | src/store/useCardStore.ts:72 | a failed read yields nothing; otherwise the document under the key, or not-found |
| `Storage.Disk.SetItem` | src/store/useCardStore.ts:37 | a successful write stores the list under the key; a failed one changes nothing |
| `Storage.Disk.RemoveItem` | src/store/useCardStore.ts:62 | a successful delete removes the key; a failed one changes nothing |
| `CartStore.Cart.constructor` | src/store/useCardStore.ts:16-19 | the store starts with an empty cart, not loading, with no error |
| `CartStore.Cart.AddToCart` | src/store/useCardStore.ts:21-43 | a duplicate id returns `success: false`, leaves the cart unchanged and does no write. A new id appends the product and writes the new list under `cart`. A failed write keeps the appended product, sets `error` and returns failure. A raising scan sets `error` and returns failure. A success means storage now holds the in-memory list |
| `CartStore.Cart.RemoveFromCart` | src/store/useCardStore.ts:45-56 | the cart becomes the filtered list, and a successful write mirrors it under `cart`. A failed write keeps the removal and sets `error`. A raising filter sets `error` and changes nothing else |
| `CartStore.Cart.ClearCart` | src/store/useCardStore.ts:58-66 | the cart becomes empty and `cart` is deleted; a failed delete keeps the empty cart and sets `error` |
| `CartStore.Cart.LoadCartFromStorage` | src/store/useCardStore.ts:68-82 | an absent or empty key gives an empty cart, and a parsed list replaces the cart. A failed read or parse sets `error` and leaves the cart untouched. `isLoading` always ends false |
| `FavoritesStore.Favorites.constructor` | src/store/useFavoritesStore.ts:15-18 | the store starts empty, not loading, with no error |
| `FavoritesStore.Favorites.AddToFavorites` | src/store/useFavoritesStore.ts:20-40 | a duplicate id changes nothing and does no write. A new id is appended at the end and the list is written under `favorites`. A failed write keeps the change and sets `error` |
| `FavoritesStore.Favorites.RemoveFromFavorites` | src/store/useFavoritesStore.ts:42-55 | all entries with the id go and the others keep their order; the new list is mirrored under `favorites`. A failed write keeps the change and sets `error` |
| `FavoritesStore.Favorites.ClearFavorites` | src/store/useFavoritesStore.ts:57-65 | the list becomes empty and `favorites` is deleted; a failed delete sets `error` |
| `FavoritesStore.Favorites.LoadFavoritesFromStorage` | src/store/useFavoritesStore.ts:67-81 | an absent or empty key gives an empty list, and a parsed list replaces the list. A failure sets `error` and leaves the list untouched. `isLoading` always ends false |
| `InitStores.NeedsMigration` | src/store/initialzeStores.ts:28-33 | migration triggers exactly for a non-empty list whose first element is a bare product with a non-empty id, or a wrapper whose `product` is `null` and whose `id` is set and non-empty |
| `InitStores.NeedsMigrationLooksAtFirstOnly` | src/store/initialzeStores.ts:28-33 | appending elements after the first never changes the answer |
| `InitStores.Migrate` | src/store/initialzeStores.ts:34-38 | the map raises exactly when the list holds a `null`. Otherwise it keeps the length, and entry i wraps old entry i with quantity 1. Each wrapper's `id` and `product.id` equal the old entry's `id` |
| `InitStores.MigrateCommutesWithRemove` | src/store/initialzeStores.ts:34-38 | removing an id before the migration or after it gives the same cart, so the ids that `removeFromCart` sees are unchanged |
| `InitStores.MigrateKeepsUniqueIds` | src/store/initialzeStores.ts:34-38 | the migrated list has pairwise distinct ids exactly when the original had |
| `InitStores.InitializeCart` | src/store/initialzeStores.ts:18-66 | a read failure only clears `isLoading`. An absent, empty or malformed `cart` gives an empty cart. A list that does not trigger migration is installed unchanged. A triggering list with a `null` gives an empty cart. Otherwise the migrated list is installed and written back, and a failed write-back is ignored. `error` is never touched |
| `InitStores.InitializeFavorites` | src/store/initialzeStores.ts:68-96 | the same load without migration: a read failure only clears `isLoading`; absent, empty or malformed gives an empty list; a parsed list is installed as it is |
| `ProductStore.Catalog.constructor` | src/store/useProductStore.ts:12-15 | the catalog starts empty, not loading, with no error |
| `ProductStore.Catalog.FetchProducts` | src/store/useProductStore.ts:16-25 | a non-empty catalog returns with no field changed. Otherwise loading ends false and `error` null. Success installs the fetched list and failure keeps the old list |
| `ProductStore.Catalog.FetchTwice` | src/store/useProductStore.ts:17-21 | after a fetch that installed a non-empty list, a later fetch changes nothing |
| `CartButton.CheckIfInCart` | src/components/Button/AddToCardButton.tsx:20-38 | an empty cart gives false. A `null` first entry raises. With a wrapper first, a non-raising answer is true exactly when some entry's `product.id` matches. With a bare product first and no `null`, the answer is true exactly when some entry's `id` matches. A first entry with neither field keeps the previous value |
| `CartButton.BareEntryAfterWrapperThrows` | src/components/Button/AddToCardButton.tsx:24-28 | with a wrapper first, a bare entry reached before any match raises |
| `CartButton.MigrationKeepsInCartAnswer` | src/store/initialzeStores.ts:34-38 | on a freshly migrated legacy cart the button answers as it did on the bare list |
| `CartButton.AnyMatchSameKeys` | src/components/Button/AddToCardButton.tsx:25-32 | two scans whose keys agree element by element give the same answer |
| `CartButton.MigratedCartThenAddThrows` | src/components/Button/AddToCardButton.tsx:24-28 | after a migrated cart gets a new product through the store, the button's test for that product raises |
| `CartButton.MixedCartCounterexample` | src/components/Button/AddToCardButton.tsx:24-28 | the concrete cart `[wrapper of product "1", bare product "2"]` makes the test for "2" raise |
| `CartButton.InCart` | src/components/Button/AddToCardButton.tsx:20-38 | the corrected test reads each entry by its own shape; if no entry raises, it holds exactly when some entry's product id matches |
| `CartButton.InCartAgreesWithStore` | src/components/Button/AddToCardButton.tsx:20-38 | on a cart without `null` whose wrappers carry their product's id, the corrected test never raises and agrees with the store's duplicate check |
| `CartButton.ConsistentAfterMigrateAndAdd` | src/store/initialzeStores.ts:34-38 | the migrated cart, and the cart after one add following it, have wrappers that carry their product's id |
| `CartButton.AddKeepsConsistentWrappers` | src/store/useCardStore.ts:23-35 | an add keeps every wrapper carrying its product's id |
| `CartButton.RemoveKeepsConsistentWrappers` | src/store/useCardStore.ts:45-50 | a remove keeps every wrapper carrying its product's id |
| `CartButton.ReplayKeepsConsistentWrappers` | src/store/useCardStore.ts:21-66 | from a cart whose wrappers carry their product's id, any sequence of adds, removes and clears keeps it so |
| `CartButton.AddToCartButton.constructor` | src/components/Button/AddToCardButton.tsx:16 | `isInCart` starts false |
| `CartButton.AddToCartButton.Refresh` | src/components/Button/AddToCardButton.tsx:19-41 | the effect stores the test's answer, or crashes and keeps the flag when the test raises |
| `CartButton.AddToCartButton.Press` | src/components/Button/AddToCardButton.tsx:43-60 | in the cart: remove by id and set the flag false. Not in the cart: add the product and set the flag true, even when the store refused it. The store's outcome passes through: `cart` in storage mirrors the new list after a successful write, and a raising scan or filter or a failed write sets the store's `error` and leaves storage as it was. A duplicate leaves `error` and storage alone. `isLoading` is unchanged |
| `FavoriteToggle.IsFavoriteMeansPresent` | src/components/Button/FavoritesButton.tsx:17-19 | on a list without `null`, `isFavorite` never raises and holds exactly when some favorite has the product's id |
| `FavoriteToggle.ListAfterToggle` | src/components/Button/FavoritesButton.tsx:22-27 | when the flag says favourite, the list can only shrink and, without `null`, no entry with the id is left; otherwise the list stays or gains the product at the end |
| `FavoriteToggle.ToggleFlipsMembership` | src/components/Button/FavoritesButton.tsx:22-27 | with the flag in step with the list, a toggle flips whether the id is among the favorites |
| `FavoriteToggle.ToggleKeepsUniqueIds` | src/components/Button/FavoritesButton.tsx:22-27 | a toggle keeps the favorites' ids pairwise distinct |
| `FavoriteToggle.FavoriteButton.constructor` | src/components/Button/FavoritesButton.tsx:15 | `isFavorite` starts false |
| `FavoriteToggle.FavoriteButton.Refresh` | src/components/Button/FavoritesButton.tsx:17-20 | the effect stores whether some favorite has the id, or crashes and keeps the flag |
| `FavoriteToggle.FavoriteButton.Toggle` | src/components/Button/FavoritesButton.tsx:22-28 | remove by id when favourite, add the product otherwise. `favorites` in storage mirrors the new list after a successful write. A raising scan or filter, or a failed write, sets the store's `error` and leaves storage as it was. A duplicate leaves both alone, and `isLoading` is unchanged |
| `FavoriteToggle.FavoriteButton.RefreshThenToggle` | src/components/Button/FavoritesButton.tsx:17-28 | a refresh then a toggle flips the product's membership, whether or not the write succeeds |
| `FilterModal.BelowIrreflexive` | src/components/Modal/filterModal.tsx:46-48 | no string sorts before itself |
| `FilterModal.BelowTransitive` | src/components/Modal/filterModal.tsx:46-48 | the sort order is transitive |
| `FilterModal.BelowTotal` | src/components/Modal/filterModal.tsx:46-48 | of two different strings, one sorts before the other |
| `FilterModal.InsertSorted` | src/components/Modal/filterModal.tsx:46-48 | inserting into a strictly ascending list keeps it strictly ascending and adds exactly the new value |
| `FilterModal.DistinctSorted` | src/components/Modal/filterModal.tsx:46-48 | the result is strictly ascending, has exactly the input's values, and holds each value once |
| `FilterModal.SortedListsWithSameMembersAreEqual` | src/components/Modal/filterModal.tsx:46-51 | two strictly ascending lists with the same members are equal, so the option list does not depend on catalog order |
| `FilterModal.AllBrands` | src/components/Modal/filterModal.tsx:46-48 | every product's brand appears once, in ascending order, and nothing else appears |
| `FilterModal.AllModels` | src/components/Modal/filterModal.tsx:49-51 | every product's model appears once, in ascending order, and nothing else appears |
| `FilterModal.RemoveAll` | src/components/Modal/filterModal.tsx:77 | the result has exactly the selected values other than the removed one |
| `FilterModal.RemoveAllAppend` | src/components/Modal/filterModal.tsx:77 | the filter distributes over concatenation, so the values that stay keep their order |
| `FilterModal.RemoveAllAbsent` | src/components/Modal/filterModal.tsx:77 | filtering out an absent value returns the same list |
| `FilterModal.RemoveAllKeepsNoDuplicates` | src/components/Modal/filterModal.tsx:77 | filtering keeps a list free of duplicates |
| `FilterModal.Toggle` | src/components/Modal/filterModal.tsx:75-81 | a selected value loses every occurrence and nothing else goes; an unselected value is appended at the end |
| `FilterModal.ToggleKeepsNoDuplicates` | src/components/Modal/filterModal.tsx:75-89 | toggles never introduce a duplicate |
| `FilterModal.ToggleTwiceRestores` | src/components/Modal/filterModal.tsx:75-81 | toggling an unselected value twice restores the original selection |
| `FilterModal.Bound` | src/components/Modal/filterModal.tsx:96-97 | an empty price field gives no bound; a non-empty one gives a bound from that text |
| `FilterModal.PriceText` | src/components/Modal/filterModal.tsx:57-66 | the text shown for a bound reads back as that bound; only a bound whose text is empty reads back as no bound |
| `FilterModal.OpenThenApplyRoundTrip` | src/components/Modal/filterModal.tsx:53-102 | opening on active filters and applying at once hands the same filters back |
| `FilterModal.Sheet.constructor` | src/components/Modal/filterModal.tsx:41-44 | both selections and both price fields start empty |
| `FilterModal.Sheet.ToggleBrand` | src/components/Modal/filterModal.tsx:75-81 | only the brand selection changes, to its toggle |
| `FilterModal.Sheet.ToggleModel` | src/components/Modal/filterModal.tsx:83-89 | only the model selection changes, to its toggle |
| `FilterModal.Sheet.ClearFilters` | src/components/Modal/filterModal.tsx:104-109 | both selections and both price fields become empty |
| `FilterModal.Sheet.OnOpen` | src/components/Modal/filterModal.tsx:53-73 | an open sheet with active filters copies their brands, models and bounds; an open sheet without them clears all four fields; a closed sheet keeps its state |
| `FilterModal.Sheet.ApplyFilters` | src/components/Modal/filterModal.tsx:91-102 | the selections are handed back as they are; a bound is null exactly when its field is empty, and otherwise comes from the field's text |

## Findings

| source | as written | input that shows it | evidently intended | confidence | as-written member | corrected member |
|---|---|---|---|---|---|---|
| src/components/Button/AddToCardButton.tsx:24-28 | the first entry's shape decides how every entry is read. A wrapper first makes every entry be read as `item.product.id`, but the store appends products bare, so a bare entry reached in the scan raises a TypeError in the effect | a legacy cart `[p1]` is migrated at start-up to `[{product: p1, quantity: 1, id: "1"}]`; adding `p2` through the button makes the cart `[wrapper of p1, p2]`; the effect for `p2` raises | read each entry by its own shape, `(item.product ?? item).id`. That test never raises, and agrees with the store's duplicate check, on every cart without `null` reached from an empty or freshly migrated cart by any sequence of adds, removes and clears | high, not executed | `CartButton.MigratedCartThenAddThrows` (general), `CartButton.MixedCartCounterexample` (concrete) | `CartButton.InCart` with `CartButton.InCartAgreesWithStore`, `CartButton.ConsistentAfterMigrateAndAdd` and `CartButton.ReplayKeepsConsistentWrappers` |

The button class (`CartButton.AddToCartButton.Refresh`) keeps the as-written test, because that is what the component runs. `CartButton.InCart` is the definition the corrected property is proved about.

## Left out

- Quantities, quantity increase and decrease, and the total price: src/store/useCardStore.ts defines none of them, although src/app/(tabs)/basket/index.tsx:21-23 reads them from the store.
- JSON text: documents are kept parsed. Writing a list and reading it back gives the same list. Of the parseable documents, only arrays are modelled. A stored `null`, number or object, which `JSON.parse` accepts, is not modelled.
- Only the JSON shapes of list entries that the code tells apart are modelled: `null`, a bare product, a wrapper, and an object with neither `product` nor `id`. Falsy non-null elements (`false`, `0`, `""`) are not modelled.
- AsyncStorage, zustand's `create`/`set`/`get` and React state: replaced by a storage object, class fields and field assignments.
- Concurrency: un-awaited store calls from the buttons, `Promise.all` in `initializeStores` (src/store/initialzeStores.ts:6-16) and the start-up sequence in the root layout are not modelled. Each store operation is one atomic step, and `initializeStores` itself, which only sequences the three loads, is not modelled.
- `ProductStore.Catalog.FetchProducts`: the moment between setting `isLoading` true and receiving the response is not observable in the atomic model. Only the final state is stated.
- The catalog request (src/services/api/index.ts, src/services/product/index.ts) is not part of this model. Its outcome is a parameter.
- The error messages (Turkish strings) are replaced by one error value per operation. The `message` returned by `addToCart` is replaced by the `AddResult` value.
- `parseFloat` and `String(number)` in the filter sheet are left out, because they are floating point. A price bound is kept as its text, so the model keeps only the empty-field → null rule.
- `FilterModal.Below` compares Dafny characters (Unicode scalar values), while JavaScript's default `sort()` compares UTF-16 code units. The two orders differ only for characters outside the Basic Multilingual Plane.
- Localisation, alerts, rendering, styles and the remaining screens and components are presentational and are not modelled.
