/** The catalog store: fetches the product list once per session. The request
 itself is outside the model; its outcome is passed in (`None` for a failed
 request). */
module ProductStore {
  import opened Js

  class Catalog {
    var products: seq<Product>
    var isLoading: bool
    var error: Option<string>

    constructor ()
      ensures products == [] && !isLoading && error == None
    {
      products := [];
      isLoading := false;
      error := None;
    }

    /** `fetchProducts()`: a store that already holds products returns at once;
     otherwise loading starts with the error cleared, and ends with the fetched
     list installed on success or the old (empty) list kept on failure. No path
     ever sets `error` to a message. */
    method FetchProducts(fetched: Option<seq<Product>>)
      modifies this
      ensures |old(products)| > 0 ==>
                products == old(products) && isLoading == old(isLoading) && error == old(error)
      ensures |old(products)| == 0 ==> !isLoading && error == None
      ensures |old(products)| == 0 && fetched.Some? ==> products == fetched.value
      ensures |old(products)| == 0 && fetched.None? ==> products == old(products)
    {
      if |products| > 0 {
        return;
      }
      isLoading, error := true, None;
      match fetched
      case Some(list) =>
        products, isLoading := list, false;
      case None =>
        isLoading := false;
    }

    /** A fetch that installed a non-empty list turns every later fetch into a
     no-op, whatever that later request would have returned. */
    method FetchTwice(first: Option<seq<Product>>, second: Option<seq<Product>>)
      modifies this
      ensures |old(products)| == 0 && first.Some? && |first.value| > 0 ==>
                products == first.value && !isLoading && error == None
    {
      FetchProducts(first);
      FetchProducts(second);
    }
  }
}
