/** The values the stores hold, as far as the stores and the buttons look at them.

 A product record comes from the catalog. A list element read back from device
 storage is whatever JSON the list was written as: normally a bare product
 (the shape the stores append) or a `{product, quantity, id}` wrapper (the shape
 the start-up migration produces), but nothing stops it from being `null` or an
 object with neither field. Reading a field of `null` or of `undefined` raises a
 TypeError; that is what `Eval` records. */
module Js {

  datatype Option<T> = None | Some(value: T)

  /** The outcome of evaluating a JavaScript expression that may raise a TypeError. */
  datatype Eval<T> = Ok(value: T) | Throws

  /** The catalog record (all fields are strings in the source's type). */
  datatype Product = Product(
    id: string,
    createdAt: string,
    name: string,
    image: string,
    price: string,
    description: string,
    model: string,
    brand: string)

  /** One element of a stored or in-memory list. */
  datatype Entry =
    | Null                                                // a JSON `null`
    | Raw(item: Product)                                  // a bare product: has `id`, no `product`
    | Wrapped(inner: Entry, quantity: int, id: Option<string>)  // `{product, quantity, id}`; `id` may be missing
    | Shapeless                                           // an object with neither `product` nor `id`

  /** `e.id`: raises only on `null`; a bare product always has an id, a wrapper
   may lack one, an object with neither field has none. */
  function IdField(e: Entry): (r: Eval<Option<string>>)
    ensures r.Throws? <==> e == Null
    ensures r.Ok? && r.value.Some? <==> e.Raw? || (e.Wrapped? && e.id.Some?)
  {
    match e
    case Null => Throws
    case Raw(p) => Ok(Some(p.id))
    case Wrapped(_, _, k) => Ok(k)
    case Shapeless => Ok(None)
  }

  /** `e.product.id`: only a wrapper whose `product` is an object can answer it. */
  function ProductIdField(e: Entry): (r: Eval<Option<string>>)
    ensures r.Ok? <==> HasProduct(e)
    ensures r.Ok? ==> r == IdField(e.inner)
  {
    match e
    case Wrapped(inner, _, _) => IdField(inner)
    case _ => Throws
  }

  /** Whether `e.product` is truthy (an object, not `null` or `undefined`). */
  predicate HasProduct(e: Entry)
  {
    e.Wrapped? && e.inner != Null
  }

  /** Whether `e.id` is truthy (present and not the empty string); `e` must not be `null`. */
  predicate HasId(e: Entry)
  {
    IdField(e).Ok? && IdField(e).value.Some? && IdField(e).value.value != ""
  }

  /** `e.id === id`, for an element that is not `null`. */
  predicate IdIs(e: Entry, id: string)
  {
    IdField(e) == Ok(Some(id))
  }
}
