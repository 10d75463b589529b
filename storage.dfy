/** Device storage as the stores see it: a map from key to the document last
 written under it. The document is kept already parsed: writing a list and
 reading it back gives the same list, so JSON text is abstracted away except for
 the two ways a read can go wrong (an empty string, which is falsy, and text
 that does not parse). Whether an asynchronous read, write or delete fails is
 the environment's choice and is passed in as a flag. */
module Storage {
  import opened Js

  const CartKey: string := "cart"
  const FavoritesKey: string := "favorites"

  /** What a key holds. */
  datatype Doc =
    | Empty                        // the empty string: present, but falsy
    | Malformed                    // text that `JSON.parse` rejects
    | Parsed(entries: seq<Entry>)  // a JSON array

  /** The outcome of `getItem`. */
  datatype Read = ReadFailed | NotFound | Found(doc: Doc)

  class Disk {
    var items: map<string, Doc>

    constructor ()
      ensures items == map[]
    {
      items := map[];
    }

    /** `getItem(key)`; a failed read leaves nothing to look at. */
    method GetItem(key: string, fails: bool) returns (r: Read)
      ensures fails ==> r == ReadFailed
      ensures !fails && key in items ==> r == Found(items[key])
      ensures !fails && key !in items ==> r == NotFound
    {
      if fails {
        r := ReadFailed;
      } else if key in items {
        r := Found(items[key]);
      } else {
        r := NotFound;
      }
    }

    /** `setItem(key, JSON.stringify(value))`; a rejected write changes nothing. */
    method SetItem(key: string, value: seq<Entry>, fails: bool) returns (ok: bool)
      modifies this
      ensures ok == !fails
      ensures items == if ok then old(items)[key := Parsed(value)] else old(items)
    {
      ok := !fails;
      if ok {
        items := items[key := Parsed(value)];
      }
    }

    /** `removeItem(key)`; a rejected delete changes nothing. */
    method RemoveItem(key: string, fails: bool) returns (ok: bool)
      modifies this
      ensures ok == !fails
      ensures items == if ok then old(items) - {key} else old(items)
    {
      ok := !fails;
      if ok {
        items := items - {key};
      }
    }
  }
}
