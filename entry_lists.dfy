/** The list logic the cart store and the favorites store share: both keep an
 array of entries keyed by `id`, test membership with `some`, append a product
 that is not yet there, and drop an id with `filter`. */
module EntryLists {
  import opened Js

  /** Every element before position `i` can be asked `key` without a TypeError. */
  ghost predicate ReadableBefore(items: seq<Entry>, key: Entry -> Eval<Option<string>>, i: int)
  {
    forall j | 0 <= j < i && j < |items| :: key(items[j]).Ok?
  }

  /** No element before position `i` answers `key` with `id`. */
  ghost predicate NoMatchBefore(items: seq<Entry>, key: Entry -> Eval<Option<string>>, id: string, i: int)
  {
    forall j | 0 <= j < i && j < |items| :: key(items[j]) != Ok(Some(id))
  }

  /** `items.some(item => key(item) === id)`: the scan stops at the first match,
   and a TypeError on an element before it aborts the whole expression. */
  function AnyMatch(items: seq<Entry>, key: Entry -> Eval<Option<string>>, id: string): (r: Eval<bool>)
    ensures r == Ok(true) <==>
              exists i | 0 <= i < |items| :: key(items[i]) == Ok(Some(id)) && ReadableBefore(items, key, i)
    ensures r == Ok(false) <==>
              forall i | 0 <= i < |items| :: key(items[i]).Ok? && key(items[i]) != Ok(Some(id))
  {
    if |items| == 0 then Ok(false)
    else
      match key(items[0])
      case Throws => Throws
      case Ok(k) =>
        if k == Some(id) then Ok(true)
        else
          var r := AnyMatch(items[1..], key, id);
          assert forall i | 1 <= i < |items| :: items[1..][i - 1] == items[i];
          assert r == Ok(true) ==> exists i | 1 <= i < |items| :: key(items[i]) == Ok(Some(id)) && ReadableBefore(items, key, i) by {
            if r == Ok(true) {
              var i :| 0 <= i < |items[1..]| && key(items[1..][i]) == Ok(Some(id)) && ReadableBefore(items[1..], key, i);
              assert key(items[i + 1]) == Ok(Some(id)) && ReadableBefore(items, key, i + 1);
            }
          }
          r
  }

  /** The scan raises exactly when some element raises before any element matches. */
  lemma {:induction false} AnyMatchThrows(items: seq<Entry>, key: Entry -> Eval<Option<string>>, id: string)
    ensures AnyMatch(items, key, id).Throws? <==>
              exists i | 0 <= i < |items| :: key(items[i]).Throws? && NoMatchBefore(items, key, id, i)
  {
    if |items| > 0 {
      AnyMatchThrows(items[1..], key, id);
      if key(items[0]).Ok? && key(items[0]) != Ok(Some(id)) {
        if AnyMatch(items, key, id).Throws? {
          var i :| 0 <= i < |items[1..]| && key(items[1..][i]).Throws? && NoMatchBefore(items[1..], key, id, i);
          assert key(items[i + 1]).Throws? && NoMatchBefore(items, key, id, i + 1);
        } else {
          forall i | 0 <= i < |items| && key(items[i]).Throws?
            ensures !NoMatchBefore(items, key, id, i)
          {
            assert i > 0 && items[i] == items[1..][i - 1];
            assert !NoMatchBefore(items[1..], key, id, i - 1);
            var j :| 0 <= j < i - 1 && key(items[1..][j]) == Ok(Some(id));
            assert key(items[j + 1]) == Ok(Some(id));
          }
        }
      } else if key(items[0]).Throws? {
        assert NoMatchBefore(items, key, id, 0);
      } else {
        assert forall i | 0 < i < |items| :: !NoMatchBefore(items, key, id, i);
      }
    }
  }

  /** `items.filter(item => item.id !== id)`: `filter` visits every element, so a
   single `null` anywhere raises the TypeError. */
  function FilterOutId(items: seq<Entry>, id: string): (r: Eval<seq<Entry>>)
    ensures r.Throws? <==> Null in items
    ensures r.Ok? ==> forall e :: e in r.value <==> e in items && !IdIs(e, id)
    ensures r.Ok? ==> |r.value| <= |items|
  {
    if |items| == 0 then Ok([])
    else
      match IdField(items[0])
      case Throws => Throws
      case Ok(k) =>
        match FilterOutId(items[1..], id)
        case Throws => Throws
        case Ok(rest) => Ok(if k == Some(id) then rest else [items[0]] + rest)
  }

  /** No two elements carry the same (present) id. */
  ghost predicate UniqueIds(items: seq<Entry>)
  {
    forall i, j | 0 <= i < j < |items| && IdField(items[i]).Ok? && IdField(items[i]).value.Some? ::
      IdField(items[j]) != IdField(items[i])
  }

  /** The list after `add(product)` in either store: the product is appended when
   the `some` scan answers "absent"; a duplicate or a TypeError leaves the list. */
  function ListAfterAdd(items: seq<Entry>, product: Product): (r: seq<Entry>)
    ensures Null !in items && (forall i | 0 <= i < |items| :: !IdIs(items[i], product.id)) ==>
              r == items + [Raw(product)]
    ensures (exists i | 0 <= i < |items| :: items[i] == Null || IdIs(items[i], product.id)) ==>
              r == items
  {
    match AnyMatch(items, IdField, product.id)
    case Ok(false) => items + [Raw(product)]
    case _ => items
  }

  /** The list after `remove(id)` in either store: the filtered list, or the old
   list when the filter raised. */
  function ListAfterRemove(items: seq<Entry>, id: string): (r: seq<Entry>)
    ensures Null in items ==> r == items
    ensures Null !in items ==> forall e :: e in r <==> e in items && !IdIs(e, id)
    ensures |r| <= |items|
  {
    match FilterOutId(items, id)
    case Ok(rest) => rest
    case Throws => items
  }

  /** `filter` distributes over concatenation; with the single-element cases this
   says the kept elements stay in their original order. */
  lemma {:induction false} FilterOutIdAppend(s: seq<Entry>, t: seq<Entry>, id: string)
    ensures FilterOutId(s + t, id) ==
              if FilterOutId(s, id).Ok? && FilterOutId(t, id).Ok?
              then Ok(FilterOutId(s, id).value + FilterOutId(t, id).value)
              else Throws
  {
    if |s| == 0 {
      assert s + t == t;
      if FilterOutId(t, id).Ok? {
        assert FilterOutId(s, id).value + FilterOutId(t, id).value == FilterOutId(t, id).value;
      }
    } else {
      assert (s + t)[0] == s[0] && (s + t)[1..] == s[1..] + t;
      FilterOutIdAppend(s[1..], t, id);
      if FilterOutId(s[1..], id).Ok? && FilterOutId(t, id).Ok? && s[0] != Null {
        var a, b := FilterOutId(s[1..], id).value, FilterOutId(t, id).value;
        assert [s[0]] + a + b == [s[0]] + (a + b);
      }
    }
  }

  /** Removing an id that no element carries gives back the same list. */
  lemma {:induction false} FilterOutIdAbsent(items: seq<Entry>, id: string)
    requires Null !in items
    requires forall i | 0 <= i < |items| :: !IdIs(items[i], id)
    ensures FilterOutId(items, id) == Ok(items)
  {
    if |items| > 0 {
      assert forall i | 0 <= i < |items[1..]| :: items[1..][i] == items[i + 1];
      FilterOutIdAbsent(items[1..], id);
      assert [items[0]] + items[1..] == items;
    }
  }

  /** Removing an absent id is a no-op. */
  lemma RemoveAbsentIsNoop(items: seq<Entry>, id: string)
    requires AnyMatch(items, IdField, id) == Ok(false)
    ensures ListAfterRemove(items, id) == items
  {
    FilterOutIdAbsent(items, id);
  }

  /** Removing the same id twice is the same as removing it once. */
  lemma RemoveIsIdempotent(items: seq<Entry>, id: string)
    ensures ListAfterRemove(ListAfterRemove(items, id), id) == ListAfterRemove(items, id)
  {
    var r := ListAfterRemove(items, id);
    if Null !in items {
      assert forall i | 0 <= i < |r| :: r[i] in r;
      FilterOutIdAbsent(r, id);
    }
  }

  /** Appending a product whose id is new and then removing that id restores the list. */
  lemma AddThenRemoveRestores(items: seq<Entry>, product: Product)
    requires AnyMatch(items, IdField, product.id) == Ok(false)
    ensures ListAfterRemove(ListAfterAdd(items, product), product.id) == items
  {
    FilterOutIdAppend(items, [Raw(product)], product.id);
    FilterOutIdAbsent(items, product.id);
    assert FilterOutId([Raw(product)], product.id) == Ok([]) by {
      assert [Raw(product)][1..] == [];
    }
  }

  /** A successful add keeps the ids pairwise distinct. */
  lemma AddKeepsUniqueIds(items: seq<Entry>, product: Product)
    requires UniqueIds(items)
    ensures UniqueIds(ListAfterAdd(items, product))
  {
    var r := ListAfterAdd(items, product);
    if r != items {
      forall i, j | 0 <= i < j < |r| && IdField(r[i]).Ok? && IdField(r[i]).value.Some?
        ensures IdField(r[j]) != IdField(r[i])
      {
        if j == |items| {
          assert AnyMatch(items, IdField, product.id) == Ok(false);
          assert r[i] == items[i];
        }
      }
    }
  }

  /** Putting an element in front of a list keeps the ids distinct when no
   element of the list carries the new element's id. */
  lemma ConsKeepsUniqueIds(x: Entry, rest: seq<Entry>)
    requires UniqueIds(rest)
    requires IdField(x).Ok? && IdField(x).value.Some? ==> forall e | e in rest :: IdField(e) != IdField(x)
    ensures UniqueIds([x] + rest)
  {
    var r := [x] + rest;
    forall i, j | 0 <= i < j < |r| && IdField(r[i]).Ok? && IdField(r[i]).value.Some?
      ensures IdField(r[j]) != IdField(r[i])
    {
      assert r[j] == rest[j - 1];
      if i > 0 {
        assert r[i] == rest[i - 1];
      } else {
        assert r[j] in rest;
      }
    }
  }

  /** Dropping the head keeps the ids distinct. */
  lemma TailKeepsUniqueIds(items: seq<Entry>)
    requires |items| > 0 && UniqueIds(items)
    ensures UniqueIds(items[1..])
  {
    var tail := items[1..];
    forall i, j | 0 <= i < j < |tail| && IdField(tail[i]).Ok? && IdField(tail[i]).value.Some?
      ensures IdField(tail[j]) != IdField(tail[i])
    {
      assert tail[i] == items[i + 1] && tail[j] == items[j + 1];
    }
  }

  /** A remove keeps the ids pairwise distinct. */
  lemma {:induction false} RemoveKeepsUniqueIds(items: seq<Entry>, id: string)
    requires UniqueIds(items)
    ensures UniqueIds(ListAfterRemove(items, id))
  {
    if Null !in items && |items| > 0 {
      var tail := items[1..];
      TailKeepsUniqueIds(items);
      RemoveKeepsUniqueIds(tail, id);
      var rest := ListAfterRemove(tail, id);
      if !IdIs(items[0], id) {
        assert ListAfterRemove(items, id) == [items[0]] + rest;
        forall e | e in rest ensures IdField(e) != IdField(items[0]) || IdField(items[0]).value.None? {
          var k :| 0 <= k < |tail| && tail[k] == e;
          assert items[k + 1] == e;
        }
        ConsKeepsUniqueIds(items[0], rest);
      }
    }
  }

  /** After an add on a list without `null`, the `some` scan finds the product. */
  lemma AddMakesMember(items: seq<Entry>, product: Product)
    requires Null !in items
    ensures AnyMatch(ListAfterAdd(items, product), IdField, product.id) == Ok(true)
  {
    var r := ListAfterAdd(items, product);
    assert forall j | 0 <= j < |r| :: r[j] != Null;
    if r == items {
      var i :| 0 <= i < |items| && IdIs(items[i], product.id);
      assert ReadableBefore(r, IdField, i);
    } else {
      assert IdIs(r[|items|], product.id);
      assert ReadableBefore(r, IdField, |items|);
    }
  }

  /** After a remove on a list without `null`, the `some` scan no longer finds the id. */
  lemma RemoveMakesNonMember(items: seq<Entry>, id: string)
    requires Null !in items
    ensures AnyMatch(ListAfterRemove(items, id), IdField, id) == Ok(false)
  {
    var r := ListAfterRemove(items, id);
    assert forall i | 0 <= i < |r| :: r[i] in r;
  }
}
