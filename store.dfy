/**
 The persisted item store of the grocery list: the ordered list of `{id, value}`
 records kept under the single storage key `'list'`, and the whole-list
 transformations the store helpers apply before writing the list back.
 */
module GroceryStore {

  import opened Wrappers

  /** One grocery record; `id` is the creation timestamp rendered as a string. */
  datatype Item = Item(id: string, value: string)

  /** No record of `items` carries `id`. */
  predicate Absent(items: seq<Item>, id: string)
  {
    forall i :: 0 <= i < |items| ==> items[i].id != id
  }

  /** No two records of `items` share an id. */
  predicate UniqueIds(items: seq<Item>)
  {
    forall i, j :: 0 <= i < j < |items| ==> items[i].id != items[j].id
  }

  /** Every record of `items` has a non-empty value. */
  predicate NonEmptyValues(items: seq<Item>)
  {
    forall i :: 0 <= i < |items| ==> items[i].value != ""
  }

  /**
   What `getLocalStorage` hands back: the parsed list when the key holds one,
   the empty list when nothing is stored.
   */
  function Load(stored: Option<seq<Item>>): seq<Item>
  {
    match stored
    case None => []
    case Some(items) => items
  }

  /** The `filter` of `removeFromLocalStorage`: keeps the records whose id differs. */
  function Without(items: seq<Item>, id: string): seq<Item>
  {
    if items == [] then []
    else if items[0].id != id then [items[0]] + Without(items[1..], id)
    else Without(items[1..], id)
  }

  /** The `map` of `editLocalStorage`: every record with a matching id takes the new value. */
  function WithValue(items: seq<Item>, id: string, value: string): (r: seq<Item>)
    ensures |r| == |items|
    ensures forall i :: 0 <= i < |items| ==> r[i].id == items[i].id
    ensures forall i :: 0 <= i < |items| ==>
              r[i] == if items[i].id == id then Item(id, value) else items[i]
  {
    if items == [] then []
    else [if items[0].id == id then Item(id, value) else items[0]] + WithValue(items[1..], id, value)
  }

  /** Removal keeps exactly the records whose id differs, and never lengthens the list. */
  lemma {:induction false} WithoutMembers(items: seq<Item>, id: string)
    ensures |Without(items, id)| <= |items|
    ensures forall x :: x in Without(items, id) <==> x in items && x.id != id
  {
    if items != [] {
      WithoutMembers(items[1..], id);
      assert forall x :: x in items <==> x == items[0] || x in items[1..];
    }
  }

  /** Removal preserves relative order: filtering a concatenation filters each part in place. */
  lemma {:induction false} WithoutAppend(a: seq<Item>, b: seq<Item>, id: string)
    ensures Without(a + b, id) == Without(a, id) + Without(b, id)
  {
    if a == [] {
      assert a + b == b;
    } else {
      assert (a + b)[1..] == a[1..] + b;
      WithoutAppend(a[1..], b, id);
    }
  }

  /** Removing an id that no record carries leaves the list as it was. */
  lemma {:induction false} WithoutAbsent(items: seq<Item>, id: string)
    requires Absent(items, id)
    ensures Without(items, id) == items
  {
    if items != [] {
      WithoutAbsent(items[1..], id);
    }
  }

  /** With unique ids, removing the id of record `k` deletes exactly that one position. */
  lemma {:induction false} WithoutUnique(items: seq<Item>, k: nat)
    requires UniqueIds(items) && k < |items|
    ensures Without(items, items[k].id) == items[..k] + items[k + 1..]
  {
    var id := items[k].id;
    var tail := items[1..];
    if k == 0 {
      assert Absent(tail, id) by {
        forall i | 0 <= i < |tail| ensures tail[i].id != id {
          assert tail[i] == items[i + 1];
        }
      }
      WithoutAbsent(tail, id);
      assert items[..0] + items[1..] == tail;
    } else {
      assert items[0].id != id;
      assert UniqueIds(tail) by {
        forall i, j | 0 <= i < j < |tail| ensures tail[i].id != tail[j].id {
          assert tail[i] == items[i + 1] && tail[j] == items[j + 1];
        }
      }
      assert tail[k - 1] == items[k];
      WithoutUnique(tail, k - 1);
      calc {
        Without(items, id);
        [items[0]] + Without(tail, id);
        [items[0]] + (tail[..k - 1] + tail[k..]);
        { assert items[..k] == [items[0]] + tail[..k - 1]; assert items[k + 1..] == tail[k..]; }
        items[..k] + items[k + 1..];
      }
    }
  }

  /** Setting the value of an id that no record carries leaves the list as it was. */
  lemma WithValueAbsent(items: seq<Item>, id: string, value: string)
    requires Absent(items, id)
    ensures WithValue(items, id, value) == items
  {
    var r := WithValue(items, id, value);
    assert forall i :: 0 <= i < |items| ==> r[i] == items[i];
  }

  /** With unique ids, editing the id of record `k` changes that one position only. */
  lemma WithValueUnique(items: seq<Item>, k: nat, value: string)
    requires UniqueIds(items) && k < |items|
    ensures WithValue(items, items[k].id, value) == items[k := Item(items[k].id, value)]
  {
    var r := WithValue(items, items[k].id, value);
    assert forall i :: 0 <= i < |items| ==> r[i] == items[k := Item(items[k].id, value)][i];
  }

  /** Deleting one position keeps the remaining ids unique and the remaining values non-empty. */
  lemma UniqueIdsRemove(items: seq<Item>, k: nat)
    requires UniqueIds(items) && k < |items|
    ensures UniqueIds(items[..k] + items[k + 1..])
    ensures NonEmptyValues(items) ==> NonEmptyValues(items[..k] + items[k + 1..])
  {
    var r := items[..k] + items[k + 1..];
    assert forall i :: 0 <= i < |r| ==> r[i] == items[if i < k then i else i + 1];
  }
}
