/** Form items and the list operations the component applies to them:
    editing one slot, adding an item, removing items by id. */
module FormItems {

  /** One set of inputs: an id and the values typed into its slots; a slot
      nobody typed into is absent from `values`. */
  datatype FormItem = FormItem(id: int, values: map<int, string>)

  /** `values[slot] || ''`: the value of a slot, the empty string when absent. */
  function Lookup(values: map<int, string>, slot: int): string {
    if slot in values then values[slot] else ""
  }

  /** The ids of the list are pairwise different. */
  predicate UniqueIds(items: seq<FormItem>) {
    forall i, j :: 0 <= i < j < |items| ==> items[i].id != items[j].id
  }

  /** The item with slot `index` set to `value`. */
  function WithValue(item: FormItem, index: int, value: string): FormItem {
    FormItem(item.id, item.values[index := value])
  }

  /** `handleInputChange`: every item whose id is `itemId` gets `value` in
      slot `index`; nothing else changes, neither its other slots nor the
      other items nor the order. */
  function EditItems(items: seq<FormItem>, itemId: int, index: int, value: string): (r: seq<FormItem>)
    ensures |r| == |items|
    ensures forall i :: 0 <= i < |r| ==> r[i].id == items[i].id
    ensures forall i :: 0 <= i < |r| && items[i].id != itemId ==> r[i] == items[i]
    ensures forall i :: 0 <= i < |r| && items[i].id == itemId ==>
              Lookup(r[i].values, index) == value
              && r[i].values.Keys == items[i].values.Keys + {index}
    ensures forall i, slot :: 0 <= i < |r| && slot != index ==>
              Lookup(r[i].values, slot) == Lookup(items[i].values, slot)
    ensures UniqueIds(items) ==> UniqueIds(r)
  {
    seq(|items|, i requires 0 <= i < |items| =>
      if items[i].id == itemId then WithValue(items[i], index, value) else items[i])
  }

  /** `Math.max(...ids, 0)`: the largest id, or 0 when that is larger. */
  function MaxId(items: seq<FormItem>): (m: int)
    ensures m >= 0
    ensures forall i :: 0 <= i < |items| ==> items[i].id <= m
    ensures m == 0 || exists i :: 0 <= i < |items| && items[i].id == m
  {
    if items == [] then 0
    else
      var rest := MaxId(items[1..]);
      if items[0].id > rest then items[0].id else rest
  }

  /** The id `handleAddFormItem` gives a new item: one more than `MaxId`. */
  function NextId(items: seq<FormItem>): (n: int)
    ensures n >= 1
    ensures forall i :: 0 <= i < |items| ==> items[i].id < n
  {
    MaxId(items) + 1
  }

  /** `handleAddFormItem`: one new item with no values at the end, whose id
      is larger than every id before it; the earlier items are unchanged. */
  function AddItem(items: seq<FormItem>): (r: seq<FormItem>)
    ensures |r| == |items| + 1 && r[..|items|] == items
    ensures r[|items|].values == map[]
    ensures forall i :: 0 <= i < |items| ==> items[i].id < r[|items|].id
    ensures UniqueIds(items) ==> UniqueIds(r)
  {
    items + [FormItem(NextId(items), map[])]
  }

  /** `handleRemoveFormItem`: `items.filter(item => item.id !== itemId)`.
      Exactly the items with another id are kept. */
  function RemoveItems(items: seq<FormItem>, itemId: int): (r: seq<FormItem>)
    ensures |r| <= |items|
    ensures forall x :: x in r <==> x in items && x.id != itemId
    ensures UniqueIds(items) ==> UniqueIds(r)
  {
    if items == [] then []
    else if items[0].id == itemId then RemoveItems(items[1..], itemId)
    else
      var rest := RemoveItems(items[1..], itemId);
      assert forall x :: x in rest ==> x in items[1..];
      [items[0]] + rest
  }

  /** Removal keeps the order: removing from a concatenation is removing
      from each part. */
  lemma {:induction false} RemoveItemsAppend(a: seq<FormItem>, b: seq<FormItem>, itemId: int)
    ensures RemoveItems(a + b, itemId) == RemoveItems(a, itemId) + RemoveItems(b, itemId)
  {
    if a == [] {
      assert a + b == b;
    } else {
      assert (a + b)[0] == a[0];
      assert (a + b)[1..] == a[1..] + b;
      RemoveItemsAppend(a[1..], b, itemId);
    }
  }

  /** Removing an id no item has changes nothing. */
  lemma {:induction false} RemoveAbsentId(items: seq<FormItem>, itemId: int)
    requires forall i :: 0 <= i < |items| ==> items[i].id != itemId
    ensures RemoveItems(items, itemId) == items
  {
    if items != [] {
      RemoveAbsentId(items[1..], itemId);
      assert [items[0]] + items[1..] == items;
    }
  }

  /** The number of items removed is the number of items with that id. */
  lemma {:induction false} RemoveItemsCount(items: seq<FormItem>, itemId: int)
    ensures |RemoveItems(items, itemId)| == |items| - CountId(items, itemId)
  {
    if items != [] {
      RemoveItemsCount(items[1..], itemId);
    }
  }

  /** How many items have id `itemId`. */
  function CountId(items: seq<FormItem>, itemId: int): nat {
    if items == [] then 0
    else (if items[0].id == itemId then 1 else 0) + CountId(items[1..], itemId)
  }
}
