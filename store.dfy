/** The blueprint's module-level state as an object: the list `items`,
    which the handlers read, append to, rename inside and rebind. Each
    handler is a method whose new state and answer are those of the step
    function of the same name in `Routes`. */
module Store {
  import opened Items
  import Routes

  class ItemStore {
    /** The module-level list `items = []`, in insertion order. */
    var items: seq<Item>

    /** The store as the process starts: no records. */
    constructor ()
      ensures items == []
    {
      items := [];
    }

    /** The generator `next((item for item in items if item['id'] == item_id), None)`:
        walks the list from the front and stops at the first record carrying `k`. */
    method Find(k: nat) returns (found: Option<nat>)
      ensures found == FirstIndex(items, k)
    {
      var j := 0;
      while j < |items|
        invariant 0 <= j <= |items|
        invariant forall m :: 0 <= m < j ==> items[m].id != k
      {
        if items[j].id == k {
          return Some(j);
        }
        j := j + 1;
      }
      return None;
    }

    /** The comprehension `[itm for itm in items if itm['id'] != item_id]`,
        built front to back into a new list. */
    method KeepOthers(k: nat) returns (kept: seq<Item>)
      ensures kept == Without(items, k)
    {
      kept := [];
      var j := 0;
      while j < |items|
        invariant 0 <= j <= |items|
        invariant kept == Without(items[..j], k)
      {
        assert items[..j + 1] == items[..j] + [items[j]];
        WithoutSnoc(items[..j], items[j], k);
        if items[j].id != k {
          kept := kept + [items[j]];
        }
        j := j + 1;
      }
      assert items[..j] == items;
    }

    /** `get_items`: answers with the whole list and changes nothing. */
    method GetItems() returns (outcome: Routes.Outcome)
      ensures outcome == Routes.GetItems(items).outcome
    {
      outcome := Routes.Listed(items);
    }

    /** `add_item`: refuses a body without a name; otherwise appends a
        record numbered one past the current length. */
    method AddItem(body: Body) returns (outcome: Routes.Outcome)
      modifies this
      ensures Routes.Result(outcome, items) == Routes.AddItem(old(items), body)
    {
      var name := RequestName(body);
      if name.None? {
        return Routes.BadRequest;
      }
      var item := Item(|items| + 1, name.value);
      items := items + [item];
      outcome := Routes.Ok(item);
    }

    /** `get_item`: the first record carrying `k`, or NotFound. */
    method GetItem(k: nat) returns (outcome: Routes.Outcome)
      ensures outcome == Routes.GetItem(items, k).outcome
    {
      var found := Find(k);
      if found.Some? {
        outcome := Routes.Ok(items[found.value]);
      } else {
        outcome := Routes.NotFound;
      }
    }

    /** `update_item`: checks the name, then renames the first record
        carrying `k` where it stands. */
    method UpdateItem(k: nat, body: Body) returns (outcome: Routes.Outcome)
      modifies this
      ensures Routes.Result(outcome, items) == Routes.UpdateItem(old(items), k, body)
    {
      var name := RequestName(body);
      if name.None? {
        return Routes.BadRequest;
      }
      var found := Find(k);
      if found.None? {
        return Routes.NotFound;
      }
      var i := found.value;
      items := items[i := items[i].(name := name.value)];
      outcome := Routes.Ok(items[i]);
    }

    /** `delete_item`: when some record carries `k`, rebinds the list to the
        records that do not; otherwise NotFound. */
    method DeleteItem(k: nat) returns (outcome: Routes.Outcome)
      modifies this
      ensures Routes.Result(outcome, items) == Routes.DeleteItem(old(items), k)
    {
      var found := Find(k);
      if found.None? {
        return Routes.NotFound;
      }
      items := KeepOthers(k);
      outcome := Routes.Deleted;
    }
  }
}
