/** The five item handlers of the blueprint, each as one deterministic step:
    the current list of records and the request's inputs (a path id, a
    body) give an outcome and the list afterwards. HTTP status codes and
    JSON rendering are reduced to the outcome tag. */
module Routes {
  import opened Items

  /** What a handler answers: the listing, one record (200 or 201),
      400 "Name is required", 404 "Item not found", or "Item deleted". */
  datatype Outcome = Listed(listing: seq<Item>) | Ok(item: Item) | BadRequest | NotFound | Deleted

  /** A handler's answer together with the store's list after it ran. */
  datatype Result = Result(outcome: Outcome, items: seq<Item>)

  /** The records carrying distinct ids (what the store is meant to keep). */
  predicate UniqueIds(s: seq<Item>) {
    forall i, j :: 0 <= i < j < |s| ==> s[i].id != s[j].id
  }

  /** `GET /items`: the whole list, in insertion order; nothing changes. */
  function GetItems(items: seq<Item>): (r: Result)
    ensures r.outcome.Listed? && r.outcome.listing == items && r.items == items
  {
    Result(Listed(items), items)
  }

  /** `POST /items`: without a name the request is refused and nothing
      changes; otherwise a record with id `len(items) + 1` and the given
      name is appended and returned. */
  function AddItem(items: seq<Item>, body: Body): (r: Result)
    ensures RequestName(body).None? <==> r.outcome == BadRequest
    ensures r.outcome == BadRequest ==> r.items == items
    ensures r.outcome != BadRequest ==> r.outcome.Ok? && |r.items| == |items| + 1 && r.items[|items|] == r.outcome.item
  {
    match RequestName(body)
    case None => Result(BadRequest, items)
    case Some(name) =>
      var item := Item(|items| + 1, name);
      Result(Ok(item), items + [item])
  }

  /** `GET /items/<id>`: the first record in list order carrying the id, or
      NotFound when none does; nothing changes. */
  function GetItem(items: seq<Item>, k: nat): (r: Result)
    ensures r.items == items
    ensures r.outcome == NotFound <==> !HasId(items, k)
    ensures r.outcome != NotFound ==> r.outcome.Ok? && r.outcome.item.id == k
    ensures r.outcome.Ok? ==>
      exists i :: 0 <= i < |items| && items[i] == r.outcome.item &&
        forall j :: 0 <= j < i ==> items[j].id != k
  {
    match FirstIndex(items, k)
    case None => Result(NotFound, items)
    case Some(i) => Result(Ok(items[i]), items)
  }

  /** `PUT /items/<id>`: the name is checked first, then the first record
      carrying the id is renamed in place; ids, order and length never
      change. */
  function UpdateItem(items: seq<Item>, k: nat, body: Body): (r: Result)
    ensures |r.items| == |items|
    ensures forall j :: 0 <= j < |items| ==> r.items[j].id == items[j].id
    ensures RequestName(body).None? ==> r.outcome == BadRequest
    ensures r.outcome == NotFound <==> RequestName(body).Some? && !HasId(items, k)
    ensures r.outcome.BadRequest? || r.outcome.NotFound? ==> r.items == items
  {
    match RequestName(body)
    case None => Result(BadRequest, items)
    case Some(name) =>
      match FirstIndex(items, k)
      case None => Result(NotFound, items)
      case Some(i) =>
        var item := items[i].(name := name);
        Result(Ok(item), items[i := item])
  }

  /** `DELETE /items/<id>`: when some record carries the id, the list is
      rebuilt without every record carrying it; otherwise NotFound. Either
      way no record with that id is left. */
  function DeleteItem(items: seq<Item>, k: nat): (r: Result)
    ensures r.outcome == (if HasId(items, k) then Deleted else NotFound)
    ensures !HasId(r.items, k)
    ensures r.outcome == NotFound ==> r.items == items
  {
    match FirstIndex(items, k)
    case None => Result(NotFound, items)
    case Some(_) => Result(Deleted, Without(items, k))
  }

  // ---- Properties of single handlers ----

  /** A successful create keeps every earlier record where it was and
      appends `Item(|items| + 1, name)` with the name exactly as sent. */
  lemma AddItemAppends(items: seq<Item>, body: Body, name: string)
    requires RequestName(body) == Some(name)
    ensures AddItem(items, body) == Result(Ok(Item(|items| + 1, name)), items + [Item(|items| + 1, name)])
    ensures AddItem(items, body).items[..|items|] == items
  {
  }

  /** Looking up the id a create has just returned finds the new record
      exactly when no earlier record already carried that id; otherwise the
      earlier record shadows it. */
  lemma {:induction false} GetAfterAdd(items: seq<Item>, body: Body, name: string)
    requires RequestName(body) == Some(name)
    ensures var k := |items| + 1;
      GetItem(AddItem(items, body).items, k).outcome ==
        (if HasId(items, k) then GetItem(items, k).outcome else Ok(Item(k, name)))
  {
    var k := |items| + 1;
    var after := items + [Item(k, name)];
    assert after[..|items|] == items;
    var i := FirstIndex(after, k);
    if HasId(items, k) {
      var f := FirstIndex(items, k).value;
      assert after[f].id == k;
      assert i.value == f;
    } else {
      assert after[|items|].id == k;
      assert i.value == |items|;
    }
  }

  /** A rename leaves the first record carrying the id holding the new name
      and every other record as it was; looking the id up afterwards gives
      the renamed record. */
  lemma {:induction false} UpdateItemRenamesFirst(items: seq<Item>, k: nat, body: Body, name: string)
    requires RequestName(body) == Some(name)
    requires HasId(items, k)
    ensures var r := UpdateItem(items, k, body);
      r.outcome == Ok(Item(k, name)) &&
      exists i :: 0 <= i < |items| && items[i].id == k &&
        (forall j :: 0 <= j < i ==> items[j].id != k) &&
        r.items == items[i := Item(k, name)]
    ensures GetItem(UpdateItem(items, k, body).items, k).outcome == Ok(Item(k, name))
  {
    var i := FirstIndex(items, k).value;
    var after := UpdateItem(items, k, body).items;
    assert after == items[i := Item(k, name)];
    assert after[i].id == k;
    assert FirstIndex(after, k).value == i;
  }

  /** Update reads the name before it looks for the record: a request
      without a name is refused for every id, known or not. */
  lemma UpdateItemWithoutName(items: seq<Item>, k: nat, body: Body)
    requires RequestName(body).None?
    ensures UpdateItem(items, k, body) == Result(BadRequest, items)
  {
  }

  /** A delete drops every record carrying the id, keeps the others in
      their order, and shrinks the list by exactly the number dropped. */
  lemma DeleteItemRemovesAll(items: seq<Item>, k: nat)
    requires HasId(items, k)
    ensures var r := DeleteItem(items, k);
      r.outcome == Deleted && r.items == Without(items, k) &&
      |r.items| == |items| - Count(items, k) && Count(items, k) >= 1 &&
      Subsequence(r.items, items)
    ensures GetItem(DeleteItem(items, k).items, k).outcome == NotFound
  {
  }

  /** When ids are distinct a successful delete removes exactly one record. */
  lemma {:induction false} DeleteItemRemovesOne(items: seq<Item>, k: nat)
    requires UniqueIds(items)
    requires HasId(items, k)
    ensures |DeleteItem(items, k).items| == |items| - 1
  {
    CountUnique(items, k);
  }

  /** Distinct ids mean an id that is present is carried exactly once. */
  lemma {:induction false} CountUnique(s: seq<Item>, k: nat)
    requires UniqueIds(s)
    requires HasId(s, k)
    ensures Count(s, k) == 1
  {
    if s[0].id == k {
      assert !HasId(s[1..], k) by {
        forall i | 0 <= i < |s[1..]| ensures s[1..][i].id != k {
          assert s[0].id != s[i + 1].id;
        }
      }
    } else {
      assert UniqueIds(s[1..]) by {
        forall i, j | 0 <= i < j < |s[1..]| ensures s[1..][i].id != s[1..][j].id {
          assert s[i + 1].id != s[j + 1].id;
        }
      }
      var i :| 0 <= i < |s| && s[i].id == k;
      assert s[1..][i - 1].id == k;
      CountUnique(s[1..], k);
    }
  }

  /** Deleting twice: the second delete of the same id finds nothing and
      changes nothing. */
  lemma DeleteItemTwice(items: seq<Item>, k: nat)
    ensures var once := DeleteItem(items, k).items;
      DeleteItem(once, k) == Result(NotFound, once)
  {
  }
}
