# Item store of the Flask CRUD example, in Dafny

The repository is a minimal REST service for one resource, "item". Its only
state is the module-level list `items` of `{id, name}` records in
`flask_api/app/routes.py`. Five route handlers read that list or change it:

- `get_items` lists it;
- `add_item` appends a record numbered `len(items) + 1`;
- `get_item` returns the first record with a given id;
- `update_item` renames the first record with a given id, in place;
- `delete_item` rebinds the list to the records that do not carry the id.

The model has four modules:

- `Items` (items.dfy): the record type, the first-match scan the handlers
  share (`FirstIndex`), the comprehension used by delete (`Without`), and the
  request-body check (`RequestName`). Each has a contract that characterises
  it. `WithoutIsDetermined` proves that the contract of `Without` pins its
  result down completely.
- `Routes` (routes.dfy): each handler as a pure step from the list and the
  request's inputs to an `Outcome` (`Listed`, `Ok`, `BadRequest`, `NotFound`,
  `Deleted`) and the list afterwards. Lemmas cover the behaviour across
  handlers: lookup after create, after rename and after delete.
- `Store` (store.dfy): the class `ItemStore`, whose field `items` is the
  module-level list. Its methods are the handlers written imperatively. The
  scan and the comprehension are loops. Each method is proved to give the
  answer and the new list of the step function of the same name.
- `Traces` (traces.dfy): runs of several requests. They show how the id rule
  behaves over time. Ids stay `1..n` while nothing is deleted. Deleting any
  record but the last, and then creating one, hands out an id that a
  surviving record still carries. A lookup of that id then finds the old
  record.

The model follows the code as written, including where a reader of the
service's description would expect something else:

- A name is required only as a key. An empty or arbitrary name is accepted
  and stored verbatim (`EmptyNameAccepted`).
- Ids are not unique after a delete followed by a create
  (`DeleteThenAddReusesId`, `IdReuseExample`). Get and update act on the first record with the id.
  Delete removes every record with it.
- Because delete removes every match, the length of the list is not "creates
  minus deletes" (`LengthIsNotCreatesMinusDeletes`). Each successful delete
  removes exactly one record only while ids are distinct
  (`DeleteItemRemovesOne`).

## Model

| member | source | states |
|---|---|---|
| Items.Count | flask_api/app/routes.py:53-55 | the number of records with an id is at most the length, and is zero exactly when no record carries the id |
| Items.FirstIndex | flask_api/app/routes.py:32 | the scan finds nothing exactly when no record carries the id; otherwise it gives a position holding the id with no earlier position holding it |
| Items.RequestName | flask_api/app/routes.py:20-21 | a body yields a name exactly when it is present and holds the key `name`; the name is that value unchanged, and the emptiness test adds nothing to the key test |
| Items.Without | flask_api/app/routes.py:55 | the result holds exactly the records of the list whose id differs; its length drops by the number of records carrying the id; it is a subsequence of the list, so order is kept |
| Items.WithoutIsDetermined | flask_api/app/routes.py:55 | any list that has the three properties stated for `Without` is `Without`'s result, so those properties specify the comprehension completely |
| Items.WithoutSnoc | flask_api/app/routes.py:55 | filtering a list extended by one record is filtering the list and then keeping that record unless it carries the id |
| Items.WithoutAbsent | flask_api/app/routes.py:55 | filtering out an id no record carries leaves the list as it was |
| Routes.GetItems | flask_api/app/routes.py:14-16 | listing answers with the whole list in order and leaves it unchanged |
| Routes.AddItem | flask_api/app/routes.py:18-28 | the answer is BadRequest exactly when the body has no name, and then the list is unchanged; otherwise the answer is a record and the list grows by one with that record last |
| Routes.AddItemAppends | flask_api/app/routes.py:23-28 | a successful create answers `Item(len + 1, name)` with the name as sent, appends it and leaves every earlier record in place |
| Routes.GetItem | flask_api/app/routes.py:30-36 | lookup never changes the list; it answers NotFound exactly when no record carries the id, and otherwise the first record in list order with that id |
| Routes.GetAfterAdd | flask_api/app/routes.py:24-27 | looking up the id a create has just returned finds the new record exactly when no earlier record carried that id; otherwise it finds the earlier record |
| Routes.UpdateItem | flask_api/app/routes.py:38-48 | length and every id are unchanged; a missing name gives BadRequest; NotFound exactly when the name is present and no record carries the id; in both failures the list is unchanged |
| Routes.UpdateItemWithoutName | flask_api/app/routes.py:40-43 | a body without a name is refused for every id, including ids not in the list, and nothing changes |
| Routes.UpdateItemRenamesFirst | flask_api/app/routes.py:43-46 | a valid update of a present id answers the renamed record; only the first record with the id changes, and only in its name; a lookup afterwards finds the renamed record |
| Routes.DeleteItem | flask_api/app/routes.py:50-58 | the answer is Deleted when some record carries the id and NotFound otherwise; afterwards no record carries the id; on NotFound the list is unchanged |
| Routes.DeleteItemRemovesAll | flask_api/app/routes.py:53-56 | a delete of a present id removes every record with that id, at least one, keeps the rest in order, and a lookup afterwards gives NotFound |
| Routes.DeleteItemRemovesOne | flask_api/app/routes.py:55 | when ids are distinct, a successful delete shortens the list by exactly one |
| Routes.CountUnique | flask_api/app/routes.py:53-55 | with distinct ids a present id is carried by exactly one record |
| Routes.DeleteItemTwice | flask_api/app/routes.py:52-58 | deleting the same id a second time answers NotFound and changes nothing |
| Store.ItemStore.constructor | flask_api/app/routes.py:8 | the store starts with an empty list |
| Store.ItemStore.Find | flask_api/app/routes.py:32 | the front-to-back scan stops at the first record with the id and returns the position `FirstIndex` specifies |
| Store.ItemStore.KeepOthers | flask_api/app/routes.py:55 | the list built record by record equals `Without` of the current list |
| Store.ItemStore.GetItems | flask_api/app/routes.py:14-16 | answers the listing of the current list without changing it |
| Store.ItemStore.AddItem | flask_api/app/routes.py:18-28 | the answer and the new list are those of `Routes.AddItem` on the old list |
| Store.ItemStore.GetItem | flask_api/app/routes.py:30-36 | without changing the store, answers what `Routes.GetItem` answers |
| Store.ItemStore.UpdateItem | flask_api/app/routes.py:38-48 | the in-place rename gives the answer and the new list of `Routes.UpdateItem` on the old list |
| Store.ItemStore.DeleteItem | flask_api/app/routes.py:50-58 | rebinding to the filtered list gives the answer and the new list of `Routes.DeleteItem` on the old list |
| Traces.Step | flask_api/app/routes.py:14-58 | listing and lookup leave the list unchanged, and an update keeps its length |
| Traces.Run | flask_api/app/routes.py:8-58 | a run of requests yields exactly one outcome per request |
| Traces.SequentialUnique | flask_api/app/routes.py:24 | a list with ids 1..n has distinct ids |
| Traces.AddItemFreshWhenSequential | flask_api/app/routes.py:24-27 | while ids are 1..n, a create hands out n + 1, which no record carries, and the ids are 1..n+1 afterwards |
| Traces.AddItemKeepsUniqueIff | flask_api/app/routes.py:24-27 | on a list with distinct ids, a create keeps the ids distinct exactly when no record already carries `len + 1` |
| Traces.StepKeepsSequential | flask_api/app/routes.py:14-58 | every request keeps ids 1..n except a delete that removes a record other than the last |
| Traces.RunKeepsSequential | flask_api/app/routes.py:8-58 | from ids 1..n, a run whose every delete finds nothing or removes the last record leaves ids 1..m |
| Traces.RunWithoutDeleteKeepsSequential | flask_api/app/routes.py:8-48 | from the empty store, or any list with ids 1..n, a run with no delete leaves ids 1..m |
| Traces.DeleteLastKeepsSequential | flask_api/app/routes.py:53-55 | deleting the last of ids 1..n drops just that record, and ids stay 1..n-1 |
| Traces.DeleteThenAddReusesId | flask_api/app/routes.py:24-55 | deleting any record but the last of ids 1..n, then creating, hands out n; the old last record still carries n; ids are no longer distinct; a lookup of n finds the old record |
| Traces.DeleteInsideSequential | flask_api/app/routes.py:53-55 | deleting any record but the last of ids 1..n leaves n - 1 records with distinct ids, and the first one carrying n is the old last record |
| Traces.WithoutKeepsUnique | flask_api/app/routes.py:55 | filtering keeps distinct ids distinct |
| Traces.IdReuseExample | flask_api/app/routes.py:18-58 | create "a", create "b", delete 1 and create "c" leave two records numbered 2 |
| Traces.LengthIsNotCreatesMinusDeletes | flask_api/app/routes.py:18-58 | create "a", create "b", delete 1, create "c", delete 2: three successful creates and two successful deletes leave an empty list |
| Traces.SampleSession | flask_api/app/routes.py:14-58 | create, list, rename, delete and lookup give the answers of the documented walk-through, ending in NotFound |
| Traces.EmptyNameAccepted | flask_api/app/routes.py:21-25 | a present but empty name is accepted and stored as is |
| Traces.MissingNameRefused | flask_api/app/routes.py:20-22 | an empty object, an object without `name`, or no body at all is refused, and nothing changes |

## Left out

- The Flask blueprint, route decorators, `request.get_json()` and `jsonify`
  are not modelled. The HTTP layer is reduced to a path id, an optional body
  and an outcome tag.
- HTTP status codes are not modelled. In particular, 201 for a create and 200
  for a lookup or rename are both `Ok`.
- The `home` route is not modelled. It answers a fixed greeting and touches
  no state.
- `flask_api/app/__init__.py` is not modelled. It holds the app factory and
  the 404/500 error handlers, which are framework wiring.
- JSON bodies that are not objects are not modelled, for example a string
  that contains `name` or a list holding `"name"`. Such a body passes the key
  test. The handler's own subscript `data['name']` then raises `TypeError`,
  which the app's 500 handler answers, and the list is unchanged. That
  happens in `add_item` at once, and in `update_item` only when a record
  carries the id. For an unknown id, `update_item` answers 404 "Item not
  found" before it reads the name.
- A present name is modelled as a string. The code stores whatever JSON value
  is there, including null, numbers and objects.
- Path ids are natural numbers, as Flask's `int` converter admits. Requests
  whose path does not match are the framework's 404.
- Aliasing is not modelled. `update_item` renames the dictionary that is
  also in the list, and the model keeps records as values. The answer is
  rendered to JSON at once, so no caller can observe the difference.
- Concurrent requests against the shared list are not modelled. The code
  does nothing to coordinate them, so the model is single-threaded.
