/** Sequences of requests against one store, and what the id rule
    `len(items) + 1` does over them: ids stay 1..n as long as nothing is
    deleted, and a delete anywhere but at the end lets the next create hand
    out an id a surviving record already carries. */
module Traces {
  import opened Items
  import opened Routes

  /** One request, with what the HTTP layer extracts from it. */
  datatype Request = List | Add(body: Body) | Get(id: nat) | Update(id: nat, body: Body) | Delete(id: nat)

  /** The outcomes of a sequence of requests and the list they leave. */
  datatype Trace = Trace(outcomes: seq<Outcome>, items: seq<Item>)

  /** A body holding just the key `name`. */
  function Named(name: string): (b: Body)
    ensures RequestName(b) == Some(name)
  {
    Some(map["name" := name])
  }

  /** The ids are exactly 1, 2, ..., n in list order. */
  predicate Sequential(s: seq<Item>) {
    forall i :: 0 <= i < |s| ==> s[i].id == i + 1
  }

  /** Dispatches a request to its handler. */
  function Step(items: seq<Item>, req: Request): (r: Result)
    ensures req.List? || req.Get? ==> r.items == items
    ensures req.Update? ==> |r.items| == |items|
  {
    match req
    case List => GetItems(items)
    case Add(body) => AddItem(items, body)
    case Get(k) => GetItem(items, k)
    case Update(k, body) => UpdateItem(items, k, body)
    case Delete(k) => DeleteItem(items, k)
  }

  /** Runs the requests in order, one at a time, from the list `items`. */
  function Run(items: seq<Item>, reqs: seq<Request>): (t: Trace)
    ensures |t.outcomes| == |reqs|
    decreases |reqs|
  {
    if reqs == [] then Trace([], items)
    else
      var r := Step(items, reqs[0]);
      var rest := Run(r.items, reqs[1..]);
      Trace([r.outcome] + rest.outcomes, rest.items)
  }

  /** Ids 1..n are distinct. */
  lemma SequentialUnique(s: seq<Item>)
    requires Sequential(s)
    ensures UniqueIds(s)
  {
  }

  /** While the ids are 1..n, a create hands out the id n + 1, which no
      record carries, and the ids are 1..n+1 afterwards. */
  lemma AddItemFreshWhenSequential(items: seq<Item>, body: Body, name: string)
    requires Sequential(items)
    requires RequestName(body) == Some(name)
    ensures AddItem(items, body).outcome == Ok(Item(|items| + 1, name))
    ensures !HasId(items, |items| + 1)
    ensures Sequential(AddItem(items, body).items)
  {
  }

  /** On a list with distinct ids, a create keeps the ids distinct exactly
      when no record already carries `len(items) + 1`. */
  lemma AddItemKeepsUniqueIff(items: seq<Item>, body: Body, name: string)
    requires UniqueIds(items)
    requires RequestName(body) == Some(name)
    ensures UniqueIds(AddItem(items, body).items) <==> !HasId(items, |items| + 1)
  {
    var after := AddItem(items, body).items;
    if HasId(items, |items| + 1) {
      var i :| 0 <= i < |items| && items[i].id == |items| + 1;
      assert after[i].id == after[|items|].id;
    }
  }

  /** A request that cannot break ids 1..n: anything but a delete, a delete
      that finds nothing, or a delete of the last record. */
  predicate KeepsNumbering(items: seq<Item>, req: Request) {
    !req.Delete? || !HasId(items, req.id) || req.id == |items|
  }

  /** Every delete of the run, taken in the list it meets, keeps ids 1..n. */
  predicate NoGapDeletes(items: seq<Item>, reqs: seq<Request>)
    decreases |reqs|
  {
    reqs == [] ||
    (KeepsNumbering(items, reqs[0]) && NoGapDeletes(Step(items, reqs[0]).items, reqs[1..]))
  }

  /** Every request except a delete of a record other than the last keeps
      the ids 1..n. */
  lemma StepKeepsSequential(items: seq<Item>, req: Request)
    requires Sequential(items)
    requires KeepsNumbering(items, req)
    ensures Sequential(Step(items, req).items)
  {
    if req.Delete? && HasId(items, req.id) {
      DeleteLastKeepsSequential(items);
    }
  }

  /** From a list with ids 1..n (the empty list at start-up included), a
      run whose deletes each find nothing or remove the last record leaves
      ids 1..m. */
  lemma {:induction false} RunKeepsSequential(items: seq<Item>, reqs: seq<Request>)
    requires Sequential(items)
    requires NoGapDeletes(items, reqs)
    ensures Sequential(Run(items, reqs).items)
    decreases |reqs|
  {
    if reqs != [] {
      StepKeepsSequential(items, reqs[0]);
      RunKeepsSequential(Step(items, reqs[0]).items, reqs[1..]);
    }
  }

  /** A run with no delete request meets the condition of `RunKeepsSequential`. */
  lemma {:induction false} NoDeleteIsNoGap(items: seq<Item>, reqs: seq<Request>)
    requires forall i :: 0 <= i < |reqs| ==> !reqs[i].Delete?
    ensures NoGapDeletes(items, reqs)
    decreases |reqs|
  {
    if reqs != [] {
      assert !reqs[0].Delete?;
      NoDeleteIsNoGap(Step(items, reqs[0]).items, reqs[1..]);
    }
  }

  /** From a list with ids 1..n (the empty list at start-up included), any
      run without a delete request leaves ids 1..m. */
  lemma RunWithoutDeleteKeepsSequential(items: seq<Item>, reqs: seq<Request>)
    requires Sequential(items)
    requires forall i :: 0 <= i < |reqs| ==> !reqs[i].Delete?
    ensures Sequential(Run(items, reqs).items)
  {
    NoDeleteIsNoGap(items, reqs);
    RunKeepsSequential(items, reqs);
  }

  /** Deleting the last of ids 1..n drops just that record and keeps the
      ids 1..n-1, so the next create hands out n again without a clash. */
  lemma {:induction false} DeleteLastKeepsSequential(items: seq<Item>)
    requires Sequential(items)
    requires |items| >= 1
    ensures DeleteItem(items, |items|) == Result(Deleted, items[..|items| - 1])
    ensures Sequential(DeleteItem(items, |items|).items)
  {
    var n := |items|;
    var front := items[..n - 1];
    assert items == front + [items[n - 1]];
    assert items[n - 1].id == n;
    assert !HasId(front, n) by {
      forall i | 0 <= i < |front| ensures front[i].id != n {
        assert front[i] == items[i];
      }
    }
    WithoutSnoc(front, items[n - 1], n);
    WithoutAbsent(front, n);
    assert Without(items, n) == front;
  }

  /** Deleting any record but the last from ids 1..n and then creating one
      hands out the id n, which the old last record still carries: the
      list afterwards has two records with the same id, and looking that
      id up finds the old record, not the new one. */
  lemma {:induction false} DeleteThenAddReusesId(items: seq<Item>, k: nat, body: Body, name: string)
    requires Sequential(items)
    requires 1 <= k < |items|
    requires RequestName(body) == Some(name)
    ensures var d := DeleteItem(items, k);
      var a := AddItem(d.items, body);
      d.outcome == Deleted &&
      a.outcome == Ok(Item(|items|, name)) &&
      HasId(d.items, |items|) &&
      !UniqueIds(a.items) &&
      GetItem(a.items, |items|).outcome == Ok(items[|items| - 1])
  {
    var d := DeleteItem(items, k);
    DeleteInsideSequential(items, k);
    AddItemKeepsUniqueIff(d.items, body, name);
    GetAfterAdd(d.items, body, name);
  }

  /** Deleting any record but the last of ids 1..n leaves n - 1 records with
      distinct ids, the first of them carrying n being the old last record. */
  lemma DeleteInsideSequential(items: seq<Item>, k: nat)
    requires Sequential(items)
    requires 1 <= k < |items|
    ensures var d := DeleteItem(items, k);
      d.outcome == Deleted && |d.items| == |items| - 1 && UniqueIds(d.items) &&
      HasId(d.items, |items|) && GetItem(d.items, |items|).outcome == Ok(items[|items| - 1])
  {
    var n := |items|;
    assert items[k - 1].id == k;
    SequentialUnique(items);
    CountUnique(items, k);
    var d := Without(items, k);
    var last := items[n - 1];
    assert last in items;
    assert last in d;
    var j :| 0 <= j < |d| && d[j] == last;
    assert HasId(d, n);
    WithoutKeepsUnique(items, k);
    var f := FirstIndex(d, n).value;
    SubsequenceMembers(d, items);
    assert d[f] in items;
  }

  /** Dropping records keeps distinct ids distinct. */
  lemma WithoutKeepsUnique(s: seq<Item>, k: nat)
    requires UniqueIds(s)
    ensures UniqueIds(Without(s, k))
  {
    var d := Without(s, k);
    forall x, y | 0 <= x < y < |d| ensures d[x].id != d[y].id {
      SubsequenceMembers(d, s);
      assert d[x] in s && d[y] in s;
      if d[x] != d[y] {
        var i :| 0 <= i < |s| && s[i] == d[x];
        var j :| 0 <= j < |s| && s[j] == d[y];
        assert i != j;
      } else {
        SubsequenceUniqueIndices(d, s, x, y);
      }
    }
  }

  /** In a subsequence of a list with distinct ids, two positions hold the
      same record only if they are the same position. */
  lemma {:induction false} SubsequenceUniqueIndices(r: seq<Item>, s: seq<Item>, x: nat, y: nat)
    requires Subsequence(r, s)
    requires UniqueIds(s)
    requires x < y < |r|
    ensures r[x] != r[y]
    decreases |s|
  {
    assert UniqueIds(s[1..]) by {
      forall i, j | 0 <= i < j < |s[1..]| ensures s[1..][i].id != s[1..][j].id {
        assert s[i + 1].id != s[j + 1].id;
      }
    }
    if r[0] == s[0] && Subsequence(r[1..], s[1..]) {
      if x == 0 {
        SubsequenceMembers(r[1..], s[1..]);
        assert r[y] in s[1..];
        var i :| 0 <= i < |s[1..]| && s[1..][i] == r[y];
        assert s[0].id != s[i + 1].id;
      } else {
        SubsequenceUniqueIndices(r[1..], s[1..], x - 1, y - 1);
      }
    } else {
      SubsequenceUniqueIndices(r, s[1..], x, y);
    }
  }

  /** Every record of a subsequence is a record of the list. */
  lemma {:induction false} SubsequenceMembers(r: seq<Item>, s: seq<Item>)
    requires Subsequence(r, s)
    ensures forall v :: v in r ==> v in s
    decreases |s|
  {
    if r != [] {
      if r[0] == s[0] && Subsequence(r[1..], s[1..]) {
        SubsequenceMembers(r[1..], s[1..]);
        assert r == [r[0]] + r[1..];
      } else {
        SubsequenceMembers(r, s[1..]);
      }
      assert s == [s[0]] + s[1..];
    }
  }

  /** Two creates, a delete of the first record and one more create leave
      two records numbered 2. */
  lemma IdReuseExample()
    ensures var s1 := AddItem([], Named("a")).items;
      var s2 := AddItem(s1, Named("b")).items;
      var s3 := DeleteItem(s2, 1).items;
      AddItem(s3, Named("c")).items == [Item(2, "b"), Item(2, "c")]
  {
    var s2 := [Item(1, "a"), Item(2, "b")];
    assert FirstIndex(s2, 1) == Some(0);
    assert s2[1..] == [Item(2, "b")];
  }

  /** Since a delete removes every record carrying the id, the length of
      the list is not the number of successful creates minus the number of
      successful deletes: three creates and two successful deletes leave
      an empty list. */
  lemma LengthIsNotCreatesMinusDeletes()
    ensures var c1 := AddItem([], Named("a"));
      var c2 := AddItem(c1.items, Named("b"));
      var d1 := DeleteItem(c2.items, 1);
      var c3 := AddItem(d1.items, Named("c"));
      var d2 := DeleteItem(c3.items, 2);
      c1.outcome.Ok? && c2.outcome.Ok? && d1.outcome == Deleted &&
      c3.outcome.Ok? && d2.outcome == Deleted && d2.items == []
  {
    IdReuseExample();
    var s := [Item(2, "b"), Item(2, "c")];
    assert FirstIndex(s, 2) == Some(0);
    assert s[1..] == [Item(2, "c")];
  }

  /** The documented walk-through: create, list, rename, delete, and a
      lookup that no longer finds the record. */
  lemma SampleSession()
    ensures var created := AddItem([], Named("Sample Item"));
      created.outcome == Ok(Item(1, "Sample Item")) &&
      GetItems(created.items).outcome == Listed([Item(1, "Sample Item")]) &&
      var renamed := UpdateItem(created.items, 1, Named("Updated Item"));
      renamed.outcome == Ok(Item(1, "Updated Item")) &&
      var deleted := DeleteItem(renamed.items, 1);
      deleted.outcome == Deleted &&
      GetItem(deleted.items, 1).outcome == NotFound
  {
    assert FirstIndex([Item(1, "Sample Item")], 1) == Some(0);
  }

  /** Only the key is checked: an empty name is accepted and stored as is. */
  lemma EmptyNameAccepted(items: seq<Item>)
    ensures AddItem(items, Named("")).outcome == Ok(Item(|items| + 1, ""))
  {
  }

  /** A body that is an empty object, or that lacks `name`, is refused. */
  lemma MissingNameRefused(items: seq<Item>, k: nat)
    ensures AddItem(items, Some(map[])) == Result(BadRequest, items)
    ensures AddItem(items, Some(map["title" := "x"])) == Result(BadRequest, items)
    ensures UpdateItem(items, k, None) == Result(BadRequest, items)
  {
  }
}
