/** The records of the in-memory item store (the module-level list `items`),
    the scans every handler shares, and the check each handler makes of a
    request body before it uses the `name` it carries. */
module Items {

  datatype Option<T> = None | Some(value: T)

  /** One stored record, the dictionary `{'id': ..., 'name': ...}`.
      Ids are assigned by the store; a name is whatever the request sent. */
  datatype Item = Item(id: nat, name: string)

  /** Some record of `s` carries the id `k`. */
  predicate HasId(s: seq<Item>, k: nat) {
    exists i :: 0 <= i < |s| && s[i].id == k
  }

  /** The number of records of `s` that carry the id `k`. */
  function Count(s: seq<Item>, k: nat): (n: nat)
    ensures n <= |s|
    ensures n == 0 <==> !HasId(s, k)
  {
    if s == [] then 0
    else
      var rest := Count(s[1..], k);
      assert HasId(s[1..], k) ==> HasId(s, k) by {
        if HasId(s[1..], k) {
          var i :| 0 <= i < |s[1..]| && s[1..][i].id == k;
          assert s[i + 1].id == k;
        }
      }
      assert HasId(s, k) && s[0].id != k ==> HasId(s[1..], k) by {
        if HasId(s, k) && s[0].id != k {
          var i :| 0 <= i < |s| && s[i].id == k;
          assert s[1..][i - 1].id == k;
        }
      }
      (if s[0].id == k then 1 else 0) + rest
  }

  /** The position of the first record of `s` whose id is `k`, in list
      order: what the generator handed to `next(..., None)` finds. */
  function FirstIndex(s: seq<Item>, k: nat): (r: Option<nat>)
    ensures r.None? <==> !HasId(s, k)
    ensures r.Some? ==> r.value < |s| && s[r.value].id == k
    ensures r.Some? ==> forall j :: 0 <= j < r.value ==> s[j].id != k
  {
    if s == [] then None
    else if s[0].id == k then Some(0)
    else
      match FirstIndex(s[1..], k)
      case None => None
      case Some(i) => Some(i + 1)
  }

  /** `r` is obtained from `s` by dropping some of its records, keeping the
      order of the others. */
  predicate Subsequence(r: seq<Item>, s: seq<Item>)
    decreases |s|
  {
    r == [] ||
    (s != [] && ((r[0] == s[0] && Subsequence(r[1..], s[1..])) || Subsequence(r, s[1..])))
  }

  /** The list comprehension `[itm for itm in items if itm['id'] != item_id]`:
      every record of `s` whose id is not `k`, in their original order. */
  function Without(s: seq<Item>, k: nat): (r: seq<Item>)
    ensures forall x :: x in r <==> x in s && x.id != k
    ensures |r| == |s| - Count(s, k)
    ensures Subsequence(r, s)
  {
    if s == [] then []
    else if s[0].id == k then
      var r := Without(s[1..], k);
      assert Subsequence(r, s[1..]);
      assert forall x :: x in s <==> x == s[0] || x in s[1..];
      r
    else
      var r := [s[0]] + Without(s[1..], k);
      assert r[1..] == Without(s[1..], k);
      assert forall x :: x in s <==> x == s[0] || x in s[1..];
      r
  }

  /** The body `request.get_json()` returns: absent, or a JSON object whose
      values are kept as strings. */
  type Body = Option<map<string, string>>

  /** The guard `not data or 'name' not in data` followed by `data['name']`:
      a body yields a name exactly when it is an object holding the key
      `name`, and the name is the value stored there, unchecked (the empty
      string included). The emptiness test is subsumed by the key test. */
  function RequestName(body: Body): (r: Option<string>)
    ensures r.Some? <==> body.Some? && "name" in body.value
    ensures r.Some? ==> r.value == body.value["name"]
  {
    match body
    case None => None
    case Some(data) => if |data| == 0 || "name" !in data then None else Some(data["name"])
  }

  /** Dropping the records with id `k` from a list followed by one more record
      is dropping them from the list and then keeping that record unless it
      carries `k`: the comprehension is built front to back. */
  lemma {:induction false} WithoutSnoc(s: seq<Item>, x: Item, k: nat)
    ensures Without(s + [x], k) == Without(s, k) + (if x.id == k then [] else [x])
  {
    if s == [] {
      assert s + [x] == [x];
      assert [x][1..] == [];
    } else {
      assert (s + [x])[1..] == s[1..] + [x];
      WithoutSnoc(s[1..], x, k);
    }
  }

  /** Removing an id no record carries leaves the list as it was. */
  lemma {:induction false} WithoutAbsent(s: seq<Item>, k: nat)
    requires !HasId(s, k)
    ensures Without(s, k) == s
  {
    if s != [] {
      WithoutAbsent(s[1..], k);
      assert s == [s[0]] + s[1..];
    }
  }

  /** A subsequence of `t` that avoids id `k` can hold no more records than
      `t` holds records with other ids. */
  lemma {:induction false} SubsequenceAvoidingBound(r: seq<Item>, t: seq<Item>, k: nat)
    requires Subsequence(r, t)
    requires forall x :: x in r ==> x.id != k
    ensures |r| <= |t| - Count(t, k)
    decreases |t|
  {
    if r != [] {
      if r[0] == t[0] && Subsequence(r[1..], t[1..]) {
        assert forall x :: x in r[1..] ==> x in r;
        SubsequenceAvoidingBound(r[1..], t[1..], k);
        assert r[0] in r;
      } else {
        SubsequenceAvoidingBound(r, t[1..], k);
      }
    }
  }

  /** The three properties stated for `Without` determine its result: any
      list of records that keeps only ids other than `k`, drops exactly the
      records with id `k` and keeps the order of `s` is `Without(s, k)`. */
  lemma {:induction false} WithoutIsDetermined(s: seq<Item>, k: nat, r: seq<Item>)
    requires forall x :: x in r ==> x.id != k
    requires |r| == |s| - Count(s, k)
    requires Subsequence(r, s)
    ensures r == Without(s, k)
    decreases |s|
  {
    if r == [] {
      assert |Without(s, k)| == 0;
    } else if r[0] == s[0] && Subsequence(r[1..], s[1..]) {
      assert r[0] in r;
      assert s[0].id != k;
      assert Count(s, k) == Count(s[1..], k);
      assert forall x :: x in r[1..] ==> x in r;
      WithoutIsDetermined(s[1..], k, r[1..]);
      assert Without(s, k) == [s[0]] + Without(s[1..], k);
      assert r == [s[0]] + r[1..];
    } else if s[0].id == k {
      assert Count(s, k) == 1 + Count(s[1..], k);
      WithoutIsDetermined(s[1..], k, r);
    } else {
      SubsequenceAvoidingBound(r, s[1..], k);
      assert false;
    }
  }
}
