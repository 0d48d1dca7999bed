/**
 * The `users(ids)` query field: the loader hands back a key-to-user map in
 * no particular order, and the query turns it into one optional user per
 * requested id, in the order the ids were given.
 */
module Query {
  import opened Wrappers
  import opened UserLoader
  import opened Decimal

  /** `result_map.get(&id).cloned()`: the user stored under `id`, if any. */
  function Lookup(resultMap: map<i32, User>, id: i32): Option<User> {
    if id in resultMap then Some(resultMap[id]) else None
  }

  /** The answer the query should give: position i holds the lookup of ids[i]. */
  ghost function InInputOrder(ids: seq<i32>, resultMap: map<i32, User>): seq<Option<User>> {
    seq(|ids|, i requires 0 <= i < |ids| => Lookup(resultMap, ids[i]))
  }

  /**
   * The reordering loop of `users`: for each requested id, in input order and
   * duplicates included, push the user found for it, or nothing.
   */
  method Users(ids: seq<i32>, resultMap: map<i32, User>) returns (results: seq<Option<User>>)
    ensures |results| == |ids|
    ensures forall i :: 0 <= i < |ids| ==> (results[i].Some? <==> ids[i] in resultMap)
    ensures forall i :: 0 <= i < |ids| && ids[i] in resultMap ==> results[i].value == resultMap[ids[i]]
    ensures results == InInputOrder(ids, resultMap)
  {
    results := [];
    for i := 0 to |ids|
      invariant |results| == i
      invariant forall j :: 0 <= j < i ==> results[j] == Lookup(resultMap, ids[j])
    {
      results := results + [Lookup(resultMap, ids[i])];
    }
  }

  /**
   * Order follows the input: answering two lists one after the other gives
   * the two answers one after the other.
   */
  lemma InInputOrderAppend(a: seq<i32>, b: seq<i32>, resultMap: map<i32, User>)
    ensures InInputOrder(a + b, resultMap) == InInputOrder(a, resultMap) + InInputOrder(b, resultMap)
  {
  }

  /** Every request for the same id receives the same answer. */
  lemma SameIdSameAnswer(ids: seq<i32>, resultMap: map<i32, User>, i: nat, j: nat)
    requires i < |ids| && j < |ids| && ids[i] == ids[j]
    ensures InInputOrder(ids, resultMap)[i] == InInputOrder(ids, resultMap)[j]
  {
  }

  /**
   * Loading and reordering together: when the batch fetch was given every
   * requested id, every answer is present and is the user with that id.
   */
  lemma LoadThenReorder(keys: seq<i32>, ids: seq<i32>)
    requires forall id :: id in ids ==> id in keys
    ensures forall i :: 0 <= i < |ids| ==>
      InInputOrder(ids, LoadedUsers(keys))[i] == Some(NewUser(ids[i]))
    ensures forall i :: 0 <= i < |ids| ==>
      InInputOrder(ids, LoadedUsers(keys))[i].Some? && InInputOrder(ids, LoadedUsers(keys))[i].value.id == ids[i]
  {
  }

  /** Asking for ids 3, 1, 2 gives users 3, 1 and 2 in that order, whatever the map's order. */
  lemma ExampleOrder()
    ensures InInputOrder([3, 1, 2], LoadedUsers([1, 2, 3]))
         == [Some(User(3, "User 3")), Some(User(1, "User 1")), Some(User(2, "User 2"))]
  {
    var ids: seq<i32>, keys: seq<i32> := [3, 1, 2], [1, 2, 3];
    assert ids[0] in keys && ids[1] in keys && ids[2] in keys;
    assert Render(3) == "3" && Render(1) == "1" && Render(2) == "2";
    LoadThenReorder(keys, ids);
    assert "User " + "3" == "User 3" && "User " + "1" == "User 1" && "User " + "2" == "User 2";
    var r := InInputOrder(ids, LoadedUsers(keys));
    assert |r| == 3;
    assert r[0] == Some(NewUser(3)) == Some(User(3, "User 3"));
    assert r[1] == Some(NewUser(1)) == Some(User(1, "User 1"));
    assert r[2] == Some(NewUser(2)) == Some(User(2, "User 2"));
  }
}
