/**
 * The batch-fetch function of the demo server: given the keys of one batch,
 * it builds a map from each key to the user with that id, named "User <id>".
 * It stands for the database behind the loader and never fails.
 */
module UserLoader {
  import opened Wrappers
  import opened Decimal

  /** Rust's `i32`. */
  newtype i32 = x: int | -0x8000_0000 <= x < 0x8000_0000

  /** A user record: its id and its display name. */
  datatype User = User(id: i32, name: string)

  /** The loader's error type; the loader itself never produces one. */
  datatype LoadError = LoadError(message: string)

  /** The user the loader makes up for `id`. */
  function NewUser(id: i32): User {
    User(id, "User " + Render(id as int))
  }

  /** The distinct elements of a key list. */
  ghost function Elems(keys: seq<i32>): set<i32> {
    set k | k in keys
  }

  predicate NoDuplicates(keys: seq<i32>) {
    forall i, j :: 0 <= i < j < |keys| ==> keys[i] != keys[j]
  }

  /** What a batch fetch of `keys` should return: one user per distinct requested key. */
  ghost function LoadedUsers(keys: seq<i32>): map<i32, User> {
    map k | k in keys :: NewUser(k)
  }

  /**
   * The batch fetch: insert one user per key, in key order, into an empty
   * map; a repeated key overwrites its earlier entry with an equal user.
   */
  method Load(keys: seq<i32>) returns (r: Result<map<i32, User>, LoadError>)
    ensures r.Ok?
    ensures forall k :: k in r.value <==> k in keys
    ensures forall k :: k in r.value ==> r.value[k].id == k && r.value[k].name == "User " + Render(k as int)
    ensures |r.value| <= |keys|
    ensures r.value == LoadedUsers(keys)
  {
    var users: map<i32, User> := map[];
    for i := 0 to |keys|
      invariant forall k :: k in users <==> k in keys[..i]
      invariant forall k :: k in users ==> users[k] == NewUser(k)
    {
      var id := keys[i];
      assert keys[..i + 1] == keys[..i] + [id];
      users := users[id := User(id, "User " + Render(id as int))];
    }
    assert keys[..|keys|] == keys;
    assert users == LoadedUsers(keys);
    LoadedUsersSize(keys);
    return Ok(users);
  }

  /** A list of n keys has at most n distinct elements, exactly n when none repeats. */
  lemma {:induction false} ElemsCount(keys: seq<i32>)
    ensures |Elems(keys)| <= |keys|
    ensures |Elems(keys)| == |keys| <==> NoDuplicates(keys)
  {
    if keys != [] {
      var n := |keys| - 1;
      var prefix, last := keys[..n], keys[n];
      ElemsCount(prefix);
      assert keys == prefix + [last];
      assert Elems(keys) == Elems(prefix) + {last};
      if last in prefix {
        var i :| 0 <= i < n && prefix[i] == last;
        assert keys[i] == keys[n];
      } else {
        assert |Elems(keys)| == |Elems(prefix)| + 1;
        if NoDuplicates(prefix) {
          assert NoDuplicates(keys);
        }
      }
    }
  }

  /**
   * Duplicate keys collapse: the loaded map has one entry per distinct key,
   * so at most as many entries as keys, and exactly as many when no key repeats.
   */
  lemma LoadedUsersSize(keys: seq<i32>)
    ensures |LoadedUsers(keys)| == |Elems(keys)|
    ensures |LoadedUsers(keys)| <= |keys|
    ensures |LoadedUsers(keys)| == |keys| <==> NoDuplicates(keys)
  {
    assert LoadedUsers(keys).Keys == Elems(keys);
    ElemsCount(keys);
  }

  /** A user's name determines its id: "User " followed by the id parsed back. */
  lemma NameDeterminesId(u: User)
    requires u == NewUser(u.id)
    ensures u.name[..5] == "User "
    ensures WellFormed(u.name[5..]) && Parse(u.name[5..]) == u.id as int
  {
    assert u.name[5..] == Render(u.id as int);
    RenderRoundTrip(u.id as int);
  }

  /** Different ids give different names. */
  lemma NamesDistinct(a: i32, b: i32)
    ensures NewUser(a).name == NewUser(b).name <==> a == b
  {
    if NewUser(a).name == NewUser(b).name {
      assert Render(a as int) == NewUser(a).name[5..];
      RenderInjective(a as int, b as int);
    }
  }
}
