/** The credential store: one serialized list of user records under a single
    storage key, looked up and inserted by case-insensitive username. */
module Storage {
  import opened AuthTypes
  import opened Text

  /** The key under which the list of users is persisted. */
  const STORAGE_KEY: string := "graphical_auth_users"

  /** What the browser store holds under STORAGE_KEY: nothing, something
      that cannot be read back (a denied read or a parse failure), or a
      list. */
  datatype Persisted = Missing | Unreadable | Stored(users: seq<User>)

  /** The list `getUsers` reads out of what is persisted: a missing or
      unreadable value reads as the empty list. */
  function UsersOf(persisted: Persisted): seq<User> {
    if persisted.Stored? then persisted.users else []
  }

  /** Some record in `users` has `username` as its key, ignoring case. */
  predicate HasUsername(users: seq<User>, username: string) {
    exists k :: 0 <= k < |users| && SameIgnoringCase(users[k].username, username)
  }

  /** No two records share a key, ignoring case. */
  predicate UniqueUsernames(users: seq<User>) {
    forall i, j {:trigger SameIgnoringCase(users[i].username, users[j].username)} ::
      0 <= i < j < |users| ==> !SameIgnoringCase(users[i].username, users[j].username)
  }

  /** `users.find(...)`: the first record whose key equals `username`
      ignoring case, or nothing. */
  function FindUser(users: seq<User>, username: string): (r: Option<User>)
    ensures r.None? <==> !HasUsername(users, username)
    ensures r.Some? ==> exists i :: (0 <= i < |users| && users[i] == r.value &&
      SameIgnoringCase(users[i].username, username) &&
      forall k :: 0 <= k < i ==> !SameIgnoringCase(users[k].username, username))
  {
    if users == [] then None
    else if SameIgnoringCase(users[0].username, username) then
      Some(users[0])
    else
      var r := FindUser(users[1..], username);
      assert HasUsername(users, username) ==> HasUsername(users[1..], username) by {
        if HasUsername(users, username) {
          var k :| 0 <= k < |users| && SameIgnoringCase(users[k].username, username);
          assert users[1..][k - 1] == users[k];
        }
      }
      assert HasUsername(users[1..], username) ==> HasUsername(users, username) by {
        if HasUsername(users[1..], username) {
          var k :| 0 <= k < |users| - 1 && SameIgnoringCase(users[1..][k].username, username);
          assert users[k + 1] == users[1..][k];
        }
      }
      assert r.Some? ==> exists i :: (0 <= i < |users| && users[i] == r.value &&
        SameIgnoringCase(users[i].username, username) &&
        forall k :: 0 <= k < i ==> !SameIgnoringCase(users[k].username, username)) by {
        if r.Some? {
          var i :| 0 <= i < |users| - 1 && users[1..][i] == r.value &&
            SameIgnoringCase(users[1..][i].username, username) &&
            forall k :: 0 <= k < i ==> !SameIgnoringCase(users[1..][k].username, username);
          assert users[i + 1] == r.value;
          forall k | 0 <= k < i + 1 ensures !SameIgnoringCase(users[k].username, username) {
            if k > 0 { assert users[k] == users[1..][k - 1]; }
          }
        }
      }
      r
  }

  /** Appending a record whose key is not yet taken keeps keys unique. */
  lemma AppendKeepsUnique(users: seq<User>, user: User)
    requires UniqueUsernames(users) && !HasUsername(users, user.username)
    ensures UniqueUsernames(users + [user])
  {
    var all := users + [user];
    forall i, j | 0 <= i < j < |all|
      ensures !SameIgnoringCase(all[i].username, all[j].username)
    {
      if j == |users| {
        assert all[i] == users[i];
        assert !SameIgnoringCase(users[i].username, user.username);
      }
    }
  }

  /** After appending a record whose key was free, every case variant of its
      username finds exactly that record. */
  lemma {:induction false} AppendedUserFound(users: seq<User>, user: User, query: string)
    requires !HasUsername(users, user.username)
    requires SameIgnoringCase(query, user.username)
    ensures FindUser(users + [user], query) == Some(user)
  {
    if users == [] {
      assert users + [user] == [user];
    } else {
      assert !SameIgnoringCase(users[0].username, user.username);
      assert (users + [user])[1..] == users[1..] + [user];
      assert forall k :: 0 <= k < |users| - 1 ==> users[1..][k] == users[k + 1];
      AppendedUserFound(users[1..], user, query);
    }
  }

  /** Appending a record does not change what a query for another key finds. */
  lemma {:induction false} AppendKeepsOtherLookups(users: seq<User>, user: User, query: string)
    requires !SameIgnoringCase(query, user.username)
    ensures FindUser(users + [user], query) == FindUser(users, query)
  {
    if users == [] {
      assert users + [user] == [user];
    } else {
      assert (users + [user])[1..] == users[1..] + [user];
      AppendKeepsOtherLookups(users[1..], user, query);
    }
  }

  /** Once "Alice" is stored, "alice" is taken. */
  lemma CaseVariantIsTaken(clickPoints: seq<ClickPoint>, createdAt: string)
    ensures HasUsername([ClickPointsUser("Alice", clickPoints, createdAt)], "alice")
  {
    assert ToLowerCase("Alice") == "alice";
    assert SameIgnoringCase([ClickPointsUser("Alice", clickPoints, createdAt)][0].username, "alice");
  }

  /** The store adapter over the persisted value. */
  class UserStore {
    var persisted: Persisted

    /** Records hold unique keys whenever a list is stored. */
    ghost predicate Valid()
      reads this
    {
      persisted.Stored? ==> UniqueUsernames(persisted.users)
    }

    constructor (initial: Persisted)
      ensures persisted == initial
    {
      persisted := initial;
    }

    /** `getUsers`: what the store holds, empty when nothing readable is
        there; a valid store yields records with distinct keys. */
    function GetUsers(): (r: seq<User>)
      reads this
      ensures persisted.Stored? ==> r == persisted.users
      ensures !persisted.Stored? ==> r == []
      ensures Valid() ==> UniqueUsernames(r)
    {
      UsersOf(persisted)
    }

    /** `getUser`: the first stored record whose key equals `username`
        ignoring case. */
    function GetUser(username: string): (r: Option<User>)
      reads this
      ensures r.None? <==> !HasUsername(GetUsers(), username)
      ensures r.Some? ==> r.value in GetUsers() && SameIgnoringCase(r.value.username, username)
    {
      FindUser(GetUsers(), username)
    }

    /** `userExists`: a record is stored under `username`, ignoring case. */
    predicate UserExists(username: string)
      reads this
      ensures UserExists(username) <==> HasUsername(GetUsers(), username)
      ensures UserExists(username) <==> GetUser(username).Some?
    {
      GetUser(username) != None
    }

    /** `saveUser`: reads the list; refuses a taken key (ignoring case);
        otherwise appends the record and rewrites the whole list, unless the
        write fails (`writeFails`, the exception of `setItem`), in which case
        nothing changes. A list that could not be read counts as empty and is
        overwritten. */
    method SaveUser(user: User, writeFails: bool) returns (saved: bool)
      modifies this
      ensures old(Valid()) ==> Valid()
      ensures saved <==> !HasUsername(old(GetUsers()), user.username) && !writeFails
      ensures saved ==> persisted == Stored(old(GetUsers()) + [user])
      ensures !saved ==> persisted == old(persisted)
      ensures saved ==> forall q :: SameIgnoringCase(q, user.username) ==> GetUser(q) == Some(user)
      ensures forall q :: !SameIgnoringCase(q, user.username) ==> GetUser(q) == old(GetUser(q))
    {
      var users := GetUsers();
      if HasUsername(users, user.username) {
        return false;
      }
      if writeFails {
        return false;
      }
      if Valid() {
        AppendKeepsUnique(users, user);
      }
      persisted := Stored(users + [user]);
      forall q | SameIgnoringCase(q, user.username)
        ensures FindUser(users + [user], q) == Some(user)
      {
        AppendedUserFound(users, user, q);
      }
      forall q | !SameIgnoringCase(q, user.username)
        ensures FindUser(users + [user], q) == FindUser(users, q)
      {
        AppendKeepsOtherLookups(users, user, q);
      }
      return true;
    }
  }
}
