/** The roster store of src/utils/users.js: one process-wide list of
    `{id, username, room}` records, the queries over it and the two updates. */
module Users {
  import opened Text

  datatype Option<T> = None | Some(value: T)

  /** `{ user }` on success, `{ error }` with the message otherwise. */
  datatype Result<T> = Ok(value: T) | Err(error: string)

  /** One joined connection: its socket id, and its name and room in normal form. */
  datatype User = User(id: string, username: string, room: string)

  const RequiredError: string := "Username and room are required!"
  const InUseError: string := "Username is already in use!"

  /** Within one room no two records carry the same name. */
  ghost predicate NamesUnique(users: seq<User>) {
    forall i, j :: 0 <= i < j < |users| && users[i].room == users[j].room ==> users[i].username != users[j].username
  }

  /** A record as `addUser` builds it: name and room non-empty and in normal form. */
  ghost predicate WellFormed(u: User) {
    u.username != [] && u.room != [] && IsNormal(u.username) && IsNormal(u.room)
  }

  /** What holds of the roster at every point: it only ever changes through
      `addUser` and `removeUser`, and both keep this. */
  ghost predicate RosterInvariant(users: seq<User>) {
    NamesUnique(users) && AllWellFormed(users)
  }

  ghost predicate AllWellFormed(users: seq<User>) {
    forall i :: 0 <= i < |users| ==> WellFormed(users[i])
  }

  /** The truth value of the `users.find` at users.js:15-17: whether a record
      already has this name in this room. */
  function NameTaken(users: seq<User>, username: string, room: string): (b: bool)
    ensures b <==> exists i :: 0 <= i < |users| && users[i].room == room && users[i].username == username
  {
    if users == [] then false
    else (users[0].room == room && users[0].username == username) || NameTaken(users[1..], username, room)
  }

  /** `users.findIndex` on the id: the position of the first record with this
      id, or -1. */
  function FindIndex(users: seq<User>, id: string): (k: int)
    ensures -1 <= k < |users|
    ensures k == -1 <==> forall j :: 0 <= j < |users| ==> users[j].id != id
    ensures k >= 0 ==> users[k].id == id && forall j :: 0 <= j < k ==> users[j].id != id
  {
    if users == [] then -1
    else if users[0].id == id then 0
    else
      var k := FindIndex(users[1..], id);
      if k == -1 then -1 else k + 1
  }

  /** `getUser`: the first record with this id, or nothing. */
  function GetUser(users: seq<User>, id: string): (r: Option<User>)
    ensures r.None? <==> forall j :: 0 <= j < |users| ==> users[j].id != id
    ensures r.Some? ==> exists i :: 0 <= i < |users| && users[i] == r.value && r.value.id == id &&
                          forall j :: 0 <= j < i ==> users[j].id != id
  {
    if users == [] then None
    else if users[0].id == id then Some(users[0])
    else GetUser(users[1..], id)
  }

  /** `getUsersInRoom`: the records whose room equals `room` as given (the
      argument is not normalised), in roster order. The contract below fixes
      which records are kept; `UsersInRoomAppend` fixes their order. */
  function UsersInRoom(users: seq<User>, room: string): (r: seq<User>)
    ensures |r| <= |users|
    ensures forall u :: u in r <==> u in users && u.room == room
  {
    if users == [] then []
    else (if users[0].room == room then [users[0]] else []) + UsersInRoom(users[1..], room)
  }

  /** Roster and reply after one `addUser` call. */
  datatype AddStep = AddStep(users: seq<User>, result: Result<User>)

  /** `addUser`: normalise, reject an empty field, reject a name already used in
      the room, otherwise append the record. A repeated id is not rejected. */
  function AfterAdd(users: seq<User>, id: string, username: string, room: string): (r: AddStep)
    ensures Normalize(username) == [] || Normalize(room) == [] ==>
              r == AddStep(users, Err(RequiredError))
    ensures Normalize(username) != [] && Normalize(room) != [] &&
            (exists i :: 0 <= i < |users| && users[i].room == Normalize(room) && users[i].username == Normalize(username)) ==>
              r == AddStep(users, Err(InUseError))
    ensures r.result.Ok? <==>
              Normalize(username) != [] && Normalize(room) != [] &&
              forall i :: 0 <= i < |users| ==> !(users[i].room == Normalize(room) && users[i].username == Normalize(username))
    ensures r.result.Ok? ==>
              r.result.value == User(id, Normalize(username), Normalize(room)) &&
              r.users == users + [r.result.value]
  {
    var name := Normalize(username);
    var rm := Normalize(room);
    if name == [] || rm == [] then AddStep(users, Err(RequiredError))
    else if NameTaken(users, name, rm) then AddStep(users, Err(InUseError))
    else
      var user := User(id, name, rm);
      AddStep(users + [user], Ok(user))
  }

  /** Roster and reply after one `removeUser` call. */
  datatype RemoveStep = RemoveStep(users: seq<User>, removed: Option<User>)

  /** `removeUser`: splice out the first record with this id and return it; with
      no such record, return nothing and leave the roster as it was. */
  function AfterRemove(users: seq<User>, id: string): (r: RemoveStep)
    ensures r.removed == GetUser(users, id)
    ensures r.removed.None? ==> r.users == users
    ensures r.removed.Some? ==>
              exists i :: 0 <= i < |users| && users[i] == r.removed.value &&
                (forall j :: 0 <= j < i ==> users[j].id != id) &&
                r.users == users[..i] + users[i + 1..]
    ensures r.removed.Some? ==> |r.users| == |users| - 1 && multiset(r.users) + multiset{r.removed.value} == multiset(users)
  {
    var k := FindIndex(users, id);
    if k == -1 then RemoveStep(users, None)
    else
      assert users == users[..k] + [users[k]] + users[k + 1..];
      RemoveStep(users[..k] + users[k + 1..], Some(users[k]))
  }

  /** `getUsersInRoom` keeps roster order: filtering a roster made of two parts
      gives the matches of the first part followed by those of the second. */
  lemma {:induction false} UsersInRoomAppend(a: seq<User>, b: seq<User>, room: string)
    ensures UsersInRoom(a + b, room) == UsersInRoom(a, room) + UsersInRoom(b, room)
  {
    if a == [] {
      assert a + b == b;
    } else {
      assert (a + b)[1..] == a[1..] + b;
      UsersInRoomAppend(a[1..], b, room);
    }
  }

  /** The room given to `getUsersInRoom` is compared as it is: records hold
      lower-cased rooms, so only a lower-cased room name can match anybody; one
      with an upper-case letter matches nobody, even when its normal form names
      a populated room. */
  lemma RoomQueryIsLiteral(users: seq<User>, room: string)
    requires AllWellFormed(users)
    ensures UsersInRoom(users, room) != [] ==> LowerCased(room)
  {
    var r := UsersInRoom(users, room);
    if r != [] {
      assert r[0] in users;
      var i :| 0 <= i < |users| && users[i] == r[0];
      assert WellFormed(users[i]);
    }
  }

  /** Appending a well-formed record whose name is free in its room keeps the
      invariant. */
  lemma AppendKeepsInvariant(users: seq<User>, u: User)
    requires RosterInvariant(users) && WellFormed(u)
    requires forall i :: 0 <= i < |users| ==> !(users[i].room == u.room && users[i].username == u.username)
    ensures RosterInvariant(users + [u])
  {
    var s := users + [u];
    forall i, j | 0 <= i < j < |s| && s[i].room == s[j].room
      ensures s[i].username != s[j].username
    {
      if j < |users| {
        assert s[i] == users[i] && s[j] == users[j];
      } else {
        assert s[i] == users[i] && s[j] == u;
      }
    }
    forall i | 0 <= i < |s|
      ensures WellFormed(s[i])
    {
      if i < |users| {
        assert s[i] == users[i];
      }
    }
  }

  /** Splicing out one record keeps names unique per room. */
  lemma SpliceKeepsNamesUnique(users: seq<User>, k: nat)
    requires NamesUnique(users) && k < |users|
    ensures NamesUnique(users[..k] + users[k + 1..])
  {
    var s := users[..k] + users[k + 1..];
    forall a, b | 0 <= a < b < |s| && s[a].room == s[b].room
      ensures s[a].username != s[b].username
    {
      var a', b' := if a < k then a else a + 1, if b < k then b else b + 1;
      assert s[a] == users[a'] && s[b] == users[b'] && a' < b';
    }
  }

  /** Splicing out one record leaves only well-formed records. */
  lemma SpliceKeepsWellFormed(users: seq<User>, k: nat)
    requires AllWellFormed(users) && k < |users|
    ensures AllWellFormed(users[..k] + users[k + 1..])
  {
    var s := users[..k] + users[k + 1..];
    forall a | 0 <= a < |s|
      ensures WellFormed(s[a])
    {
      assert s[a] == users[if a < k then a else a + 1];
    }
  }

  /** `addUser` keeps the invariant. */
  lemma AddPreservesInvariant(users: seq<User>, id: string, username: string, room: string)
    requires RosterInvariant(users)
    ensures RosterInvariant(AfterAdd(users, id, username, room).users)
  {
    var r := AfterAdd(users, id, username, room);
    if r.result.Ok? {
      AppendKeepsInvariant(users, r.result.value);
    }
  }

  /** `removeUser` keeps the invariant. */
  lemma RemovePreservesInvariant(users: seq<User>, id: string)
    requires RosterInvariant(users)
    ensures RosterInvariant(AfterRemove(users, id).users)
  {
    var k := FindIndex(users, id);
    if k != -1 {
      SpliceKeepsNamesUnique(users, k);
      SpliceKeepsWellFormed(users, k);
    }
  }

  /** The store as a mutable object: the module-level `users` array and the two
      functions that change it. */
  class UserStore {
    var users: seq<User>

    ghost predicate Valid()
      reads this
    {
      RosterInvariant(users)
    }

    constructor ()
      ensures Valid() && users == []
    {
      users := [];
    }

    /** `addUser`; `users.push` on success. */
    method AddUser(id: string, username: string, room: string) returns (result: Result<User>)
      requires Valid()
      modifies this
      ensures Valid()
      ensures AddStep(users, result) == AfterAdd(old(users), id, username, room)
    {
      AddPreservesInvariant(users, id, username, room);
      var name := Normalize(username);
      var rm := Normalize(room);
      if name == [] || rm == [] {
        return Err(RequiredError);
      }
      if NameTaken(users, name, rm) {
        return Err(InUseError);
      }
      var user := User(id, name, rm);
      users := users + [user];
      return Ok(user);
    }

    /** `removeUser`; `users.splice(index, 1)` when the id is found. */
    method RemoveUser(id: string) returns (removed: Option<User>)
      requires Valid()
      modifies this
      ensures Valid()
      ensures RemoveStep(users, removed) == AfterRemove(old(users), id)
    {
      RemovePreservesInvariant(users, id);
      var index := FindIndex(users, id);
      if index != -1 {
        removed := Some(users[index]);
        users := users[..index] + users[index + 1..];
      } else {
        removed := None;
      }
    }
  }
}
