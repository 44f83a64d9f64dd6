/** The per-connection handlers of src/index.js as steps: the roster before an
    inbound event, and the socket id it arrives on, give the roster after it
    and the ordered list of effects it produces (room joins, scoped emissions
    and acknowledgement callbacks). */
module Session {
  import opened Text
  import opened Users

  const Admin: string := "Admin"
  const ProfanityError: string := "Profanity is not allowed!"

  /** Who an emission is addressed to. */
  datatype Scope =
    | ToSender(socket: string)                          // socket.emit
    | ToRoomExceptSender(room: string, sender: string)  // socket.broadcast.to(room).emit
    | ToRoom(room: string)                              // io.to(room).emit

  /** What is emitted. `Message` and `LocationMessage` record the arguments given
      to `generateMessage` and `generateLocationMessage`, whose output (text and
      timestamp) is not part of this model. */
  datatype Payload =
    | Message(args: seq<string>)
    | LocationMessage(username: string, url: string)
    | RoomData(room: string, users: seq<User>)

  /** One observable effect of a handler, in the order it happens. */
  datatype Effect =
    | JoinRoom(room: string)                               // socket.join(room)
    | Emit(scope: Scope, event: string, payload: Payload)
    | Callback(error: Option<string>)                      // the acknowledgement

  /** The events a connection sends. */
  datatype Inbound =
    | Join(username: string, room: string)
    | SendMessage(text: string)
    | SendLocation(latitude: string, longitude: string)
    | Disconnect
  {
    /** The events that carry an acknowledgement callback. */
    predicate IsRequest() {
      !Disconnect?
    }
  }

  /** The roster after a handler and the effects it produced. */
  datatype Step = Step(users: seq<User>, effects: seq<Effect>)

  predicate Joined(users: seq<User>, socketId: string) {
    GetUser(users, socketId).Some?
  }

  /** The sockets a room holds, approximated by the roster: a socket joins the
      room of each record `addUser` made for it. */
  ghost function MembersOf(users: seq<User>, room: string): (r: set<string>) {
    set i | 0 <= i < |users| && users[i].room == room :: users[i].id
  }

  /** The sockets an emission with this scope reaches. */
  ghost function Recipients(users: seq<User>, scope: Scope): (r: set<string>) {
    match scope
    case ToSender(socket) => {socket}
    case ToRoomExceptSender(room, sender) => MembersOf(users, room) - {sender}
    case ToRoom(room) => MembersOf(users, room)
  }

  /** The map link sent for a location; the coordinates are taken as already
      formatted text. */
  function LocationUrl(latitude: string, longitude: string): (r: string) {
    "https://google.com/maps?q=" + latitude + "," + longitude
  }

  /** The `join` handler. */
  function JoinStep(users: seq<User>, socketId: string, username: string, room: string): (r: Step) {
    var add := AfterAdd(users, socketId, username, room);
    match add.result
    case Err(e) => Step(users, [Callback(Some(e))])
    case Ok(user) =>
      Step(add.users,
           [JoinRoom(user.room),
            Emit(ToSender(socketId), "message", Message([Admin, "Welcome!"])),
            Emit(ToRoomExceptSender(user.room, socketId), "message", Message([Admin, user.username + " has joined!"])),
            Emit(ToRoom(user.room), "roomData", RoomData(user.room, UsersInRoom(add.users, user.room))),
            Callback(None)])
  }

  /** The `sendMessage` handler. The profanity check comes first and does not
      look at the sender, so only the accepting path needs a joined sender. */
  function SendMessageStep(users: seq<User>, socketId: string, isProfane: string -> bool, text: string): (r: Step)
    requires isProfane(text) || Joined(users, socketId)
  {
    if isProfane(text) then Step(users, [Callback(Some(ProfanityError))])
    else
      var user := GetUser(users, socketId).value;
      Step(users, [Emit(ToRoom(user.room), "message", Message([user.username, text])), Callback(None)])
  }

  /** The `sendLocation` handler. */
  function SendLocationStep(users: seq<User>, socketId: string, latitude: string, longitude: string): (r: Step)
    requires Joined(users, socketId)
  {
    var user := GetUser(users, socketId).value;
    Step(users,
         [Emit(ToRoom(user.room), "locationMessage", LocationMessage(user.username, LocationUrl(latitude, longitude))),
          Callback(None)])
  }

  /** The `disconnect` handler. The "has left" notice passes one argument to
      `generateMessage`, as the source does. */
  function DisconnectStep(users: seq<User>, socketId: string): (r: Step) {
    var rem := AfterRemove(users, socketId);
    match rem.removed
    case None => Step(rem.users, [])
    case Some(user) =>
      Step(rem.users,
           [Emit(ToRoom(user.room), "message", Message([user.username + " has left!"])),
            Emit(ToRoom(user.room), "roomData", RoomData(user.room, UsersInRoom(rem.users, user.room)))])
  }

  /** Whether the source handles the event without throwing. */
  predicate CanHandle(users: seq<User>, socketId: string, isProfane: string -> bool, ev: Inbound) {
    match ev
    case SendMessage(text) => isProfane(text) || Joined(users, socketId)
    case SendLocation(_, _) => Joined(users, socketId)
    case _ => true
  }

  /** Dispatch of an inbound event to its handler. */
  function Handle(users: seq<User>, socketId: string, isProfane: string -> bool, ev: Inbound): (r: Step)
    requires CanHandle(users, socketId, isProfane, ev)
  {
    match ev
    case Join(username, room) => JoinStep(users, socketId, username, room)
    case SendMessage(text) => SendMessageStep(users, socketId, isProfane, text)
    case SendLocation(latitude, longitude) => SendLocationStep(users, socketId, latitude, longitude)
    case Disconnect => DisconnectStep(users, socketId)
  }

  /** How many acknowledgement callbacks a list of effects invokes. */
  function Acks(effects: seq<Effect>): (n: nat) {
    if effects == [] then 0 else (if effects[0].Callback? then 1 else 0) + Acks(effects[1..])
  }

  /** A list of effects with no callback acknowledges nothing; one whose only
      callback is its last effect acknowledges once. */
  lemma {:induction false} AcksCount(effects: seq<Effect>)
    ensures (forall i :: 0 <= i < |effects| ==> !effects[i].Callback?) ==> Acks(effects) == 0
    ensures (|effects| > 0 && effects[|effects| - 1].Callback? &&
             forall i :: 0 <= i < |effects| - 1 ==> !effects[i].Callback?) ==> Acks(effects) == 1
  {
    if effects != [] {
      AcksCount(effects[1..]);
    }
  }

  /** Every request is acknowledged exactly once, as its last effect, after
      everything it emits; a disconnect is never acknowledged. */
  lemma AckExactlyOnce(users: seq<User>, socketId: string, isProfane: string -> bool, ev: Inbound)
    requires CanHandle(users, socketId, isProfane, ev)
    ensures var s := Handle(users, socketId, isProfane, ev);
            Acks(s.effects) == if ev.IsRequest() then 1 else 0
    ensures var s := Handle(users, socketId, isProfane, ev);
            ev.IsRequest() ==> |s.effects| > 0 && s.effects[|s.effects| - 1].Callback?
  {
    AcksCount(Handle(users, socketId, isProfane, ev).effects);
  }

  /** A request whose acknowledgement carries an error produces that
      acknowledgement alone (no room join, no emission) and leaves the roster
      as it was. */
  lemma RejectionIsSilent(users: seq<User>, socketId: string, isProfane: string -> bool, ev: Inbound)
    requires CanHandle(users, socketId, isProfane, ev)
    ensures var s := Handle(users, socketId, isProfane, ev);
            |s.effects| > 0 && s.effects[|s.effects| - 1].Callback? && s.effects[|s.effects| - 1].error.Some? ==>
              s == Step(users, [s.effects[|s.effects| - 1]])
  {
  }

  /** Every handler keeps the roster invariant. */
  lemma HandlePreservesInvariant(users: seq<User>, socketId: string, isProfane: string -> bool, ev: Inbound)
    requires RosterInvariant(users) && CanHandle(users, socketId, isProfane, ev)
    ensures RosterInvariant(Handle(users, socketId, isProfane, ev).users)
  {
    match ev {
      case Join(username, room) => AddPreservesInvariant(users, socketId, username, room);
      case Disconnect => RemovePreservesInvariant(users, socketId);
      case _ =>
    }
  }

  /** A rejected `join` answers with the `addUser` error and nothing else: an
      empty field is reported before a taken name. */
  lemma JoinRejected(users: seq<User>, socketId: string, username: string, room: string)
    requires Normalize(username) == [] || Normalize(room) == [] ||
             exists i :: 0 <= i < |users| && users[i].room == Normalize(room) && users[i].username == Normalize(username)
    ensures JoinStep(users, socketId, username, room) ==
              Step(users, [Callback(Some(if Normalize(username) == [] || Normalize(room) == [] then RequiredError else InUseError))])
  {
  }

  /** An accepted `join` appends the normalised record, and the roster it sends
      to the room is taken after that: the room's earlier members in roster
      order, then the newcomer. The acknowledgement comes last and is clean. */
  lemma JoinAccepted(users: seq<User>, socketId: string, username: string, room: string)
    requires Normalize(username) != [] && Normalize(room) != []
    requires forall i :: 0 <= i < |users| ==> !(users[i].room == Normalize(room) && users[i].username == Normalize(username))
    ensures var user := User(socketId, Normalize(username), Normalize(room));
            var s := JoinStep(users, socketId, username, room);
            s.users == users + [user] &&
            |s.effects| == 5 &&
            s.effects[0] == JoinRoom(user.room) &&
            s.effects[1] == Emit(ToSender(socketId), "message", Message([Admin, "Welcome!"])) &&
            s.effects[2] == Emit(ToRoomExceptSender(user.room, socketId), "message", Message([Admin, user.username + " has joined!"])) &&
            s.effects[3] == Emit(ToRoom(user.room), "roomData", RoomData(user.room, UsersInRoom(users, user.room) + [user])) &&
            s.effects[4] == Callback(None)
  {
    var user := User(socketId, Normalize(username), Normalize(room));
    AddAccepted(users, socketId, username, room);
    UsersInRoomAppend(users, [user], user.room);
    assert UsersInRoom([user], user.room) == [user];
  }

  lemma AddAccepted(users: seq<User>, id: string, username: string, room: string)
    requires Normalize(username) != [] && Normalize(room) != []
    requires forall i :: 0 <= i < |users| ==> !(users[i].room == Normalize(room) && users[i].username == Normalize(username))
    ensures var user := User(id, Normalize(username), Normalize(room));
            AfterAdd(users, id, username, room) == AddStep(users + [user], Ok(user))
  {
  }

  /** Who hears of an accepted `join`: the welcome reaches the newcomer only;
      the "has joined" notice reaches every other member of the room and never
      the newcomer; the roster update reaches the newcomer and every member. */
  lemma JoinAudience(users: seq<User>, socketId: string, username: string, room: string)
    requires AfterAdd(users, socketId, username, room).result.Ok?
    ensures var s := JoinStep(users, socketId, username, room);
            |s.effects| == 5 && s.effects[1].Emit? && s.effects[2].Emit? && s.effects[3].Emit? &&
            Recipients(s.users, s.effects[1].scope) == {socketId} &&
            socketId !in Recipients(s.users, s.effects[2].scope) &&
            socketId in Recipients(s.users, s.effects[3].scope) &&
            forall i :: 0 <= i < |users| && users[i].room == Normalize(room) ==>
              users[i].id in Recipients(s.users, s.effects[3].scope) &&
              (users[i].id != socketId ==> users[i].id in Recipients(s.users, s.effects[2].scope))
  {
    var s := JoinStep(users, socketId, username, room);
    var user := User(socketId, Normalize(username), Normalize(room));
    assert s.users[|users|] == user;
    forall i | 0 <= i < |users| && users[i].room == Normalize(room)
      ensures users[i].id in MembersOf(s.users, user.room)
    {
      assert s.users[i] == users[i];
    }
  }

  /** The two broadcast scopes: the room-except-sender scope never reaches the
      sender, even when the sender is the room's only member; the whole-room
      scope reaches every member of the room. These are facts about the scope
      abstraction itself, checked against what socket.io's `broadcast.to` and
      `io.to` promise; which handler emission reaches whom is stated by
      `JoinAudience` and the `...Outcome` lemmas. */
  lemma ScopeReach(users: seq<User>, room: string, sender: string)
    ensures sender !in Recipients(users, ToRoomExceptSender(room, sender))
    ensures forall i :: 0 <= i < |users| && users[i].room == room ==> users[i].id in Recipients(users, ToRoom(room))
    ensures Recipients(users, ToRoomExceptSender(room, sender)) == Recipients(users, ToRoom(room)) - {sender}
  {
  }

  /** `sendMessage`: a profane text is refused with the profanity error and
      nothing is sent; otherwise one `message` carrying the sender's name and
      the text goes to the sender's whole room, sender included, before the
      clean acknowledgement. The roster does not change. */
  lemma SendMessageOutcome(users: seq<User>, socketId: string, isProfane: string -> bool, text: string)
    requires isProfane(text) || Joined(users, socketId)
    ensures var s := SendMessageStep(users, socketId, isProfane, text);
            s.users == users &&
            (isProfane(text) ==> s.effects == [Callback(Some(ProfanityError))])
    ensures var s := SendMessageStep(users, socketId, isProfane, text);
            !isProfane(text) ==>
              |s.effects| == 2 && s.effects[1] == Callback(None) &&
              s.effects[0].Emit? && s.effects[0].event == "message" &&
              s.effects[0].payload == Message([GetUser(users, socketId).value.username, text]) &&
              s.effects[0].scope == ToRoom(GetUser(users, socketId).value.room) &&
              socketId in Recipients(users, s.effects[0].scope)
  {
    if !isProfane(text) {
      var u := GetUser(users, socketId).value;
      var i :| 0 <= i < |users| && users[i] == u && u.id == socketId;
      assert users[i].id in MembersOf(users, u.room);
    }
  }

  /** `sendLocation`: one `locationMessage` with the map link built from the
      coordinates goes to the sender's whole room, sender included, then the
      clean acknowledgement. The roster does not change. */
  lemma SendLocationOutcome(users: seq<User>, socketId: string, latitude: string, longitude: string)
    requires Joined(users, socketId)
    ensures var s := SendLocationStep(users, socketId, latitude, longitude);
            var u := GetUser(users, socketId).value;
            s.users == users &&
            |s.effects| == 2 && s.effects[1] == Callback(None) &&
            s.effects[0] == Emit(ToRoom(u.room), "locationMessage",
                                 LocationMessage(u.username, "https://google.com/maps?q=" + latitude + "," + longitude)) &&
            socketId in Recipients(users, s.effects[0].scope)
  {
    var u := GetUser(users, socketId).value;
    var i :| 0 <= i < |users| && users[i] == u && u.id == socketId;
    assert users[i].id in MembersOf(users, u.room);
  }

  /** `disconnect` of a connection that never joined emits nothing and leaves
      the roster as it was. */
  lemma DisconnectBeforeJoin(users: seq<User>, socketId: string)
    requires !Joined(users, socketId)
    ensures DisconnectStep(users, socketId) == Step(users, [])
  {
  }

  /** In a roster that keeps the invariant, a record differs from every record
      at another position. */
  lemma RecordAtOnePlace(users: seq<User>, i: nat, j: nat)
    requires NamesUnique(users) && i < |users| && j < |users| && i != j
    ensures users[i] != users[j]
  {
    if i < j {
      assert users[i].room == users[j].room ==> users[i].username != users[j].username;
    } else {
      assert users[j].room == users[i].room ==> users[j].username != users[i].username;
    }
  }

  /** After one record is spliced out, the room holds the members it had, less
      that record when it was in the room. */
  lemma SpliceInRoom(users: seq<User>, i: nat, room: string)
    requires i < |users|
    ensures multiset(UsersInRoom(users[..i] + users[i + 1..], room)) +
              (if users[i].room == room then multiset{users[i]} else multiset{}) ==
            multiset(UsersInRoom(users, room))
  {
    assert users == users[..i] + ([users[i]] + users[i + 1..]);
    UsersInRoomAppend(users[..i], [users[i]] + users[i + 1..], room);
    UsersInRoomAppend([users[i]], users[i + 1..], room);
    UsersInRoomAppend(users[..i], users[i + 1..], room);
  }

  /** In a roster that keeps the invariant, a spliced-out record is gone. */
  lemma SplicedOut(users: seq<User>, i: nat)
    requires NamesUnique(users) && i < |users|
    ensures users[i] !in users[..i] + users[i + 1..]
  {
    var s := users[..i] + users[i + 1..];
    forall j | 0 <= j < |s|
      ensures s[j] != users[i]
    {
      var j' := if j < i then j else j + 1;
      assert s[j] == users[j'];
      RecordAtOnePlace(users, i, j');
    }
  }

  /** `disconnect` of a joined connection removes its first record, then sends
      the "has left" notice and the roster update to that record's room. The
      roster sent is the room after the removal: the members it had before,
      less the departed record, which it no longer holds. */
  lemma DisconnectAnnounces(users: seq<User>, socketId: string)
    requires RosterInvariant(users) && Joined(users, socketId)
    ensures var u := GetUser(users, socketId).value;
            var s := DisconnectStep(users, socketId);
            var left := UsersInRoom(s.users, u.room);
            s.users == AfterRemove(users, socketId).users &&
            s.effects == [Emit(ToRoom(u.room), "message", Message([u.username + " has left!"])),
                          Emit(ToRoom(u.room), "roomData", RoomData(u.room, left))] &&
            u !in left &&
            multiset(left) + multiset{u} == multiset(UsersInRoom(users, u.room))
  {
    var u := GetUser(users, socketId).value;
    var k := FindIndex(users, socketId);
    assert users[k] == u;
    assert AfterRemove(users, socketId) == RemoveStep(users[..k] + users[k + 1..], Some(u));
    SpliceInRoom(users, k, u.room);
    SplicedOut(users, k);
  }

  /** Two joins to one room under names equal once normalised (say "Alice" and
      "alice"): when the first is accepted the second is refused with the
      name-in-use error, and the room keeps the first record only. */
  lemma SecondJoinSameNameRefused(users: seq<User>, first: string, second: string,
                                  name1: string, room1: string, name2: string, room2: string)
    requires AfterAdd(users, first, name1, room1).result.Ok?
    requires Normalize(name1) == Normalize(name2) && Normalize(room1) == Normalize(room2)
    ensures var s1 := JoinStep(users, first, name1, room1);
            JoinStep(s1.users, second, name2, room2) == Step(s1.users, [Callback(Some(InUseError))])
  {
    var s1 := JoinStep(users, first, name1, room1);
    assert s1.users[|users|] == User(first, Normalize(name2), Normalize(room2));
  }

  /** The same name may be used in another room. */
  lemma SameNameOtherRoom(users: seq<User>, first: string, second: string,
                          name: string, room1: string, room2: string)
    requires AfterAdd(users, first, name, room1).result.Ok?
    requires AfterAdd(users, second, name, room2).result.Ok?
    requires Normalize(room1) != Normalize(room2)
    ensures var s1 := JoinStep(users, first, name, room1);
            AfterAdd(s1.users, second, name, room2).result.Ok?
  {
  }

  /** Once a connection that joined leaves, its name is free again in its room:
      the roster is back to what it was and another connection may join under
      the same name. */
  lemma RejoinAfterLeave(users: seq<User>, first: string, second: string, name: string, room: string)
    requires !Joined(users, first)
    requires AfterAdd(users, first, name, room).result.Ok?
    ensures var s1 := JoinStep(users, first, name, room);
            var s2 := DisconnectStep(s1.users, first);
            s2.users == users && AfterAdd(s2.users, second, name, room).result.Ok?
  {
    var s1 := JoinStep(users, first, name, room);
    var k := FindIndex(s1.users, first);
    assert forall j :: 0 <= j < |users| ==> s1.users[j] == users[j];
    assert k == |users|;
    assert s1.users[..k] == users;
  }

  /** Names are compared after normalisation: once "Alice" has joined "Room1",
      "alice" asking for "room1" on another connection is refused. */
  lemma AliceExample()
    ensures var s1 := JoinStep([], "c1", "Alice", "Room1");
            s1.users == [User("c1", "alice", "room1")] &&
            JoinStep(s1.users, "c2", "alice", "room1") == Step(s1.users, [Callback(Some(InUseError))])
  {
    AliceNames();
    var alice := User("c1", "alice", "room1");
    assert AfterAdd([], "c1", "Alice", "Room1") == AddStep([alice], Ok(alice));
    assert [alice][0].room == "room1" && [alice][0].username == "alice";
  }

  /** The normal forms the example relies on. */
  lemma AliceNames()
    ensures Normalize("Alice") == "alice" && Normalize("alice") == "alice"
    ensures Normalize("Room1") == "room1" && Normalize("room1") == "room1"
  {
    NormalizeWord("Alice");
    assert Lower("Alice") == "alice";
    NormalizeWord("Room1");
    assert Lower("Room1") == "room1";
    NormalFormIsFixed("alice");
    NormalFormIsFixed("room1");
  }
}
