/** The socket handlers registered in `io.on('connection', ...)` of src/index.js,
    run against the shared roster store. Each handler updates the store through
    `addUser`/`removeUser` and appends what it does (room joins, emissions,
    acknowledgements) to the server's effect log, one statement at a time. */
module Server {
  import opened Users
  import opened Session

  class ChatServer {
    /** The roster store shared by every connection. */
    const store: UserStore
    /** The profanity filter's verdict on a text. */
    const isProfane: string -> bool
    /** Everything the handlers have done so far, oldest first. */
    var log: seq<Effect>

    ghost predicate Valid()
      reads this, store
    {
      store.Valid()
    }

    constructor (isProfane: string -> bool)
      ensures Valid() && fresh(store)
      ensures store.users == [] && log == [] && this.isProfane == isProfane
    {
      store := new UserStore();
      this.isProfane := isProfane;
      log := [];
    }

    /** The `join` handler of the connection `socketId`. */
    method Join(socketId: string, username: string, room: string)
      requires Valid()
      modifies this, store
      ensures Valid()
      ensures var s := JoinStep(old(store.users), socketId, username, room);
              store.users == s.users && log == old(log) + s.effects
    {
      ghost var before := log;
      var result := store.AddUser(socketId, username, room);
      if result.Err? {
        log := log + [Callback(Some(result.error))];
        return;
      }
      var user := result.value;
      log := log + [JoinRoom(user.room)];
      log := log + [Emit(ToSender(socketId), "message", Message([Admin, "Welcome!"]))];
      log := log + [Emit(ToRoomExceptSender(user.room, socketId), "message", Message([Admin, user.username + " has joined!"]))];
      log := log + [Emit(ToRoom(user.room), "roomData", RoomData(user.room, UsersInRoom(store.users, user.room)))];
      log := log + [Callback(None)];
      assert log == before + JoinStep(old(store.users), socketId, username, room).effects;
    }

    /** The `sendMessage` handler of the connection `socketId`. */
    method SendMessage(socketId: string, text: string)
      requires Valid()
      requires isProfane(text) || Joined(store.users, socketId)
      modifies this
      ensures Valid() && store.users == old(store.users)
      ensures log == old(log) + SendMessageStep(store.users, socketId, isProfane, text).effects
    {
      var user := GetUser(store.users, socketId);
      if isProfane(text) {
        log := log + [Callback(Some(ProfanityError))];
        return;
      }
      log := log + [Emit(ToRoom(user.value.room), "message", Message([user.value.username, text]))];
      log := log + [Callback(None)];
    }

    /** The `sendLocation` handler of the connection `socketId`. */
    method SendLocation(socketId: string, latitude: string, longitude: string)
      requires Valid()
      requires Joined(store.users, socketId)
      modifies this
      ensures Valid() && store.users == old(store.users)
      ensures log == old(log) + SendLocationStep(store.users, socketId, latitude, longitude).effects
    {
      ghost var before := log;
      var user := GetUser(store.users, socketId).value;
      var url := LocationUrl(latitude, longitude);
      log := log + [Emit(ToRoom(user.room), "locationMessage", LocationMessage(user.username, url))];
      log := log + [Callback(None)];
      assert log == before + SendLocationStep(store.users, socketId, latitude, longitude).effects;
    }

    /** The `disconnect` handler of the connection `socketId`. */
    method Disconnect(socketId: string)
      requires Valid()
      modifies this, store
      ensures Valid()
      ensures var s := DisconnectStep(old(store.users), socketId);
              store.users == s.users && log == old(log) + s.effects
    {
      ghost var before := log;
      var user := store.RemoveUser(socketId);
      if user.Some? {
        var u := user.value;
        log := log + [Emit(ToRoom(u.room), "message", Message([u.username + " has left!"]))];
        log := log + [Emit(ToRoom(u.room), "roomData", RoomData(u.room, UsersInRoom(store.users, u.room)))];
        assert log == before + [Emit(ToRoom(u.room), "message", Message([u.username + " has left!"])),
                                Emit(ToRoom(u.room), "roomData", RoomData(u.room, UsersInRoom(store.users, u.room)))];
      }
    }
  }
}
