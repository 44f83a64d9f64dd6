# Chat relay roster and session handlers, modelled in Dafny

This project models the server core of a room-based chat relay. Clients join a
named room under a display name. They exchange text messages and locations,
and they see the live roster of their room. The model has two parts.

- **The roster store** (`src/utils/users.js`). This is one process-wide list of
  `{id, username, room}` records. `addUser` trims and lower-cases the name and
  room. It rejects an empty field, rejects a name already used in the room, and
  otherwise appends the record. `removeUser` splices out the first record with
  the id and returns it. `getUser` and `getUsersInRoom` are queries.
  - Module `Text` normalises strings.
  - Module `Users` holds the records, the queries (`GetUser`, `UsersInRoom`,
    `FindIndex`, `NameTaken`) and the two updates as specification functions
    (`AfterAdd`, `AfterRemove`).
  - `Users.UserStore` is the mutable store. It is a class over a `seq<User>`
    whose methods are proved against those functions.
  - The roster invariant has two parts. No two records in one room share a
    name, and every record's name and room are non-empty and in normal form.
- **The socket handlers** (`src/index.js`: `join`, `sendMessage`,
  `sendLocation`, `disconnect`). Module `Session` gives each handler as a step.
  A step takes the roster and the connection's socket id, and gives the new
  roster plus the ordered effects the handler produces:
  - `JoinRoom` for `socket.join`;
  - `Emit(scope, event, payload)` for an emission;
  - `Callback(error)` for the acknowledgement.

  There are three scopes. `ToSender` is `socket.emit`. `ToRoomExceptSender` is
  `socket.broadcast.to(room)`. `ToRoom` is `io.to(room)`. `Recipients` says
  which sockets each scope reaches. `Server.ChatServer` is the imperative form:
  it holds the store and an effect log, and it has one method per event, proved
  against the steps.

The profanity filter is the `isProfane` parameter (a function from text to
bool). `generateMessage` and `generateLocationMessage` are not modelled: a
payload records the arguments they were given.

## Model

| member | source | states |
|---|---|---|
| `Text.Trim` | src/utils/users.js:6-7 | the trimmed string has no white space at either end; it is empty exactly when the input is all white space |
| `Text.TrimKeepsMiddle` | src/utils/users.js:6-7 | the trimmed string is one contiguous slice of the input, and everything before and after that slice is white space |
| `Text.TrimStart` | src/utils/users.js:6-7 | no contract of its own; see `TrimStartSpec` |
| `Text.TrimStartSpec` | src/utils/users.js:6-7 | `TrimStart` (the first half of `trim`) gives a suffix of the input; everything dropped is white space; the result is empty or starts with a non-space |
| `Text.TrimEnd` | src/utils/users.js:6-7 | no contract of its own; see `TrimEndSpec` |
| `Text.TrimEndSpec` | src/utils/users.js:6-7 | `TrimEnd` (the second half of `trim`) gives a prefix of the input; everything dropped is white space; the result is empty or ends with a non-space |
| `Text.LowerChar` | src/utils/users.js:6-7 | the result is never an upper-case letter; white space stays white space; `A`-`Z` move to `a`-`z`, and every other character is kept |
| `Text.Lower` | src/utils/users.js:6-7 | same length; every character is that of the input, lowered |
| `Text.Normalize` | src/utils/users.js:6-7 | the normalised name or room is in normal form (trimmed, no upper-case letter); it is empty exactly when the input is all white space |
| `Text.NormalFormIsFixed` | src/utils/users.js:6-7 | a string in normal form is its own normal form |
| `Text.NormalizeIdempotent` | src/utils/users.js:6-7 | normalising twice is normalising once |
| `Users.NameTaken` | src/utils/users.js:15-19 | true exactly when some record has this name in this room |
| `Users.FindIndex` | src/utils/users.js:32-34 | -1 exactly when no record has the id; otherwise the position of the first record with the id |
| `Users.GetUser` | src/utils/users.js:41-44 | nothing exactly when no record has the id; otherwise the first record with the id |
| `Users.UsersInRoom` | src/utils/users.js:46-49 | holds exactly the records whose room equals the argument |
| `Users.UsersInRoomAppend` | src/utils/users.js:46-49 | the filter keeps roster order: filtering `a + b` gives the matches in `a` followed by those in `b` |
| `Users.RoomQueryIsLiteral` | src/utils/users.js:46-49 | the room argument is not normalised: in a well-formed roster only a lower-cased room name can match a record |
| `Users.AfterAdd` | src/utils/users.js:4-28 | an empty normalised name or room gives `'Username and room are required!'` and an unchanged roster; a name already in the room gives `'Username is already in use!'` and an unchanged roster; success happens exactly when neither holds, and then the roster gains one record at the end, holding the id and the normalised name and room, and that record is returned |
| `Users.AfterRemove` | src/utils/users.js:30-39 | returns what `getUser` would return; with no match the roster is unchanged; otherwise exactly the first record with the id is spliced out, the others keep their order, and the length drops by one |
| `Users.AppendKeepsInvariant` | src/utils/users.js:15-26 | appending a well-formed record whose name is free in its room keeps the roster invariant |
| `Users.SpliceKeepsNamesUnique` | src/utils/users.js:37 | removing one record keeps names unique per room |
| `Users.SpliceKeepsWellFormed` | src/utils/users.js:37 | removing one record keeps every remaining record well-formed |
| `Users.AddPreservesInvariant` | src/utils/users.js:4-28 | `addUser` keeps the roster invariant (no name twice in a room; fields non-empty and normalised) |
| `Users.RemovePreservesInvariant` | src/utils/users.js:30-39 | `removeUser` keeps the roster invariant |
| `Users.UserStore.constructor` | src/utils/users.js:2 | the store starts empty and satisfies the invariant |
| `Users.UserStore.AddUser` | src/utils/users.js:4-28 | the new roster and the reply are those of `AfterAdd` on the old roster; the invariant is kept |
| `Users.UserStore.RemoveUser` | src/utils/users.js:30-39 | the new roster and the returned record are those of `AfterRemove` on the old roster; the invariant is kept |
| `Session.MembersOf` | src/index.js:31-32 | no contract of its own: the ids of the roster records whose room is the given one; see `ScopeReach` and `JoinAudience` |
| `Session.Recipients` | src/index.js:26-32 | no contract of its own: the sender alone, the room's members less the sender, or the whole room; see `ScopeReach` and `JoinAudience` |
| `Session.LocationUrl` | src/index.js:71 | no contract of its own: `https://google.com/maps?q=` followed by latitude, a comma and longitude; see `SendLocationOutcome` |
| `Session.JoinStep` | src/index.js:39-54 | no contract of its own; see `JoinRejected`, `JoinAccepted`, `JoinAudience` and `AckExactlyOnce` |
| `Session.SendMessageStep` | src/index.js:56-67 | no contract of its own; see `SendMessageOutcome` and `AckExactlyOnce` |
| `Session.SendLocationStep` | src/index.js:69-73 | no contract of its own; see `SendLocationOutcome` and `AckExactlyOnce` |
| `Session.DisconnectStep` | src/index.js:75-84 | no contract of its own; see `DisconnectBeforeJoin`, `DisconnectAnnounces` and `AckExactlyOnce` |
| `Session.Handle` | src/index.js:39-84 | no contract of its own: sends each inbound event to its handler; see `HandlePreservesInvariant`, `AckExactlyOnce` and `RejectionIsSilent` |
| `Session.AcksCount` | src/index.js:39-73 | a list of effects with no callback acknowledges nothing; one whose only callback is its last effect acknowledges once |
| `Session.AckExactlyOnce` | src/index.js:39-84 | `join`, `sendMessage` and `sendLocation` invoke their callback exactly once, as their last effect, on every path; `disconnect` never does |
| `Session.RejectionIsSilent` | src/index.js:41-63 | a request acknowledged with an error produces nothing but that acknowledgement (no room join, no emission), and the roster is unchanged |
| `Session.HandlePreservesInvariant` | src/index.js:39-84 | every handler keeps the roster invariant |
| `Session.JoinRejected` | src/index.js:41-44 | a failed `join` acknowledges with the `addUser` error (an empty field before a taken name) and does nothing else |
| `Session.JoinAccepted` | src/index.js:45-53 | an accepted `join` appends the normalised record, then joins the room, sends the Admin welcome to the sender, the "has joined" notice to the room except the sender, and `roomData` to the whole room, then acknowledges cleanly; the `roomData` list is taken after the append: the room's earlier members in order, then the newcomer |
| `Session.JoinAudience` | src/index.js:45-52 | after an accepted `join`, the welcome reaches only the newcomer; the "has joined" notice reaches every other member of the room but never the newcomer; `roomData` reaches the newcomer and every member |
| `Session.ScopeReach` | src/index.js:26-32 | the room-except-sender scope never reaches the sender, even when the sender is alone in the room; the whole-room scope reaches every member |
| `Session.SendMessageOutcome` | src/index.js:56-67 | a profane text is acknowledged with `'Profanity is not allowed!'` and nothing is sent; otherwise one `message` with the sender's name and the text goes to the sender's whole room (sender included), then a clean acknowledgement; the roster is unchanged |
| `Session.SendLocationOutcome` | src/index.js:69-73 | one `locationMessage` with the sender's name and `https://google.com/maps?q=<lat>,<lon>` goes to the sender's whole room (sender included), then a clean acknowledgement; the roster is unchanged |
| `Session.DisconnectBeforeJoin` | src/index.js:75-77 | a connection with no record disconnects without any emission and without changing the roster |
| `Session.SpliceInRoom` | src/index.js:79-82 | after one record is removed, the room holds its earlier members less that record, if it was in the room |
| `Session.SplicedOut` | src/utils/users.js:30-39 | under the invariant, a removed record no longer appears in the roster |
| `Session.DisconnectAnnounces` | src/index.js:75-84 | a joined connection's disconnect removes its first record, then sends "has left" and `roomData` to that record's room; the `roomData` list is the room after removal, which no longer holds the departed record and is the earlier room minus it |
| `Session.SecondJoinSameNameRefused` | src/index.js:39-44 | after an accepted join, a join from another connection whose name and room normalise to the same values is refused with `'Username is already in use!'` and changes nothing |
| `Session.SameNameOtherRoom` | src/utils/users.js:15-17 | a name taken in one room stays free in another |
| `Session.RejoinAfterLeave` | src/index.js:75-82 | once a connection that joined disconnects, the roster is back to what it was and another connection can join under the same name |
| `Session.AliceExample` | src/utils/users.js:6-23 | "Alice" joins "Room1", and then "alice" is refused in "room1" |
| `Session.AliceNames` | src/utils/users.js:6-7 | "Alice" and "alice" both normalise to "alice"; "Room1" and "room1" both normalise to "room1" |
| `Server.ChatServer.constructor` | src/index.js:35 | the server starts with a fresh, empty, valid roster store, the given profanity filter and an empty effect log |
| `Server.ChatServer.Join` | src/index.js:39-54 | the store and the appended effects are exactly those of `JoinStep` on the old roster; the invariant is kept |
| `Server.ChatServer.SendMessage` | src/index.js:56-67 | the roster is unchanged and the appended effects are those of `SendMessageStep` |
| `Server.ChatServer.SendLocation` | src/index.js:69-73 | the roster is unchanged and the appended effects are those of `SendLocationStep` |
| `Server.ChatServer.Disconnect` | src/index.js:75-84 | the store and the appended effects are exactly those of `DisconnectStep` on the old roster; the invariant is kept |

## Behaviour of the code that the model keeps

- `addUser` does not reject a second record with an id already in the roster.
  The model does the same. `removeUser` and `getUser` then act on the first
  record with that id.
- `roomData` sends the full records (`id`, `username`, `room`), not just the
  names.
- The "has left" notice passes a single argument to `generateMessage`
  (src/index.js:78), unlike every other call, which passes the sender first.
  The payload records that one argument as written.
- `sendMessage` checks for profanity before it uses the sender's record. A
  profane text from a connection that never joined is therefore refused
  normally. Only the accepting path needs a joined sender.

## Left out

- Express static serving, HTTP server creation, `server.listen` and the console
  logging (src/index.js:10-20, 36, 87-89): these are I/O.
- socket.io delivery and room membership. `Recipients` treats a socket as being
  in every room that one of its roster records names. socket.io tracks
  `socket.join` instead, and on disconnect it drops a socket from all its
  rooms, while `removeUser` removes only the first record for the id. The two
  differ in two ways. The first is a connection that joined more than once.
  The second is that socket.io also puts every socket in a room named after its
  own id. So `io.to(room)` and `socket.broadcast.to(room)` also reach a live
  socket whose id equals the room string, roster record or not, and
  `MembersOf` misses that socket. Clients can learn ids, because `roomData`
  sends the full records.
- The `bad-words` filter. It is the `isProfane` parameter, which is assumed to
  be a pure function.
- `generateMessage` and `generateLocationMessage` (`./utils/messages`) are not
  part of this model, and neither is their timestamp. Payloads hold the
  arguments passed to them.
- Number formatting of latitude and longitude: the coordinates are strings that
  are already formatted.
- Unicode `trim` and `toLowerCase`. Only the ASCII white space characters (space
  and the characters from tab to carriage return) are trimmed, and only `A`-`Z`
  are lowered.
- Malformed payloads and a client that sends no callback. A `join` payload or
  `coords` that is `null` or missing throws in the source (src/index.js:39,
  71). A primitive `join` payload leaves `username` undefined and throws at
  src/utils/users.js:6, as does a `username` or `room` that is not a string
  (src/utils/users.js:6-7). Here every field is a string, and the callback is
  always present. Primitive `coords` do not throw: both fields read as
  `undefined`, and the model covers that run with latitude and longitude set
  to the string "undefined".
- `sendMessage` with clean text, or `sendLocation`, from a connection that
  never joined. The source throws when it reads `user.room` (src/index.js:64,
  71). Here a joined sender is a precondition.
- Concurrency. Node runs the handlers one at a time, so each handler is one
  atomic step.
- The browser client `public/js/chat.js`: rendering, autoscroll, geolocation
  and query-string parsing.
