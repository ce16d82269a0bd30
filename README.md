# Room relay of the chat backend, modelled in Dafny

The backend of this chat application is one WebSocket server process
(`backend/src/index.ts`). It keeps one process-wide registry, `allSocket`. The registry maps
a room id to the members of that room, and each room maps a client id to that client's
socket. Every accepted connection gets a random client id and a `roomId` variable that
starts as `null`. Each inbound message is parsed as JSON and then handled by type:

- A `join` sets the connection's room and adds its socket to that room, creating the room
  when needed.
- A `chat` sends the raw `message` string to every other socket in the connection's current
  room.

When a connection closes, it is removed from its current room, and the room is deleted once
it is empty.

The project has six modules, one per file:

- `wrappers.dfy` (`Wrappers`): `Option`, standing for a JavaScript value that may be
  `null` or `undefined`.
- `room_maps.dfy` (`RoomMaps`): one room's `Map<string, WebSocket>`. It is kept as keys in
  insertion order plus the value under each key, because `forEach` visits entries in
  insertion order. The module defines `set`, `delete` and `size`.
- `registry.dfy` (`Registry`): the operations on `allSocket`:
  - entering a room (lines 24-27);
  - leaving a room (lines 53-60);
  - the `forEach` fan-out of a chat (lines 39-43) and its properties.
- `relay.dfy` (`Relay`): the whole process as a value, `World`, with one step function per
  callback:
  - connection, lines 8-11;
  - join, lines 17-27;
  - chat, lines 28-43;
  - malformed or unknown message, lines 13-48;
  - close, lines 50-61.

  It also states the invariant `Inv` and proves that every step keeps it. `Inv` says:
  - no room is empty;
  - a connection whose room is set is a member of that room;
  - sockets are distinct;
  - every room stores each member's own socket;
  - every send went to an accepted socket.
- `trace.dfy` (`Trace`): arbitrary interleavings of callbacks across any number of
  connections, and the consequences over whole runs. Among them:
  - a connection that never joins is never reached;
  - the last close deletes the room;
  - the quirks of rejoining and of empty joins;
  - the two-client scenarios.
- `backend.dfy` (`Backend`): the process as an object, `Server`, whose fields are updated in
  place by one method per callback. Each method is proved to reach exactly the state that
  the matching `Relay` step describes. The chat method sends inside a loop over the room's
  members, as `forEach` does.

### Where the code's behaviour is not what a reader might expect

The model follows the code as written in these cases:

- A `join` with a missing or empty room id sets the connection's room to `null` (line 18)
  before the check on line 19. It does not take the connection out of the room it joined
  before. A later close therefore leaves the connection as a member of that earlier room:
  `Trace.EmptyJoinThenCloseKeepsMembership`.
- A second `join` naming another room adds the connection to the new room without leaving
  the old one (lines 18-27). The connection stays a member of both and later receives chats
  from both rooms. Only the current room is left on close. See `Trace.RejoinKeepsOldRoom`.
- The chat fan-out compares sockets, not client ids (line 40). Under `Inv` the registry
  holds each client's own socket and distinct clients have distinct sockets, so this is the
  same as skipping the sender's client id. `Registry.BroadcastToOthers` relies on exactly
  that.
- The "room does not exist" branch of a chat (lines 35-37) cannot be taken in a reachable
  state: `Inv` says a connection with a room is a member of it. The branch is modelled anyway.

## Model

| member | source | states |
|---|---|---|
| RoomMaps.Set | backend/src/index.ts:27 | `Map.set`: the key maps to the new socket. The size grows by one exactly when the key is new. Earlier keys keep their iteration positions, and a new key is visited last. |
| RoomMaps.Delete | backend/src/index.ts:55 | `Map.delete`: the key is gone and the other entries are kept. The size drops by one exactly when the key was present. The remaining keys keep their iteration order (`Without`). |
| RoomMaps.Without | backend/src/index.ts:55 | Removing a key from the iteration order keeps exactly the other keys, keeps them distinct, and shortens the order by one when the key was there. |
| RoomMaps.SizeCountsKeys | backend/src/index.ts:58 | `Map.size`, modelled by `RoomMaps.Size` as the length of the iteration order, is the number of keys in the map. |
| RoomMaps.Empty | backend/src/index.ts:25 | `new Map()`: no members and size 0. |
| RoomMaps.WithoutAppend | backend/src/index.ts:55 | Removing a key is the in-order filter: it distributes over concatenation and keeps a single key exactly when it is not the removed one. |
| RoomMaps.EmptyIffNoKeys | backend/src/index.ts:58 | `size === 0` holds exactly when the map has no members. |
| RoomMaps.DeleteAbsent | backend/src/index.ts:55 | Deleting a key that is not in the map leaves the map as it was. |
| Registry.Enter | backend/src/index.ts:24-27 | The room is present afterwards and stores the client's socket under its id. A room that was absent has only this member. In a room that existed, the other members keep their sockets, and the client is appended to the iteration order only when new. Other rooms are unchanged, and every earlier membership remains. |
| Registry.EnterInPlace | backend/src/index.ts:24-27 | First creating the room when absent, then setting the key, gives exactly `Enter`. |
| Registry.Leave | backend/src/index.ts:53-60 | The client id is gone from the room. The room remains exactly when it has another member, and then holds exactly its old members minus the client, in their old order. Other rooms, and every other membership, are unchanged. |
| Registry.LeaveInPlace | backend/src/index.ts:55-60 | Deleting the key, then deleting the room once its size is 0, gives exactly `Leave`. |
| Registry.LeaveAsNonMember | backend/src/index.ts:53-60 | Leaving a room one is not a member of changes nothing. |
| Registry.Fanout | backend/src/index.ts:39-43 | Every frame of the `forEach` carries the data and goes to a socket other than the sender's. There are at most as many frames as members. |
| Registry.FanoutFromMembers | backend/src/index.ts:39-43 | Every frame goes to the socket of a member of the room. |
| Registry.FanoutReachesOthers | backend/src/index.ts:39-43 | Every member whose socket is not the sender's is sent a frame. |
| Registry.FanoutOnce | backend/src/index.ts:39-43 | With distinct ids and distinct sockets, no socket is sent the frame twice. |
| Registry.FanoutCount | backend/src/index.ts:39-43 | The number of frames is the number of members, minus one when the sender is a member. |
| Registry.Broadcast | backend/src/index.ts:34-43 | An absent room gives no frames. Every frame carries the data and avoids the sender's socket. |
| Registry.BroadcastToOthers | backend/src/index.ts:34-43 | In a room of size M that holds the sender, exactly M-1 frames are sent. There is one frame to each other member, none to the sender, and each frame carries the data. |
| Registry.BroadcastToAccepted | backend/src/index.ts:39-43 | Every frame goes to the socket of a known connection. |
| Registry.EnterKeepsNonEmpty | backend/src/index.ts:24-27 | Entering a room never leaves an empty room in the registry. |
| Registry.LeaveKeepsNonEmpty | backend/src/index.ts:57-60 | Leaving a room never leaves an empty room in the registry. |
| Registry.EnterKeepsOwnSockets | backend/src/index.ts:27 | After entering, every room still stores each member's own socket. |
| Registry.LeaveKeepsOwnSockets | backend/src/index.ts:55-60 | After leaving, every room still stores each member's own socket. |
| Relay.RoomKey | backend/src/index.ts:18-19 | The room id, or `null` when it is missing or empty: the room is set exactly when the id is present and non-empty, and then it is that id. |
| Relay.Frame | backend/src/index.ts:41 | The frame is the message or the empty string: the frame is the message when one is present, and the empty string otherwise. |
| Relay.ConnectStep | backend/src/index.ts:8-11 | A new connection is open with room `null` and its own socket. Every other connection, the registry and the outbox are unchanged. |
| Relay.JoinStep | backend/src/index.ts:17-27 | The room becomes `RoomKey(roomId)`. Without a key the registry is unchanged. With a key, the connection is a member of that room under its own socket. A fresh room holds only it. A room that existed keeps its other members and their sockets, and gains the connection at the end of its order only when it is new. No other room changes and no membership is lost. |
| Relay.ChatStep | backend/src/index.ts:28-43 | Only the outbox changes. With no room (`null` or empty), or an absent room, nothing is sent. Otherwise the room's broadcast of `Frame(message)` is appended, and no new frame goes to the sender. |
| Relay.CloseStep | backend/src/index.ts:50-61 | The connection is gone. With its room set and present, it leaves that room: the room survives exactly when other members remain, and then holds exactly its old members minus the connection, in their old order; nothing else in the registry changes. Otherwise the registry is unchanged. |
| Relay.HandleStep | backend/src/index.ts:13-48 | Unknown and malformed messages change nothing. No message opens or closes a connection. |
| Relay.StartInv | backend/src/index.ts:5 | The start state `Relay.Start` (empty `allSocket`, no connections, nothing sent) satisfies `Inv`. |
| Relay.ConnectKeepsInv | backend/src/index.ts:8-11 | Accepting a connection keeps `Inv`. |
| Relay.JoinKeepsInv | backend/src/index.ts:17-27 | Every join keeps `Inv`, whatever room id it carries. |
| Relay.ChatKeepsInv | backend/src/index.ts:28-43 | Every chat keeps `Inv`. |
| Relay.CloseKeepsInv | backend/src/index.ts:50-61 | Every close keeps `Inv`. |
| Relay.HandleKeepsInv | backend/src/index.ts:13-48 | Every inbound message keeps `Inv`. |
| Relay.ChatReachesOthers | backend/src/index.ts:28-43 | A chat from a member of a room of size M appends exactly M-1 frames: one `Frame(message)` to each other member and none to the sender. |
| Trace.Step | backend/src/index.ts:8-62 | An event the transport cannot produce changes nothing. |
| Trace.RunAppend | backend/src/index.ts:8-62 | `Trace.Run`, the event loop's callbacks in order, extended by one more event is that event's step after the run. |
| Trace.StepKeepsInv | backend/src/index.ts:8-62 | Every callback keeps `Inv`. |
| Trace.RunKeepsInv | backend/src/index.ts:8-62 | Every run of callbacks, in any interleaving, keeps `Inv`. |
| Trace.ReachableInv | backend/src/index.ts:5-62 | Every state reachable from process start satisfies `Inv`. |
| Trace.ChatKeepsUnreached | backend/src/index.ts:28-43 | A chat by any connection sends nothing to a connection that is in no room. |
| Trace.JoinKeepsUnreached | backend/src/index.ts:17-27 | A join by another connection does not make a connection a member. |
| Trace.CloseKeepsUnreached | backend/src/index.ts:50-61 | A close does not make any connection a member. |
| Trace.StepKeepsUnreached | backend/src/index.ts:8-62 | Every callback other than the connection's own join naming a room keeps it unreached. |
| Trace.NeverJoinedNeverReached | backend/src/index.ts:8-62 | Over any run, a connection that never sends a join naming a room is never a member of a room and is never sent a frame. |
| Trace.UnreachedChatIsSilent | backend/src/index.ts:29-32 | A chat from a connection without a room changes nothing. |
| Trace.ScenarioChatBeforeJoin | backend/src/index.ts:28-32 | A chat sent right after connecting, before any join, changes nothing. |
| Trace.LastCloseDeletesRoom | backend/src/index.ts:53-60 | When the last member of a room closes, the room is absent. A later join recreates it with only the joiner, and the joiner's chat then sends nothing. |
| Trace.RejoinKeepsOldRoom | backend/src/index.ts:18-27 | Joining a second room keeps the membership in the first. |
| Trace.EmptyJoinThenCloseKeepsMembership | backend/src/index.ts:18-22 | A join without a room id sets the room to null. The earlier membership survives that join and a later close. |
| Trace.TwoAccepted | backend/src/index.ts:8-11 | After two connections are accepted, both are open with room null and no room exists. |
| Trace.FirstJoin | backend/src/index.ts:24-27 | The first join creates the room with its joiner as sole member. |
| Trace.SecondJoin | backend/src/index.ts:24-27 | A second join in the same room appends the joiner after the first member. A second join in another room creates that room. |
| Trace.TwoJoinedWorld | backend/src/index.ts:8-27 | The exact state after two connections are accepted and each joins a room. |
| Trace.FanoutOne | backend/src/index.ts:39-43 | In a one-member room, a frame goes out only when the member is not the sender. |
| Trace.FanoutTwo | backend/src/index.ts:39-43 | In a two-member room, frames go out in insertion order to each member that is not the sender. |
| Trace.ScenarioSameRoom | backend/src/index.ts:28-43 | Two connections in one room: a chat from either sends exactly one raw frame, to the other. |
| Trace.ScenarioOtherRoom | backend/src/index.ts:28-43 | Two connections in different rooms: a chat from either sends nothing. |
| Trace.SameRoomIsBothIn | backend/src/index.ts:8-27 | Two joins of the same room reach the two-member state. |
| Trace.CloseFirstOfTwo | backend/src/index.ts:50-61 | When one of two members closes, the other remains as the only member. |
| Trace.ScenarioLastMember | backend/src/index.ts:28-61 | The only member's chat sends nothing, and its close deletes the room. |
| Backend.Server.constructor | backend/src/index.ts:5 | The process starts empty and satisfies `Inv`. |
| Backend.Server.Connect | backend/src/index.ts:8-11 | Reaches `ConnectStep` of the old state and keeps `Inv`. |
| Backend.Server.AddMember | backend/src/index.ts:24-27 | The registry becomes `Enter` of the old registry; nothing else changes. |
| Backend.Server.Join | backend/src/index.ts:17-27 | Reaches `JoinStep` of the old state and keeps `Inv`. |
| Backend.Server.SendToOthers | backend/src/index.ts:39-43 | The loop over the members appends exactly `Fanout` of the room to the outbox; nothing else changes. |
| Backend.Server.Chat | backend/src/index.ts:28-43 | Reaches `ChatStep` of the old state and keeps `Inv`. |
| Backend.Server.RemoveMember | backend/src/index.ts:54-60 | The registry becomes `Leave` of the old registry; nothing else changes. |
| Backend.Server.Close | backend/src/index.ts:50-61 | Reaches `CloseStep` of the old state and keeps `Inv`. |
| Backend.Server.Handle | backend/src/index.ts:13-48 | Reaches `HandleStep` of the old state and keeps `Inv`. |

## Left out

- The transport is not modelled: the `WebSocketServer`, port 8080 (line 6), and the wire
  format. A connection is an id plus a socket identity, and a send is a record in the
  outbox.
- `JSON.parse` (line 15) is not modelled. A message arrives already classified as a join, a
  chat, an unknown type, or `Malformed`. `Malformed` stands for a parse failure, a `null`
  message, or a join or chat without a `payload`, each of which throws, or returns,
  before any state changes.
- Payload fields are strings or missing. A non-string `roomId` or `message` (a number, an
  object) is not modelled, so neither is what `||` and `send` would do with it.
- Logging (`console.log` and `console.error`) is left out. It has no effect on the state.
- Client ids are not generated. `Math.random().toString(36).substring(2, 9)` on line 11 is
  replaced by a parameter of the accept event, which is required to be distinct from every
  earlier id. Random collisions are therefore not modelled.
- Concurrency is not modelled. Node runs each callback to completion on one thread, so every
  callback is one atomic step.
- The outcome of a `send` is not modelled: every send is recorded in the outbox, including
  one to the socket of a stale member whose connection has closed.
- Each room's inner `Map` is a value, not a shared object. The source never lets it escape
  the registry except in a local variable used within one callback.
- `backend/dist/index.js` (compiled output of the same file) and the frontend `App.tsx` are
  not part of this model.
