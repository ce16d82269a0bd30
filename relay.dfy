/**
 * The connection handler of backend/src/index.ts:8-62 as a state machine over one value,
 * the World. Node runs each socket callback to completion on one event loop, so each
 * callback (connection, message, close) is one atomic step from a World to the next.
 */
module Relay {
  import opened Wrappers
  import opened RoomMaps
  import opened Registry

  /**
   * An inbound message after `JSON.parse`. `Join` and `Chat` carry the payload field the
   * handler reads (None when it is missing). `Unknown` is a parsed object whose `type` is
   * neither "join" nor "chat". `Malformed` is any message whose handling throws before it
   * changes anything: a `JSON.parse` failure, or a join or chat without a payload object
   * (reading `payload.roomId` or `payload.message` then throws); the catch drops it.
   */
  datatype Envelope =
    | Join(roomId: Option<string>)
    | Chat(message: Option<string>)
    | Unknown
    | Malformed

  /**
   * The process state. `registry` is `allSocket`. `socketOf` is the socket of every
   * connection accepted so far. `roomOf` holds the `roomId` variable of every connection
   * that is still open (None for `null`). `outbox` lists every send, oldest first.
   */
  datatype World = World(
    registry: Rooms,
    socketOf: map<ClientId, ConnId>,
    roomOf: map<ClientId, Option<RoomId>>,
    outbox: seq<Send>)

  /** The process just started: no rooms, no connections, nothing sent. */
  function Start(): World {
    World(map[], map[], map[], [])
  }

  /** A connection whose room is set is a member of that room, which is in the registry. */
  predicate JoinedIsMember(w: World) {
    forall c :: c in w.roomOf && w.roomOf[c].Some? ==>
      w.roomOf[c].value != "" && IsMember(w.registry, w.roomOf[c].value, c)
  }

  /** Every open connection has a socket, and no two connections share one. */
  predicate SocketsDistinct(w: World) {
    w.roomOf.Keys <= w.socketOf.Keys && Injective(w.socketOf)
  }

  /** Every send went to the socket of an accepted connection. */
  predicate SentToAccepted(w: World) {
    forall i :: 0 <= i < |w.outbox| ==> w.outbox[i].socket in w.socketOf.Values
  }

  /** What every step preserves. */
  predicate Inv(w: World) {
    && NonEmpty(w.registry)
    && JoinedIsMember(w)
    && SocketsDistinct(w)
    && OwnSockets(w.registry, w.socketOf)
    && SentToAccepted(w)
  }

  /** `payload.roomId || null` (line 18): a missing or empty room id becomes null. */
  function RoomKey(roomId: Option<string>): (key: Option<RoomId>)
    ensures key.Some? <==> roomId.Some? && roomId.value != ""
    ensures key.Some? ==> key == roomId
  {
    if roomId.Some? && roomId.value != "" then roomId else None
  }

  /** `payload.message || ""` (line 41): the frame a chat sends. */
  function Frame(message: Option<string>): (data: string)
    ensures message.Some? ==> data == message.value
    ensures message.None? ==> data == ""
  {
    if message.Some? && message.value != "" then message.value else ""
  }

  /** Lines 8-11: a new connection, with a fresh client id and socket, starts with no room. */
  function ConnectStep(w: World, c: ClientId, s: ConnId): (w': World)
    requires c !in w.socketOf && s !in w.socketOf.Values
    ensures w'.roomOf.Keys == w.roomOf.Keys + {c} && w'.roomOf[c] == None
    ensures forall d :: d in w.roomOf && d != c ==> w'.roomOf[d] == w.roomOf[d]
    ensures w'.socketOf.Keys == w.socketOf.Keys + {c} && w'.socketOf[c] == s
    ensures forall d :: d in w.socketOf ==> d in w'.socketOf && w'.socketOf[d] == w.socketOf[d]
    ensures w'.registry == w.registry && w'.outbox == w.outbox
  {
    w.(socketOf := w.socketOf[c := s], roomOf := w.roomOf[c := None])
  }

  /**
   * The join branch (lines 17-27). The connection's room becomes `roomId || null`. Without a
   * room id the registry is unchanged. With one, that room holds this connection's socket
   * under its client id, a room that was absent now has this connection as its only member,
   * no other room changes, and no earlier membership is left.
   */
  function JoinStep(w: World, c: ClientId, roomId: Option<string>): (w': World)
    requires c in w.roomOf && c in w.socketOf
    ensures w'.roomOf == w.roomOf[c := RoomKey(roomId)]
    ensures w'.socketOf == w.socketOf && w'.outbox == w.outbox
    ensures RoomKey(roomId).None? ==> w'.registry == w.registry
    ensures RoomKey(roomId).Some? ==>
      var r := RoomKey(roomId).value;
      && w'.registry.Keys == w.registry.Keys + {r}
      && IsMember(w'.registry, r, c) && w'.registry[r].sockets[c] == w.socketOf[c]
      && (r !in w.registry ==> w'.registry[r].sockets == map[c := w.socketOf[c]] && w'.registry[r].order == [c])
      && (r in w.registry ==> w'.registry[r].sockets == w.registry[r].sockets[c := w.socketOf[c]])
      && (r in w.registry ==> w'.registry[r].order == w.registry[r].order + (if c in w.registry[r].sockets then [] else [c]))
      && (forall q :: q in w.registry && q != r ==> w'.registry[q] == w.registry[q])
      && (forall q, k :: IsMember(w.registry, q, k) ==> IsMember(w'.registry, q, k))
  {
    var key := RoomKey(roomId);
    if key.None? then
      w.(roomOf := w.roomOf[c := None])
    else
      w.(roomOf := w.roomOf[c := key], registry := Enter(w.registry, key.value, c, w.socketOf[c]))
  }

  /**
   * The chat branch (lines 28-43). Only the outbox changes. Without a room (`null` or the
   * empty string), or when the room is not in the registry, nothing is sent; otherwise the
   * room's broadcast of the frame is appended, and no frame goes back to the sender's socket.
   */
  function ChatStep(w: World, c: ClientId, message: Option<string>): (w': World)
    requires c in w.roomOf && c in w.socketOf
    ensures w'.registry == w.registry && w'.socketOf == w.socketOf && w'.roomOf == w.roomOf
    ensures (w.roomOf[c].None? || w.roomOf[c].value == "" || w.roomOf[c].value !in w.registry) ==> w' == w
    ensures w.roomOf[c].Some? && w.roomOf[c].value != "" ==>
      w'.outbox == w.outbox + Broadcast(w.registry, w.roomOf[c].value, w.socketOf[c], Frame(message))
    ensures forall i :: |w.outbox| <= i < |w'.outbox| ==>
      w'.outbox[i].data == Frame(message) && w'.outbox[i].socket != w.socketOf[c]
  {
    match w.roomOf[c]
    case None => w
    case Some(r) =>
      if r == "" || r !in w.registry then w
      else w.(outbox := w.outbox + Broadcast(w.registry, r, w.socketOf[c], Frame(message)))
  }

  /**
   * The close handler (lines 50-61). The connection is gone. When its room is set and in
   * the registry it is no longer a member of that room, the room stays exactly when it has
   * another member, and no other room changes; otherwise the registry is unchanged.
   */
  function CloseStep(w: World, c: ClientId): (w': World)
    requires c in w.roomOf
    ensures w'.roomOf == w.roomOf - {c}
    ensures w'.socketOf == w.socketOf && w'.outbox == w.outbox
    ensures (w.roomOf[c].None? || w.roomOf[c].value == "" || w.roomOf[c].value !in w.registry) ==>
      w'.registry == w.registry
    ensures w.roomOf[c].Some? && w.roomOf[c].value != "" && w.roomOf[c].value in w.registry ==>
      var r := w.roomOf[c].value;
      && w'.registry.Keys <= w.registry.Keys
      && !IsMember(w'.registry, r, c)
      && (r in w'.registry <==> w.registry[r].sockets.Keys - {c} != {})
      && (r in w'.registry ==> w'.registry[r].sockets == w.registry[r].sockets - {c})
      && (r in w'.registry ==> w'.registry[r].order == Without(w.registry[r].order, c))
      && (forall q :: q in w.registry && q != r ==> q in w'.registry && w'.registry[q] == w.registry[q])
      && (forall q, k :: IsMember(w.registry, q, k) && (q, k) != (r, c) ==> IsMember(w'.registry, q, k))
  {
    var w1 := w.(roomOf := w.roomOf - {c});
    match w.roomOf[c]
    case None => w1
    case Some(r) =>
      if r != "" && r in w.registry then w1.(registry := Leave(w.registry, r, c))
      else w1
  }

  /** The message handler (lines 13-48); an unknown or malformed message changes nothing. */
  function HandleStep(w: World, c: ClientId, env: Envelope): (w': World)
    requires c in w.roomOf && c in w.socketOf
    ensures (env.Unknown? || env.Malformed?) ==> w' == w
    ensures w'.socketOf == w.socketOf && w'.roomOf.Keys == w.roomOf.Keys
  {
    match env
    case Join(roomId) => JoinStep(w, c, roomId)
    case Chat(message) => ChatStep(w, c, message)
    case Unknown => w
    case Malformed => w
  }

  /** The process starts in a state that satisfies the invariant. */
  lemma StartInv()
    ensures Inv(Start())
  {
  }

  /** Accepting a connection with a fresh client id and a fresh socket keeps the invariant. */
  lemma {:induction false} ConnectKeepsInv(w: World, c: ClientId, s: ConnId)
    requires Inv(w) && c !in w.socketOf && s !in w.socketOf.Values
    ensures Inv(ConnectStep(w, c, s))
  {
    var w' := ConnectStep(w, c, s);
    forall a, b | a in w'.socketOf && b in w'.socketOf && w'.socketOf[a] == w'.socketOf[b]
      ensures a == b
    {
      if a != c { assert w.socketOf[a] in w.socketOf.Values; }
      if b != c { assert w.socketOf[b] in w.socketOf.Values; }
    }
    forall v | v in w.socketOf.Values
      ensures v in w'.socketOf.Values
    {
      var d :| d in w.socketOf && w.socketOf[d] == v;
      assert w'.socketOf[d] == v;
    }
    forall r | r in w'.registry
      ensures HoldsOwnSockets(w'.registry[r], w'.socketOf)
    {
      assert HoldsOwnSockets(w.registry[r], w.socketOf);
    }
  }

  /** A join keeps the invariant, whatever room id it carries. */
  lemma {:induction false} JoinKeepsInv(w: World, c: ClientId, roomId: Option<string>)
    requires Inv(w) && c in w.roomOf
    ensures Inv(JoinStep(w, c, roomId))
  {
    var w' := JoinStep(w, c, roomId);
    var key := RoomKey(roomId);
    if key.Some? {
      EnterKeepsNonEmpty(w.registry, key.value, c, w.socketOf[c]);
      EnterKeepsOwnSockets(w.registry, w.socketOf, key.value, c);
    }
    forall d | d in w'.roomOf && w'.roomOf[d].Some?
      ensures w'.roomOf[d].value != "" && IsMember(w'.registry, w'.roomOf[d].value, d)
    {
      if d != c {
        assert IsMember(w.registry, w.roomOf[d].value, d);
      }
    }
  }

  /** A chat keeps the invariant: it only sends, and only to accepted sockets. */
  lemma {:induction false} ChatKeepsInv(w: World, c: ClientId, message: Option<string>)
    requires Inv(w) && c in w.roomOf
    ensures Inv(ChatStep(w, c, message))
  {
    var w' := ChatStep(w, c, message);
    if w.roomOf[c].Some? {
      var sent := Broadcast(w.registry, w.roomOf[c].value, w.socketOf[c], Frame(message));
      BroadcastToAccepted(w.registry, w.socketOf, w.roomOf[c].value, w.socketOf[c], Frame(message));
      forall i | 0 <= i < |w'.outbox|
        ensures w'.outbox[i].socket in w'.socketOf.Values
      {
        if i >= |w.outbox| { assert w'.outbox[i] == sent[i - |w.outbox|]; }
      }
    }
  }

  /** A close keeps the invariant: it leaves only the connection's own current room. */
  lemma {:induction false} CloseKeepsInv(w: World, c: ClientId)
    requires Inv(w) && c in w.roomOf
    ensures Inv(CloseStep(w, c))
  {
    var w' := CloseStep(w, c);
    if w.roomOf[c].Some? && w.roomOf[c].value in w.registry {
      LeaveKeepsNonEmpty(w.registry, w.roomOf[c].value, c);
      LeaveKeepsOwnSockets(w.registry, w.socketOf, w.roomOf[c].value, c);
    }
    forall d | d in w'.roomOf && w'.roomOf[d].Some?
      ensures w'.roomOf[d].value != "" && IsMember(w'.registry, w'.roomOf[d].value, d)
    {
      assert d != c && IsMember(w.registry, w.roomOf[d].value, d);
    }
  }

  /** Every message keeps the invariant. */
  lemma {:induction false} HandleKeepsInv(w: World, c: ClientId, env: Envelope)
    requires Inv(w) && c in w.roomOf
    ensures Inv(HandleStep(w, c, env))
  {
    match env
    case Join(roomId) => JoinKeepsInv(w, c, roomId);
    case Chat(message) => ChatKeepsInv(w, c, message);
    case Unknown =>
    case Malformed =>
  }

  /**
   * A chat from a connection in a room of size M sends the frame once to each of the other
   * M-1 members of that room and to nobody else.
   */
  lemma {:induction false} ChatReachesOthers(w: World, c: ClientId, message: Option<string>)
    requires Inv(w) && c in w.roomOf && w.roomOf[c].Some?
    ensures var r := w.roomOf[c].value;
      var sent := ChatStep(w, c, message).outbox[|w.outbox|..];
      && ChatStep(w, c, message).outbox == w.outbox + sent
      && |sent| == Size(w.registry[r]) - 1
      && DeliversToOthers(sent, w.registry[r].sockets, c, Frame(message))
  {
    var r := w.roomOf[c].value;
    var sent := Broadcast(w.registry, r, w.socketOf[c], Frame(message));
    assert ChatStep(w, c, message).outbox == w.outbox + sent;
    assert ChatStep(w, c, message).outbox[|w.outbox|..] == sent;
    BroadcastToOthers(w.registry, w.socketOf, r, c, Frame(message));
  }
}
