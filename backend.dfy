/**
 * The relay process of backend/src/index.ts as an object: `allSocket` and the per-connection
 * variables are fields that the callbacks update in place. Each method performs one callback
 * and is proved to reach exactly the World that the matching step of `Relay` describes, so
 * everything proved about the steps holds of the object.
 */
module Backend {
  import opened Wrappers
  import opened RoomMaps
  import opened Registry
  import opened Relay

  class Server {
    /** `allSocket`: room id to the member map of that room. */
    var registry: Rooms
    /** The socket of every connection accepted so far. */
    var socketOf: map<ClientId, ConnId>
    /** The `roomId` variable of every open connection. */
    var roomOf: map<ClientId, Option<RoomId>>
    /** Every `send`, oldest first. */
    var outbox: seq<Send>

    /** The fields as one value. */
    function State(): World
      reads this
    {
      World(registry, socketOf, roomOf, outbox)
    }

    predicate Valid()
      reads this
    {
      Inv(State())
    }

    /** Lines 5 and 8: the process starts with no rooms and no connections. */
    constructor()
      ensures Valid() && State() == Start()
    {
      registry := map[];
      socketOf := map[];
      roomOf := map[];
      outbox := [];
      new;
      StartInv();
    }

    /** Lines 8-11: a connection `c` with socket `s` is accepted; its room starts as null. */
    method Connect(c: ClientId, s: ConnId)
      requires Valid() && c !in socketOf && s !in socketOf.Values
      modifies this
      ensures Valid() && State() == ConnectStep(old(State()), c, s)
    {
      ConnectKeepsInv(State(), c, s);
      socketOf := socketOf[c := s];
      roomOf := roomOf[c := None];
    }

    /** Lines 24-27: create room `r` when it is absent, then store `s` under `c` in it. */
    method AddMember(r: RoomId, c: ClientId, s: ConnId)
      modifies this
      ensures registry == Enter(old(registry), r, c, s)
      ensures socketOf == old(socketOf) && roomOf == old(roomOf) && outbox == old(outbox)
    {
      if r !in registry {
        registry := registry[r := Empty()];
      }
      EnterInPlace(old(registry), registry, r, c, s);
      registry := registry[r := Set(registry[r], c, s)];
    }

    /** Lines 17-27: `c` joins the room its message names. */
    method Join(c: ClientId, roomId: Option<string>)
      requires Valid() && c in roomOf && c in socketOf
      modifies this
      ensures Valid() && State() == JoinStep(old(State()), c, roomId)
    {
      JoinKeepsInv(State(), c, roomId);
      var key := RoomKey(roomId);
      roomOf := roomOf[c := key];
      if key.Some? {
        AddMember(key.value, c, socketOf[c]);
      }
    }

    /**
     * Lines 39-43: `forEach` over the members of a room, in insertion order, sending `data`
     * to every socket other than `me`.
     */
    method SendToOthers(members: RoomMap, me: ConnId, data: string)
      modifies this
      ensures registry == old(registry) && socketOf == old(socketOf) && roomOf == old(roomOf)
      ensures outbox == old(outbox) + Fanout(members.order, members.sockets, me, data)
    {
      assert forall k :: k in members.order ==> k in members.sockets;
      for i := 0 to |members.order|
        invariant registry == old(registry) && socketOf == old(socketOf) && roomOf == old(roomOf)
        invariant outbox == old(outbox) + Fanout(members.order[..i], members.sockets, me, data)
      {
        var k := members.order[i];
        assert members.order[..i + 1][..i] == members.order[..i];
        if members.sockets[k] != me {
          outbox := outbox + [Send(members.sockets[k], data)];
        }
      }
      assert members.order[..|members.order|] == members.order;
    }

    /**
     * Lines 28-43: `c` chats. Without a room, or when its room is not in the registry,
     * nothing is sent; otherwise the room's members are sent the frame.
     */
    method Chat(c: ClientId, message: Option<string>)
      requires Valid() && c in roomOf && c in socketOf
      modifies this
      ensures Valid() && State() == ChatStep(old(State()), c, message)
    {
      ChatKeepsInv(State(), c, message);
      if roomOf[c].None? || roomOf[c].value == "" || roomOf[c].value !in registry {
        return;
      }
      SendToOthers(registry[roomOf[c].value], socketOf[c], Frame(message));
    }

    /** Lines 54-60: delete `c` from room `r`, then the room itself once it is empty. */
    method RemoveMember(r: RoomId, c: ClientId)
      requires r in registry
      modifies this
      ensures registry == Leave(old(registry), r, c)
      ensures socketOf == old(socketOf) && roomOf == old(roomOf) && outbox == old(outbox)
    {
      LeaveInPlace(registry, r, c);
      var members := Delete(registry[r], c);
      registry := registry[r := members];
      if Size(members) == 0 {
        registry := registry - {r};
      }
    }

    /**
     * Lines 50-61: `c` closes. When its room is set and in the registry, `c` leaves that
     * room; in every case the connection is gone.
     */
    method Close(c: ClientId)
      requires Valid() && c in roomOf
      modifies this
      ensures Valid() && State() == CloseStep(old(State()), c)
    {
      CloseKeepsInv(State(), c);
      var current := roomOf[c];
      roomOf := roomOf - {c};
      if current.Some? && current.value != "" && current.value in registry {
        RemoveMember(current.value, c);
      }
    }

    /** Lines 13-48: one inbound message; an unknown or malformed one changes nothing. */
    method Handle(c: ClientId, env: Envelope)
      requires Valid() && c in roomOf && c in socketOf
      modifies this
      ensures Valid() && State() == HandleStep(old(State()), c, env)
    {
      match env
      case Join(roomId) => Join(c, roomId);
      case Chat(message) => Chat(c, message);
      case Unknown =>
      case Malformed =>
    }
  }
}
