/**
 * The process-wide registry `allSocket` of backend/src/index.ts:4-5: from room id to the
 * member map of that room. Rooms are created lazily by a join (lines 24-27) and deleted when
 * a close leaves them empty (lines 53-60); a chat fans a frame out over one room (lines 34-43).
 */
module Registry {
  import opened RoomMaps

  type RoomId = string

  type Rooms = map<RoomId, RoomMap>

  /** One `socket.send(data)`. */
  datatype Send = Send(socket: ConnId, data: string)

  /** No two client ids share a socket. */
  predicate Injective(m: map<ClientId, ConnId>) {
    forall a, b :: a in m && b in m && m[a] == m[b] ==> a == b
  }

  /** No room has zero members. */
  predicate NonEmpty(rooms: Rooms) {
    forall r :: r in rooms ==> Size(rooms[r]) > 0
  }

  /** The room stores under each client id that client's own socket. */
  predicate HoldsOwnSockets(m: RoomMap, socketOf: map<ClientId, ConnId>) {
    forall k :: k in m.sockets ==> k in socketOf && m.sockets[k] == socketOf[k]
  }

  /** Each room stores under each client id that client's own socket. */
  predicate OwnSockets(rooms: Rooms, socketOf: map<ClientId, ConnId>) {
    forall r :: r in rooms ==> HoldsOwnSockets(rooms[r], socketOf)
  }

  /** `k` is a member of room `r`. */
  predicate IsMember(rooms: Rooms, r: RoomId, k: ClientId) {
    r in rooms && k in rooms[r].sockets
  }

  /**
   * Lines 24-27: create room `r` when it is absent, then store socket `s` under client id `c`
   * in it. Every earlier member of every room stays, and no other room changes.
   */
  function Enter(rooms: Rooms, r: RoomId, c: ClientId, s: ConnId): (rooms': Rooms)
    ensures rooms'.Keys == rooms.Keys + {r}
    ensures rooms'[r].sockets == (if r in rooms then rooms[r].sockets else map[])[c := s]
    ensures r !in rooms ==> rooms'[r].order == [c]
    ensures r in rooms ==> rooms'[r].order == rooms[r].order + (if c in rooms[r].sockets then [] else [c])
    ensures forall q :: q in rooms && q != r ==> rooms'[q] == rooms[q]
    ensures forall q, k :: IsMember(rooms, q, k) ==> IsMember(rooms', q, k)
  {
    var members := if r in rooms then rooms[r] else Empty();
    rooms[r := Set(members, c, s)]
  }

  /**
   * Lines 54-60: delete client id `c` from room `r`, and delete the room when that leaves it
   * with no members. Every other membership stays, and no other room changes.
   */
  function Leave(rooms: Rooms, r: RoomId, c: ClientId): (rooms': Rooms)
    requires r in rooms
    ensures rooms'.Keys <= rooms.Keys
    ensures r in rooms' <==> rooms[r].sockets.Keys - {c} != {}
    ensures r in rooms' ==> rooms'[r].sockets == rooms[r].sockets - {c}
    ensures r in rooms' ==> rooms'[r].order == Without(rooms[r].order, c)
    ensures forall q :: q in rooms && q != r ==> q in rooms' && rooms'[q] == rooms[q]
    ensures forall q, k :: IsMember(rooms, q, k) && (q, k) != (r, c) ==> IsMember(rooms', q, k)
  {
    var m := Delete(rooms[r], c);
    EmptyIffNoKeys(m);
    assert m.sockets.Keys == rooms[r].sockets.Keys - {c};
    if Size(m) == 0 then rooms - {r} else rooms[r := m]
  }

  /** Enter done as the source does it: first create the room if absent, then set the key. */
  lemma EnterInPlace(rooms: Rooms, created: Rooms, r: RoomId, c: ClientId, s: ConnId)
    requires created == if r in rooms then rooms else rooms[r := Empty()]
    ensures created[r := Set(created[r], c, s)] == Enter(rooms, r, c, s)
  {
  }

  /** Leave done as the source does it: first delete the key, then the room if it is empty. */
  lemma LeaveInPlace(rooms: Rooms, r: RoomId, c: ClientId)
    requires r in rooms
    ensures var m := Delete(rooms[r], c);
      Leave(rooms, r, c) == if Size(m) == 0 then rooms[r := m] - {r} else rooms[r := m]
  {
    var m := Delete(rooms[r], c);
    if Size(m) == 0 {
      assert rooms[r := m] - {r} == rooms - {r};
    }
  }

  /** Leaving a non-empty room one is not a member of changes nothing. */
  lemma LeaveAsNonMember(rooms: Rooms, r: RoomId, c: ClientId)
    requires NonEmpty(rooms) && r in rooms && c !in rooms[r].sockets
    ensures Leave(rooms, r, c) == rooms
  {
    DeleteAbsent(rooms[r], c);
    EmptyIffNoKeys(rooms[r]);
  }

  /**
   * The sends of `roomClients.forEach` over the keys `keys` (in iteration order) of a room:
   * one frame to each member whose socket is not the sender's (lines 39-43).
   */
  function Fanout(keys: seq<ClientId>, sockets: map<ClientId, ConnId>, sender: ConnId, data: string): (sent: seq<Send>)
    requires forall k :: k in keys ==> k in sockets
    ensures |sent| <= |keys|
    ensures forall i :: 0 <= i < |sent| ==> sent[i].data == data && sent[i].socket != sender
  {
    if keys == [] then []
    else
      var k := keys[|keys| - 1];
      var prefix := keys[..|keys| - 1];
      assert forall x :: x in prefix ==> x in keys;
      Fanout(prefix, sockets, sender, data) + if sockets[k] != sender then [Send(sockets[k], data)] else []
  }

  /** Every send goes to the socket stored under one of `keys`. */
  predicate OnlyTo(sent: seq<Send>, keys: seq<ClientId>, sockets: map<ClientId, ConnId>)
    requires forall k :: k in keys ==> k in sockets
  {
    forall i :: 0 <= i < |sent| ==> exists k :: k in keys && sockets[k] == sent[i].socket
  }

  /** Every key of `keys` whose socket is not `sender` is sent at least one frame. */
  predicate ReachesAllBut(sent: seq<Send>, keys: seq<ClientId>, sockets: map<ClientId, ConnId>, sender: ConnId)
    requires forall k :: k in keys ==> k in sockets
  {
    forall k :: k in keys && sockets[k] != sender ==> exists i :: 0 <= i < |sent| && sent[i].socket == sockets[k]
  }

  /** No socket is sent two frames. */
  predicate NoRepeats(sent: seq<Send>) {
    forall i, j :: 0 <= i < j < |sent| ==> sent[i].socket != sent[j].socket
  }

  /** Every frame of a fanout goes to the socket of one of the keys. */
  lemma {:induction false} FanoutFromMembers(keys: seq<ClientId>, sockets: map<ClientId, ConnId>, sender: ConnId, data: string)
    requires forall k :: k in keys ==> k in sockets
    ensures OnlyTo(Fanout(keys, sockets, sender, data), keys, sockets)
  {
    var sent := Fanout(keys, sockets, sender, data);
    if keys != [] {
      var last := keys[|keys| - 1];
      var prefix := keys[..|keys| - 1];
      assert forall x :: x in prefix ==> x in keys;
      FanoutFromMembers(prefix, sockets, sender, data);
      var head := Fanout(prefix, sockets, sender, data);
      forall i | 0 <= i < |sent|
        ensures exists k :: k in keys && sockets[k] == sent[i].socket
      {
        if i < |head| {
          assert sent[i] == head[i];
          var k :| k in prefix && sockets[k] == head[i].socket;
          assert k in keys;
        } else {
          assert sent[i].socket == sockets[last];
          assert last in keys;
        }
      }
    }
  }

  /** Every key whose socket is not the sender's is sent a frame by a fanout. */
  lemma {:induction false} FanoutReachesOthers(keys: seq<ClientId>, sockets: map<ClientId, ConnId>, sender: ConnId, data: string)
    requires forall k :: k in keys ==> k in sockets
    ensures ReachesAllBut(Fanout(keys, sockets, sender, data), keys, sockets, sender)
  {
    var sent := Fanout(keys, sockets, sender, data);
    if keys != [] {
      var last := keys[|keys| - 1];
      var prefix := keys[..|keys| - 1];
      assert forall x :: x in prefix ==> x in keys;
      FanoutReachesOthers(prefix, sockets, sender, data);
      var head := Fanout(prefix, sockets, sender, data);
      assert keys == prefix + [last];
      forall k | k in keys && sockets[k] != sender
        ensures exists i :: 0 <= i < |sent| && sent[i].socket == sockets[k]
      {
        if k in prefix {
          var i :| 0 <= i < |head| && head[i].socket == sockets[k];
          assert sent[i] == head[i];
        } else {
          assert k == last;
          assert sent == head + [Send(sockets[last], data)];
          assert sent[|head|].socket == sockets[k];
        }
      }
    }
  }

  /** Over distinct keys with distinct sockets, no socket receives two frames of one fanout. */
  lemma {:induction false} FanoutOnce(keys: seq<ClientId>, sockets: map<ClientId, ConnId>, sender: ConnId, data: string)
    requires forall k :: k in keys ==> k in sockets
    requires Distinct(keys) && Injective(sockets)
    ensures NoRepeats(Fanout(keys, sockets, sender, data))
  {
    if keys != [] {
      var last := keys[|keys| - 1];
      var prefix := keys[..|keys| - 1];
      assert forall x :: x in prefix ==> x in keys;
      FanoutOnce(prefix, sockets, sender, data);
      FanoutFromMembers(prefix, sockets, sender, data);
      var head := Fanout(prefix, sockets, sender, data);
      var sent := Fanout(keys, sockets, sender, data);
      if |sent| > |head| {
        forall i | 0 <= i < |head|
          ensures head[i].socket != sockets[last]
        {
          var k :| k in prefix && sockets[k] == head[i].socket;
          var p :| 0 <= p < |prefix| && prefix[p] == k;
          assert keys[p] == k && keys[|keys| - 1] == last;
        }
        forall i, j | 0 <= i < j < |sent|
          ensures sent[i].socket != sent[j].socket
        {
          assert sent[i] == head[i];
          if j < |head| {
            assert sent[j] == head[j];
          }
        }
      }
    }
  }

  /** A fanout sends one frame per key, less one when a key holds the sender's own socket. */
  lemma {:induction false} FanoutCount(keys: seq<ClientId>, sockets: map<ClientId, ConnId>, sender: ConnId, data: string, me: ClientId)
    requires forall k :: k in keys ==> k in sockets
    requires Distinct(keys) && Injective(sockets)
    requires me in sockets && sockets[me] == sender
    ensures |Fanout(keys, sockets, sender, data)| == if me in keys then |keys| - 1 else |keys|
  {
    if keys != [] {
      var last := keys[|keys| - 1];
      var prefix := keys[..|keys| - 1];
      assert forall x :: x in prefix ==> x in keys;
      assert Distinct(prefix);
      FanoutCount(prefix, sockets, sender, data, me);
      assert keys == prefix + [last];
      if last == me {
        assert forall p :: 0 <= p < |prefix| ==> prefix[p] == keys[p] != keys[|keys| - 1];
        assert me !in prefix;
      } else {
        assert sockets[last] != sender;
        assert me in keys <==> me in prefix;
      }
    }
  }


  /** `roomClients.forEach(...)` over room `r`; a room that is absent has no recipients. */
  function Broadcast(rooms: Rooms, r: RoomId, sender: ConnId, data: string): (sent: seq<Send>)
    ensures r !in rooms ==> sent == []
    ensures forall i :: 0 <= i < |sent| ==> sent[i].data == data && sent[i].socket != sender
  {
    if r !in rooms then []
    else
      var m := rooms[r];
      assert forall k :: k in m.order ==> k in m.sockets;
      Fanout(m.order, m.sockets, sender, data)
  }

  /**
   * `sent` delivers `data` to exactly the members of `members` other than `sender`, one
   * frame each, and to no one else.
   */
  predicate DeliversToOthers(sent: seq<Send>, members: map<ClientId, ConnId>, sender: ClientId, data: string) {
    && (forall i :: 0 <= i < |sent| ==>
          sent[i].data == data && exists k :: k in members && k != sender && members[k] == sent[i].socket)
    && (forall k :: k in members && k != sender ==> exists i :: 0 <= i < |sent| && sent[i].socket == members[k])
    && NoRepeats(sent)
  }

  /**
   * A broadcast by member `c` of a room of size M sends `data` once to each of the other
   * M-1 members and to nobody else. The sockets are compared, and they coincide with the
   * client ids because each connection has a socket of its own.
   */
  lemma {:induction false} BroadcastToOthers(rooms: Rooms, socketOf: map<ClientId, ConnId>, r: RoomId, c: ClientId, data: string)
    requires OwnSockets(rooms, socketOf) && Injective(socketOf) && IsMember(rooms, r, c)
    ensures |Broadcast(rooms, r, socketOf[c], data)| == Size(rooms[r]) - 1
    ensures DeliversToOthers(Broadcast(rooms, r, socketOf[c], data), rooms[r].sockets, c, data)
  {
    var m := rooms[r];
    var me := socketOf[c];
    assert forall k :: k in m.order ==> k in m.sockets;
    var sent := Fanout(m.order, m.sockets, me, data);
    assert Broadcast(rooms, r, me, data) == sent;
    assert Injective(m.sockets) by {
      forall a, b | a in m.sockets && b in m.sockets && m.sockets[a] == m.sockets[b]
        ensures a == b
      {
        assert socketOf[a] == socketOf[b];
      }
    }
    assert m.sockets[c] == me;
    FanoutCount(m.order, m.sockets, me, data, c);
    FanoutFromMembers(m.order, m.sockets, me, data);
    FanoutReachesOthers(m.order, m.sockets, me, data);
    FanoutOnce(m.order, m.sockets, me, data);
    forall i | 0 <= i < |sent|
      ensures exists k :: k in m.sockets && k != c && m.sockets[k] == sent[i].socket
    {
      var k :| k in m.order && m.sockets[k] == sent[i].socket;
      assert k != c;
    }
    forall k | k in m.sockets && k != c
      ensures exists i :: 0 <= i < |sent| && sent[i].socket == m.sockets[k]
    {
      assert k in m.order && m.sockets[k] != me;
    }
  }

  /** Every frame of a broadcast goes to the socket of an accepted connection. */
  lemma {:induction false} BroadcastToAccepted(rooms: Rooms, socketOf: map<ClientId, ConnId>, r: RoomId, sender: ConnId, data: string)
    requires OwnSockets(rooms, socketOf)
    ensures forall i :: 0 <= i < |Broadcast(rooms, r, sender, data)| ==> Broadcast(rooms, r, sender, data)[i].socket in socketOf.Values
  {
    if r in rooms {
      var m := rooms[r];
      assert forall k :: k in m.order ==> k in m.sockets;
      var sent := Fanout(m.order, m.sockets, sender, data);
      FanoutFromMembers(m.order, m.sockets, sender, data);
      forall i | 0 <= i < |sent|
        ensures sent[i].socket in socketOf.Values
      {
        var k :| k in m.order && m.sockets[k] == sent[i].socket;
        assert socketOf[k] == sent[i].socket;
      }
    }
  }

  /** Entering a room keeps every room non-empty. */
  lemma {:induction false} EnterKeepsNonEmpty(rooms: Rooms, r: RoomId, c: ClientId, s: ConnId)
    requires NonEmpty(rooms)
    ensures NonEmpty(Enter(rooms, r, c, s))
  {
    var rooms' := Enter(rooms, r, c, s);
    forall q | q in rooms'
      ensures Size(rooms'[q]) > 0
    {
      if q == r {
        EmptyIffNoKeys(rooms'[q]);
      }
    }
  }

  /** Leaving a room keeps every room non-empty: an emptied room is deleted. */
  lemma {:induction false} LeaveKeepsNonEmpty(rooms: Rooms, r: RoomId, c: ClientId)
    requires NonEmpty(rooms) && r in rooms
    ensures NonEmpty(Leave(rooms, r, c))
  {
    var rooms' := Leave(rooms, r, c);
    forall q | q in rooms'
      ensures Size(rooms'[q]) > 0
    {
      if q == r {
        EmptyIffNoKeys(rooms'[q]);
        assert rooms'[q].sockets.Keys == rooms[r].sockets.Keys - {c};
      }
    }
  }

  /** Entering with a connection's own socket keeps every stored socket its owner's. */
  lemma {:induction false} EnterKeepsOwnSockets(rooms: Rooms, socketOf: map<ClientId, ConnId>, r: RoomId, c: ClientId)
    requires OwnSockets(rooms, socketOf) && c in socketOf
    ensures OwnSockets(Enter(rooms, r, c, socketOf[c]), socketOf)
  {
    var rooms' := Enter(rooms, r, c, socketOf[c]);
    assert HoldsOwnSockets(rooms'[r], socketOf) by {
      if r in rooms { assert HoldsOwnSockets(rooms[r], socketOf); }
    }
  }

  /** Leaving keeps every stored socket its owner's. */
  lemma {:induction false} LeaveKeepsOwnSockets(rooms: Rooms, socketOf: map<ClientId, ConnId>, r: RoomId, c: ClientId)
    requires OwnSockets(rooms, socketOf) && r in rooms
    ensures OwnSockets(Leave(rooms, r, c), socketOf)
  {
    var rooms' := Leave(rooms, r, c);
    if r in rooms' {
      assert HoldsOwnSockets(rooms[r], socketOf);
    }
  }
}
