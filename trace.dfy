/**
 * Runs of the relay: the callbacks of any number of connections, interleaved in any order
 * as the event loop delivers them.
 */
module Trace {
  import opened Wrappers
  import opened RoomMaps
  import opened Registry
  import opened Relay

  /** One callback: a connection is accepted, a message arrives on one, or one closes. */
  datatype Event =
    | Accept(client: ClientId, socket: ConnId)
    | Receive(client: ClientId, env: Envelope)
    | Disconnect(client: ClientId)

  /**
   * The events the transport can produce in `w`: a new connection has an id and a socket
   * never used before, and messages and the close event arrive only on an open connection.
   */
  predicate Enabled(w: World, e: Event) {
    match e
    case Accept(c, s) => c !in w.socketOf && s !in w.socketOf.Values
    case Receive(c, _) => c in w.roomOf && c in w.socketOf
    case Disconnect(c) => c in w.roomOf
  }

  /** One callback run to completion; an event the transport cannot produce changes nothing. */
  function Step(w: World, e: Event): (w': World)
    ensures !Enabled(w, e) ==> w' == w
  {
    if !Enabled(w, e) then w
    else
      match e
      case Accept(c, s) => ConnectStep(w, c, s)
      case Receive(c, env) => HandleStep(w, c, env)
      case Disconnect(c) => CloseStep(w, c)
  }

  /** The callbacks `es`, one after another. */
  function Run(w: World, es: seq<Event>): World
    decreases |es|
  {
    if es == [] then w else Run(Step(w, es[0]), es[1..])
  }

  /** A run followed by one more callback is that callback applied after the run. */
  lemma {:induction false} RunAppend(w: World, es: seq<Event>, e: Event)
    ensures Run(w, es + [e]) == Step(Run(w, es), e)
    decreases |es|
  {
    if es == [] {
      assert [e][1..] == [];
    } else {
      assert (es + [e])[1..] == es[1..] + [e];
      RunAppend(Step(w, es[0]), es[1..], e);
    }
  }

  /** Every callback keeps the invariant. */
  lemma {:induction false} StepKeepsInv(w: World, e: Event)
    requires Inv(w)
    ensures Inv(Step(w, e))
  {
    if Enabled(w, e) {
      match e
      case Accept(c, s) => ConnectKeepsInv(w, c, s);
      case Receive(c, env) => HandleKeepsInv(w, c, env);
      case Disconnect(c) => CloseKeepsInv(w, c);
    }
  }

  /** Every run, of any length and interleaving, keeps the invariant. */
  lemma {:induction false} RunKeepsInv(w: World, es: seq<Event>)
    requires Inv(w)
    ensures Inv(Run(w, es))
    decreases |es|
  {
    if es != [] {
      StepKeepsInv(w, es[0]);
      RunKeepsInv(Step(w, es[0]), es[1..]);
    }
  }

  /** Every state the process reaches from its start satisfies the invariant. */
  lemma ReachableInv(es: seq<Event>)
    ensures Inv(Run(Start(), es))
  {
    StartInv();
    RunKeepsInv(Start(), es);
  }

  /** `e` is a join by `c` that names a room. */
  predicate JoinsRoom(e: Event, c: ClientId) {
    e.Receive? && e.client == c && e.env.Join? && RoomKey(e.env.roomId).Some?
  }

  /** Connection `c` has no room, is a member of no room, and no frame was sent to its socket. */
  predicate Unreached(w: World, c: ClientId) {
    && c in w.socketOf
    && (c in w.roomOf ==> w.roomOf[c] == None)
    && (forall r :: r in w.registry ==> c !in w.registry[r].sockets)
    && (forall i :: 0 <= i < |w.outbox| ==> w.outbox[i].socket != w.socketOf[c])
  }

  /** A chat by any connection sends nothing to an unreached connection. */
  lemma {:induction false} ChatKeepsUnreached(w: World, d: ClientId, message: Option<string>, c: ClientId)
    requires Inv(w) && Unreached(w, c) && d in w.roomOf && d in w.socketOf
    ensures Unreached(ChatStep(w, d, message), c)
  {
    var w' := ChatStep(w, d, message);
    if w.roomOf[d].Some? && w.roomOf[d].value in w.registry {
      var r := w.roomOf[d].value;
      var m := w.registry[r];
      var sent := Broadcast(w.registry, r, w.socketOf[d], Frame(message));
      assert w'.outbox == w.outbox + sent;
      assert forall k :: k in m.order ==> k in m.sockets;
      assert sent == Fanout(m.order, m.sockets, w.socketOf[d], Frame(message));
      FanoutFromMembers(m.order, m.sockets, w.socketOf[d], Frame(message));
      assert HoldsOwnSockets(m, w.socketOf);
      forall i | 0 <= i < |sent|
        ensures sent[i].socket != w.socketOf[c]
      {
        var k :| k in m.order && m.sockets[k] == sent[i].socket;
        assert k != c && w.socketOf[k] == sent[i].socket;
      }
      forall i | 0 <= i < |w'.outbox|
        ensures w'.outbox[i].socket != w'.socketOf[c]
      {
        if i >= |w.outbox| { assert w'.outbox[i] == sent[i - |w.outbox|]; }
      }
    }
  }

  /** A join by another connection does not make `c` a member of anything. */
  lemma {:induction false} JoinKeepsUnreached(w: World, d: ClientId, roomId: Option<string>, c: ClientId)
    requires Unreached(w, c) && d in w.roomOf && d in w.socketOf && d != c
    ensures Unreached(JoinStep(w, d, roomId), c)
  {
    var w' := JoinStep(w, d, roomId);
    var key := RoomKey(roomId);
    if key.Some? {
      forall r | r in w'.registry
        ensures c !in w'.registry[r].sockets
      {
        if r != key.value {
          assert w'.registry[r] == w.registry[r];
        }
      }
    }
  }

  /** A close only removes memberships, so it leaves `c` unreached. */
  lemma {:induction false} CloseKeepsUnreached(w: World, d: ClientId, c: ClientId)
    requires Unreached(w, c) && d in w.roomOf
    ensures Unreached(CloseStep(w, d), c)
  {
    var w' := CloseStep(w, d);
    forall r | r in w'.registry
      ensures c !in w'.registry[r].sockets
    {
      assert !IsMember(w.registry, r, c);
    }
  }

  /** A callback other than a join by `c` naming a room leaves `c` unreached. */
  lemma {:induction false} StepKeepsUnreached(w: World, e: Event, c: ClientId)
    requires Inv(w) && Unreached(w, c) && !JoinsRoom(e, c)
    ensures Unreached(Step(w, e), c)
  {
    if Enabled(w, e) {
      match e
      case Accept(d, s) =>
      case Receive(d, env) => {
        match env
        case Join(roomId) =>
          if d == c {
            assert RoomKey(roomId).None?;
          } else {
            JoinKeepsUnreached(w, d, roomId, c);
          }
        case Chat(message) => ChatKeepsUnreached(w, d, message, c);
        case Unknown =>
        case Malformed =>
      }
      case Disconnect(d) => CloseKeepsUnreached(w, d, c);
    }
  }

  /**
   * A connection that is accepted during a run and never sends a join naming a room is never
   * a member of any room and is never sent a frame; its own chats send nothing.
   */
  lemma {:induction false} NeverJoinedNeverReached(w: World, es: seq<Event>, c: ClientId)
    requires Inv(w) && (c !in w.socketOf || Unreached(w, c))
    requires forall i :: 0 <= i < |es| ==> !JoinsRoom(es[i], c)
    ensures c in Run(w, es).socketOf ==> Unreached(Run(w, es), c)
    decreases |es|
  {
    if es != [] {
      var w' := Step(w, es[0]);
      StepKeepsInv(w, es[0]);
      if c in w.socketOf {
        StepKeepsUnreached(w, es[0], c);
      } else if c in w'.socketOf {
        assert es[0] == Accept(c, w'.socketOf[c]);
        forall i | 0 <= i < |w.outbox|
          ensures w.outbox[i].socket != w'.socketOf[c]
        {
          assert w.outbox[i].socket in w.socketOf.Values;
        }
        assert Unreached(w', c);
      }
      assert forall i :: 0 <= i < |es[1..]| ==> es[1..][i] == es[i + 1];
      NeverJoinedNeverReached(w', es[1..], c);
    }
  }

  /** A connection that chats before it ever joins sends nothing and changes nothing. */
  lemma ScenarioChatBeforeJoin(a: ClientId, sa: ConnId, message: Option<string>)
    ensures ChatStep(ConnectStep(Start(), a, sa), a, message) == ConnectStep(Start(), a, sa)
  {
  }

  /** A chat from a connection that has no room changes nothing. */
  lemma UnreachedChatIsSilent(w: World, c: ClientId, message: Option<string>)
    requires Inv(w) && Unreached(w, c) && c in w.roomOf
    ensures Step(w, Receive(c, Chat(message))) == w
  {
  }

  /**
   * After the last member of a room closes, the room is gone: a later chat to it reaches
   * nobody and a later join creates it with the joiner as its only member.
   */
  lemma {:induction false} LastCloseDeletesRoom(w: World, c: ClientId, d: ClientId, roomId: string)
    requires Inv(w) && c in w.roomOf && w.roomOf[c] == Some(roomId)
    requires w.registry[roomId].sockets.Keys == {c}
    requires d in w.roomOf && d != c
    ensures roomId !in CloseStep(w, c).registry
    ensures JoinStep(CloseStep(w, c), d, Some(roomId)).registry[roomId].sockets == map[d := w.socketOf[d]]
    ensures forall message: Option<string> ::
      ChatStep(JoinStep(CloseStep(w, c), d, Some(roomId)), d, message).outbox == w.outbox
  {
    var w' := CloseStep(w, c);
    assert w.registry[roomId].sockets.Keys - {c} == {};
    assert d in w'.roomOf && d in w'.socketOf;
    var w'' := JoinStep(w', d, Some(roomId));
    assert w''.registry[roomId] == Entries([d], map[d := w.socketOf[d]]);
    forall message: Option<string>
      ensures ChatStep(w'', d, message).outbox == w.outbox
    {
      FanoutOne(d, w.socketOf[d], w.socketOf[d], Frame(message));
    }
  }

  /**
   * A connection that joins a second room stays a member of the first: a join does not
   * leave the earlier room.
   */
  lemma {:induction false} RejoinKeepsOldRoom(w: World, c: ClientId, first: RoomId, second: string)
    requires Inv(w) && c in w.roomOf && w.roomOf[c] == Some(first) && second != "" && second != first
    ensures var w' := JoinStep(w, c, Some(second));
      IsMember(w'.registry, first, c) && IsMember(w'.registry, second, c) && w'.roomOf[c] == Some(second)
  {
    assert IsMember(w.registry, first, c);
  }

  /**
   * A join without a room id sets the connection's room to null but does not take it out
   * of the room it joined before; a close then leaves it a member of that room.
   */
  lemma {:induction false} EmptyJoinThenCloseKeepsMembership(w: World, c: ClientId, r: RoomId)
    requires Inv(w) && c in w.roomOf && w.roomOf[c] == Some(r)
    ensures var w' := CloseStep(JoinStep(w, c, Some("")), c);
      IsMember(w'.registry, r, c) && c !in w'.roomOf
  {
    assert IsMember(w.registry, r, c);
  }


  /**
   * Two connections `a` and `b`, with sockets `sa` and `sb`, are accepted, then `a` joins
   * `ra` and `b` joins `rb`.
   */
  function TwoJoined(a: ClientId, b: ClientId, sa: ConnId, sb: ConnId, ra: string, rb: string): World
    requires a != b && sa != sb
  {
    var w1 := ConnectStep(Start(), a, sa);
    var w2 := ConnectStep(w1, b, sb);
    JoinStep(JoinStep(w2, a, Some(ra)), b, Some(rb))
  }

  /** The world after the two connections are accepted. */
  lemma TwoAccepted(a: ClientId, b: ClientId, sa: ConnId, sb: ConnId)
    requires a != b && sa != sb
    ensures ConnectStep(ConnectStep(Start(), a, sa), b, sb) ==
      World(map[], map[a := sa, b := sb], map[a := None, b := None], [])
  {
  }

  /** The first join creates the room with `a` as its only member. */
  lemma FirstJoin(a: ClientId, b: ClientId, sa: ConnId, sb: ConnId, ra: string)
    requires a != b && ra != ""
    ensures JoinStep(World(map[], map[a := sa, b := sb], map[a := None, b := None], []), a, Some(ra)) ==
      World(map[ra := Entries([a], map[a := sa])], map[a := sa, b := sb], map[a := Some(ra), b := None], [])
  {
  }

  /** The second join adds `b` after `a` in the same room, or creates the other room. */
  lemma SecondJoin(a: ClientId, b: ClientId, sa: ConnId, sb: ConnId, ra: string, rb: string)
    requires a != b && ra != "" && rb != ""
    ensures var w := JoinStep(World(map[ra := Entries([a], map[a := sa])], map[a := sa, b := sb], map[a := Some(ra), b := None], []), b, Some(rb));
      && w.roomOf == map[a := Some(ra), b := Some(rb)]
      && (ra == rb ==> w.registry == map[ra := Entries([a, b], map[a := sa, b := sb])])
      && (ra != rb ==> w.registry == map[ra := Entries([a], map[a := sa]), rb := Entries([b], map[b := sb])])
  {
    assert [a] + [b] == [a, b];
  }

  /** The world after TwoJoined: both rooms and both connections. */
  lemma {:induction false} TwoJoinedWorld(a: ClientId, b: ClientId, sa: ConnId, sb: ConnId, ra: string, rb: string)
    requires a != b && sa != sb && ra != "" && rb != ""
    ensures var w := TwoJoined(a, b, sa, sb, ra, rb);
      && w.socketOf == map[a := sa, b := sb]
      && w.roomOf == map[a := Some(ra), b := Some(rb)]
      && w.outbox == []
      && (ra == rb ==> w.registry == map[ra := Entries([a, b], map[a := sa, b := sb])])
      && (ra != rb ==> w.registry == map[ra := Entries([a], map[a := sa]), rb := Entries([b], map[b := sb])])
  {
    TwoAccepted(a, b, sa, sb);
    FirstJoin(a, b, sa, sb, ra);
    SecondJoin(a, b, sa, sb, ra, rb);
  }

  /** The frames a chat sends in a room whose members are `a` then `b`. */
  lemma {:induction false} FanoutTwo(a: ClientId, b: ClientId, sa: ConnId, sb: ConnId, sender: ConnId, data: string)
    requires a != b
    ensures Fanout([a, b], map[a := sa, b := sb], sender, data) ==
      (if sa != sender then [Send(sa, data)] else []) + (if sb != sender then [Send(sb, data)] else [])
  {
    var sockets := map[a := sa, b := sb];
    assert [a, b][..1] == [a] && [a][..0] == [];
    assert Fanout([a], sockets, sender, data) == if sa != sender then [Send(sa, data)] else [];
  }

  /** The frames a chat sends in a room whose only member is `a`. */
  lemma {:induction false} FanoutOne(a: ClientId, sa: ConnId, sender: ConnId, data: string)
    ensures Fanout([a], map[a := sa], sender, data) == if sa != sender then [Send(sa, data)] else []
  {
    assert [a][..0] == [];
  }

  /** Two connections in the same room: a chat from one reaches exactly the other. */
  lemma {:induction false} ScenarioSameRoom(a: ClientId, b: ClientId, sa: ConnId, sb: ConnId, r: string, message: Option<string>)
    requires a != b && sa != sb && r != ""
    ensures ChatStep(TwoJoined(a, b, sa, sb, r, r), a, message).outbox == [Send(sb, Frame(message))]
    ensures ChatStep(TwoJoined(a, b, sa, sb, r, r), b, message).outbox == [Send(sa, Frame(message))]
  {
    SameRoomIsBothIn(a, b, sa, sb, r);
    FanoutTwo(a, b, sa, sb, sa, Frame(message));
    FanoutTwo(a, b, sa, sb, sb, Frame(message));
  }

  /** Two connections in different rooms: a chat from either reaches nobody. */
  lemma {:induction false} ScenarioOtherRoom(a: ClientId, b: ClientId, sa: ConnId, sb: ConnId, ra: string, rb: string, message: Option<string>)
    requires a != b && sa != sb && ra != "" && rb != "" && ra != rb
    ensures ChatStep(TwoJoined(a, b, sa, sb, ra, rb), a, message).outbox == []
    ensures ChatStep(TwoJoined(a, b, sa, sb, ra, rb), b, message).outbox == []
  {
    TwoJoinedWorld(a, b, sa, sb, ra, rb);
    FanoutOne(a, sa, sa, Frame(message));
    FanoutOne(b, sb, sb, Frame(message));
  }

  /** The world in which `a` and then `b` have joined the same room `r`. */
  function BothIn(a: ClientId, b: ClientId, sa: ConnId, sb: ConnId, r: string): World
    requires a != b
  {
    assert Distinct([a, b]);
    World(map[r := Entries([a, b], map[a := sa, b := sb])], map[a := sa, b := sb], map[a := Some(r), b := Some(r)], [])
  }

  /** Two connections that join the same room reach BothIn. */
  lemma {:induction false} SameRoomIsBothIn(a: ClientId, b: ClientId, sa: ConnId, sb: ConnId, r: string)
    requires a != b && sa != sb && r != ""
    ensures TwoJoined(a, b, sa, sb, r, r) == BothIn(a, b, sa, sb, r)
  {
    TwoJoinedWorld(a, b, sa, sb, r, r);
  }

  /** The first member of a room of two closes: the other is left as the only member. */
  lemma {:induction false} CloseFirstOfTwo(a: ClientId, b: ClientId, sa: ConnId, sb: ConnId, r: string)
    requires a != b && r != ""
    ensures CloseStep(BothIn(a, b, sa, sb, r), a) ==
      World(map[r := Entries([b], map[b := sb])], map[a := sa, b := sb], map[b := Some(r)], [])
  {
    var w := BothIn(a, b, sa, sb, r);
    var m := w.registry[r];
    assert Without([a, b], a) == [b] by {
      assert [a, b][1..] == [b] && [b][1..] == [];
    }
    assert m.sockets - {a} == map[b := sb];
    assert Delete(m, a) == Entries([b], map[b := sb]);
    assert Leave(w.registry, r, a) == map[r := Entries([b], map[b := sb])];
    assert w.roomOf - {a} == map[b := Some(r)];
  }

  /**
   * After `a` closed, `b` is the only member of `r`: a chat from `b` reaches nobody, and when
   * `b` closes too the room is deleted.
   */
  lemma {:induction false} ScenarioLastMember(a: ClientId, b: ClientId, sa: ConnId, sb: ConnId, r: string, message: Option<string>)
    requires a != b && r != ""
    ensures var w := World(map[r := Entries([b], map[b := sb])], map[a := sa, b := sb], map[b := Some(r)], []);
      ChatStep(w, b, message).outbox == [] && CloseStep(w, b).registry == map[]
  {
    var w := World(map[r := Entries([b], map[b := sb])], map[a := sa, b := sb], map[b := Some(r)], []);
    FanoutOne(b, sb, sb, Frame(message));
    assert w.registry[r].sockets.Keys - {b} == {};
  }
}
