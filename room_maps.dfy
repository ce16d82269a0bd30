/**
 * The member map of one room: a JavaScript `Map<string, WebSocket>` from client id to the
 * socket of that client (backend/src/index.ts:4). A JavaScript Map remembers insertion order,
 * and `forEach` visits the entries in that order, so the map is kept as its keys in
 * insertion order together with the value stored under each key.
 */
module RoomMaps {

  /** The short random id a connection is given when it is accepted. */
  type ClientId = string

  /** The identity of a socket object (JavaScript compares sockets by reference). */
  type ConnId = nat

  /** No key occurs twice. */
  predicate Distinct(s: seq<ClientId>) {
    forall i, j :: 0 <= i < j < |s| ==> s[i] != s[j]
  }

  /** The raw representation of a Map: keys in insertion order and the value under each key. */
  datatype Entries = Entries(order: seq<ClientId>, sockets: map<ClientId, ConnId>)

  /** The keys in `order` are exactly the keys of `sockets`, each listed once. */
  predicate WellFormed(e: Entries) {
    && Distinct(e.order)
    && (forall c :: c in e.order ==> c in e.sockets)
    && (forall c :: c in e.sockets ==> c in e.order)
  }

  type RoomMap = e: Entries | WellFormed(e) witness Entries([], map[])

  /** `Map.prototype.size`. */
  function Size(m: RoomMap): nat {
    |m.order|
  }

  /** `new Map()`. */
  function Empty(): (r: RoomMap)
    ensures r.sockets == map[] && Size(r) == 0
  {
    Entries([], map[])
  }

  /**
   * `Map.prototype.set(c, s)`: the value under `c` becomes `s`; a new key goes to the end of
   * the iteration order, an existing key keeps its place.
   */
  function Set(m: RoomMap, c: ClientId, s: ConnId): (r: RoomMap)
    ensures r.sockets == m.sockets[c := s]
    ensures Size(r) == if c in m.sockets then Size(m) else Size(m) + 1
    ensures forall i :: 0 <= i < Size(m) ==> r.order[i] == m.order[i]
    ensures c !in m.sockets ==> r.order[Size(m)] == c
  {
    if c in m.sockets then
      Entries(m.order, m.sockets[c := s])
    else
      var order := m.order + [c];
      assert forall x :: x in order <==> x in m.order || x == c;
      Entries(order, m.sockets[c := s])
  }

  /** The keys of `s` other than `c`, in their original order. */
  function Without(s: seq<ClientId>, c: ClientId): (r: seq<ClientId>)
    ensures forall x :: x in r <==> x in s && x != c
    ensures Distinct(s) ==> Distinct(r)
    ensures Distinct(s) ==> |r| == if c in s then |s| - 1 else |s|
  {
    if s == [] then []
    else if s[0] == c then Without(s[1..], c)
    else
      var rest := Without(s[1..], c);
      assert Distinct(s) ==> s[0] !in s[1..] && Distinct(s[1..]);
      assert forall k :: 0 < k <= |rest| ==> ([s[0]] + rest)[k] == rest[k - 1];
      [s[0]] + rest
  }

  /**
   * `Map.prototype.delete(c)`: the key `c` and its value are gone, the other entries keep
   * their values and their order; the size drops by one exactly when `c` was a key.
   */
  function Delete(m: RoomMap, c: ClientId): (r: RoomMap)
    ensures r.sockets == m.sockets - {c}
    ensures Size(r) == if c in m.sockets then Size(m) - 1 else Size(m)
    ensures r.order == Without(m.order, c)
  {
    Entries(Without(m.order, c), m.sockets - {c})
  }

  /**
   * `Without` filters each part of a sequence separately, and keeps a single key exactly when
   * it is not `c`: it is the in-order filter, so the remaining keys keep their order.
   */
  lemma {:induction false} WithoutAppend(s: seq<ClientId>, t: seq<ClientId>, c: ClientId)
    ensures Without(s + t, c) == Without(s, c) + Without(t, c)
    ensures Without([c], c) == [] && forall x :: x != c ==> Without([x], c) == [x]
    decreases |s|
  {
    assert [c][1..] == [];
    if s == [] {
      assert s + t == t;
    } else {
      assert (s + t)[0] == s[0] && (s + t)[1..] == s[1..] + t;
      WithoutAppend(s[1..], t, c);
    }
  }

  /** Removing a key that is not there changes nothing. */
  lemma {:induction false} WithoutAbsent(s: seq<ClientId>, c: ClientId)
    requires c !in s
    ensures Without(s, c) == s
  {
    if s != [] {
      WithoutAbsent(s[1..], c);
      assert [s[0]] + s[1..] == s;
    }
  }

  /** `delete` of a key that is not in the map leaves the map as it was. */
  lemma DeleteAbsent(m: RoomMap, c: ClientId)
    requires c !in m.sockets
    ensures Delete(m, c) == m
  {
    WithoutAbsent(m.order, c);
    assert m.sockets - {c} == m.sockets;
  }

  /** The size of a room map is the number of its keys. */
  lemma {:induction false} SizeCountsKeys(m: RoomMap)
    ensures Size(m) == |m.sockets|
    decreases Size(m)
  {
    if Size(m) == 0 {
      assert forall x :: x !in m.sockets;
      assert m.sockets == map[];
    } else {
      var c := m.order[0];
      var d := Delete(m, c);
      SizeCountsKeys(d);
      assert d.sockets.Keys == m.sockets.Keys - {c};
    }
  }

  /** A room map has size zero exactly when it has no keys. */
  lemma EmptyIffNoKeys(m: RoomMap)
    ensures Size(m) == 0 <==> m.sockets == map[]
  {
    if Size(m) > 0 {
      assert m.order[0] in m.sockets;
    }
  }
}
