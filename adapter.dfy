/** The part of the Socket.IO in-memory adapter that the event router relies on:
    the `rooms` table (room name to member socket ids) and the `sids` set of
    connected socket ids, with `socket.join` and `socket.leave`.

    Two behaviours of the adapter are modelling assumptions, since the router's
    own file does not contain them:
    - a socket that connects becomes the member of a private room named by its
      own id (`Connect`, kept as `PrivateRooms`);
    - a room's key is removed from `rooms` when its last member leaves (`Leave`,
      kept as the "no empty room" clause of `Valid`). */
module Adapter {
  import opened Seqs

  /** Socket ids and room names are both strings and share one name space:
      a socket's private room is named by its id. */
  type Sid = string
  type Room = string

  /** `order` is the insertion order of the keys of the adapter's `rooms` map
      (a JavaScript `Map` iterates its keys in that order); `rooms[r]` lists the
      members of room `r` in the order they joined (a JavaScript `Set`). */
  datatype Registry = Registry(order: seq<Room>, rooms: map<Room, seq<Sid>>, sids: set<Sid>)

  /** No socket connected, no room. */
  const Empty := Registry([], map[], {})

  /** The shape the adapter keeps: each key listed once in `order`, no room
      without members, no socket twice in a room, only connected sockets in rooms. */
  ghost predicate Valid(g: Registry) {
    && Distinct(g.order)
    && (forall r :: r in g.order <==> r in g.rooms)
    && (forall r | r in g.rooms :: g.rooms[r] != [] && Distinct(g.rooms[r]))
    && (forall r, s | r in g.rooms && s in g.rooms[r] :: s in g.sids)
  }

  /** Every connected socket is in the private room named by its id. */
  ghost predicate PrivateRooms(g: Registry) {
    forall s | s in g.sids :: s in g.rooms && s in g.rooms[s]
  }

  /** The members of room `r`; a room that is not a key has none. */
  function Members(g: Registry, r: Room): seq<Sid> {
    if r in g.rooms then g.rooms[r] else []
  }

  /** `socket.join(r)` for the socket `s`: a new room is appended to the key
      order; joining a room twice changes nothing. */
  function Join(g: Registry, s: Sid, r: Room): Registry {
    if r in g.rooms then
      if s in g.rooms[r] then g else g.(rooms := g.rooms[r := g.rooms[r] + [s]])
    else
      g.(order := g.order + [r], rooms := g.rooms[r := [s]])
  }

  /** `socket.leave(r)` for the socket `s`: a room left without members loses
      its key; leaving a room one is not in changes nothing. */
  function Leave(g: Registry, s: Sid, r: Room): Registry {
    if r in g.rooms && s in g.rooms[r] then
      var rest := Without(g.rooms[r], {s});
      if rest == [] then g.(order := Without(g.order, {r}), rooms := g.rooms - {r})
      else g.(rooms := g.rooms[r := rest])
    else
      g
  }

  /** A socket connects: it is registered and joins its private room. */
  function Connect(g: Registry, s: Sid): Registry {
    Join(g.(sids := g.sids + {s}), s, s)
  }

  /** Joining keeps the adapter's shape and every socket's private room. */
  lemma JoinValid(g: Registry, s: Sid, r: Room)
    requires Valid(g) && s in g.sids
    ensures Valid(Join(g, s, r))
    ensures PrivateRooms(g) ==> PrivateRooms(Join(g, s, r))
  {
  }

  /** After joining, `s` is a member of `r`; every other (socket, room) pair
      keeps its membership, the connected sockets are the same, and the key
      order gains `r` at its end exactly when `r` is a new room. */
  lemma JoinMembers(g: Registry, s: Sid, r: Room)
    ensures s in Members(Join(g, s, r), r)
    ensures forall q, t | q != r || t != s :: t in Members(Join(g, s, r), q) <==> t in Members(g, q)
    ensures forall q :: q in Join(g, s, r).rooms <==> q in g.rooms || q == r
    ensures Join(g, s, r).sids == g.sids
    ensures Join(g, s, r).order == if r in g.rooms then g.order else g.order + [r]
  {
  }

  /** Joining a room twice is joining it once. */
  lemma JoinIdempotent(g: Registry, s: Sid, r: Room)
    ensures Join(Join(g, s, r), s, r) == Join(g, s, r)
  {
  }

  /** Leaving keeps the adapter's shape; it keeps every private room unless a
      socket leaves its own. */
  lemma LeaveValid(g: Registry, s: Sid, r: Room)
    requires Valid(g)
    ensures Valid(Leave(g, s, r))
    ensures PrivateRooms(g) && r != s ==> PrivateRooms(Leave(g, s, r))
  {
    if r in g.rooms && s in g.rooms[r] {
      var rest := Without(g.rooms[r], {s});
      WithoutDistinct(g.rooms[r], {s});
      if rest == [] {
        WithoutDistinct(g.order, {r});
      }
    }
  }

  /** After leaving, `s` is not a member of `r`; every other (socket, room)
      pair keeps its membership; the key of `r` is gone exactly when no other
      socket was in it, and only then does it leave the key order; leaving a
      room one is not in changes nothing. */
  lemma LeaveMembers(g: Registry, s: Sid, r: Room)
    requires Valid(g)
    ensures s !in Members(Leave(g, s, r), r)
    ensures forall q, t | q != r || t != s :: t in Members(Leave(g, s, r), q) <==> t in Members(g, q)
    ensures r !in Leave(g, s, r).rooms <==> forall t | t in Members(g, r) :: t == s
    ensures forall q | q != r :: q in Leave(g, s, r).rooms <==> q in g.rooms
    ensures Leave(g, s, r).sids == g.sids
    ensures Leave(g, s, r).order == if r in Leave(g, s, r).rooms then g.order else Without(g.order, {r})
    ensures s !in Members(g, r) ==> Leave(g, s, r) == g
  {
    if r in g.rooms && s in g.rooms[r] {
      var rest := Without(g.rooms[r], {s});
      if rest != [] {
        assert rest[0] in g.rooms[r] && rest[0] != s;
      } else {
        forall t | t in g.rooms[r] ensures t == s {
          assert t !in rest;
        }
      }
    } else if r in g.rooms {
      assert g.rooms[r][0] in g.rooms[r];
    } else {
      WithoutNothing(g.order, {r});
    }
  }

  /** Joining a room one was not in and leaving it again restores the registry
      exactly, including the order of the room keys. */
  lemma JoinThenLeave(g: Registry, s: Sid, r: Room)
    requires Valid(g) && s !in Members(g, r)
    ensures Leave(Join(g, s, r), s, r) == g
  {
    if r in g.rooms {
      JoinThenLeaveExisting(g, s, r);
    } else {
      assert r !in g.order;
      JoinThenLeaveNew(g, s, r);
    }
  }

  /** The case of a room that already had members. */
  lemma JoinThenLeaveExisting(g: Registry, s: Sid, r: Room)
    requires r in g.rooms && g.rooms[r] != [] && s !in g.rooms[r]
    ensures Leave(Join(g, s, r), s, r) == g
  {
    var m := g.rooms[r];
    WithoutAppend(m, [s], {s});
    WithoutNothing(m, {s});
    assert Without([s], {s}) == [];
    assert Without(m + [s], {s}) == m;
  }

  /** The case of a room created by the join. */
  lemma JoinThenLeaveNew(g: Registry, s: Sid, r: Room)
    requires r !in g.rooms && r !in g.order
    ensures Leave(Join(g, s, r), s, r) == g
  {
    WithoutAppend(g.order, [r], {r});
    WithoutNothing(g.order, {r});
    assert Without([r], {r}) == [];
    assert Without(g.order + [r], {r}) == g.order;
    assert Without([s], {s}) == [];
    assert g.rooms[r := [s]] - {r} == g.rooms;
  }

  /** A newly connected socket is registered and in its private room; the
      adapter's shape is kept, and so is every private room that was there. */
  lemma ConnectValid(g: Registry, s: Sid)
    requires Valid(g)
    ensures Valid(Connect(g, s))
    ensures PrivateRooms(g) ==> PrivateRooms(Connect(g, s))
    ensures Connect(g, s).sids == g.sids + {s}
    ensures s in Members(Connect(g, s), s)
  {
  }
}
