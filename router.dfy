/** The event router of the chat server (chatapp/socket_event/index.js): the
    five handlers a connection registers, each a function from the adapter
    state and the event's arguments to the new state and the outbound
    notifications. Delivery is not modelled: a notification is the pair of the
    socket it is addressed to and the event it carries. */
module Router {
  import opened Seqs
  import opened Adapter

  /** The outbound events, with the argument lists the handlers emit. */
  datatype Event =
    | EnterEvent(name: string)
    | ExitEvent(name: string)
    | PublishEvent(time: string, name: string, data: string)
    | RoomList(names: seq<Room>)
    | CreateRoomSuccess(free: bool)

  /** One event addressed to one socket. */
  datatype Notification = Notification(to: Sid, event: Event)

  /** What a state-changing handler produces. */
  datatype Step = Step(state: Registry, out: seq<Notification>)

  /** One notification of `e` to each socket of `to`, in that order. */
  function Deliver(to: seq<Sid>, e: Event): (out: seq<Notification>)
    ensures |out| == |to|
    ensures forall n | n in out :: n.event == e
  {
    if to == [] then [] else [Notification(to[0], e)] + Deliver(to[1..], e)
  }

  /** How many notifications of `out` are addressed to `t`. */
  function CountTo(out: seq<Notification>, t: Sid): nat {
    if out == [] then 0
    else (if out[0].to == t then 1 else 0) + CountTo(out[1..], t)
  }

  // The three fan-out scopes of the router.

  /** `socket.broadcast.to(r).emit(e)`: the members of `r` except the sender. */
  function Broadcast(g: Registry, r: Room, sender: Sid, e: Event): seq<Notification> {
    Deliver(Without(Members(g, r), {sender}), e)
  }

  /** `io.to(r).emit(e)`: every member of `r`. */
  function RoomEmit(g: Registry, r: Room, e: Event): seq<Notification> {
    Deliver(Members(g, r), e)
  }

  /** `socket.emit(e)`: the sender alone. */
  function Reply(sender: Sid, e: Event): seq<Notification> {
    [Notification(sender, e)]
  }

  // The handlers.

  /** `enterEvent(name, room)`: join, then tell the rest of the room. */
  function Enter(g: Registry, sender: Sid, name: string, room: Room): Step {
    var h := Join(g, sender, room);
    Step(h, Broadcast(h, room, sender, EnterEvent(name)))
  }

  /** `exitEvent(name, room)`: leave, then tell the rest of the room. */
  function Exit(g: Registry, sender: Sid, name: string, room: Room): Step {
    var h := Leave(g, sender, room);
    Step(h, Broadcast(h, room, sender, ExitEvent(name)))
  }

  /** `publishEvent(room, time, name, data)`: the message goes to the whole
      room; the sender is not consulted. */
  function Publish(g: Registry, room: Room, time: string, name: string, data: string): seq<Notification> {
    RoomEmit(g, room, PublishEvent(time, name, data))
  }

  /** The room keys that are not socket ids, in key order. */
  function ActiveRooms(g: Registry): seq<Room> {
    Without(g.order, g.sids)
  }

  /** `getRooms()`: the list of rooms, to the sender. */
  function GetRooms(g: Registry, sender: Sid): seq<Notification> {
    Reply(sender, RoomList(ActiveRooms(g)))
  }

  /** `createRoom(room)`: whether `room` is not a key of `rooms`, to the sender. */
  function CreateRoom(g: Registry, sender: Sid, room: Room): seq<Notification> {
    Reply(sender, CreateRoomSuccess(room !in g.rooms))
  }

  // Fan-out.

  /** Delivering to a list without duplicates reaches each listed socket
      exactly once and no other socket. */
  lemma {:induction false} DeliverExactlyOnce(to: seq<Sid>, e: Event)
    requires Distinct(to)
    ensures forall t :: CountTo(Deliver(to, e), t) == if t in to then 1 else 0
  {
    if to != [] {
      DistinctTail(to);
      DeliverExactlyOnce(to[1..], e);
      var out := Deliver(to, e);
      assert out[0].to == to[0] && out[1..] == Deliver(to[1..], e);
    }
  }

  /** A broadcast reaches each member of the room other than the sender
      exactly once, and nobody else. */
  lemma BroadcastRecipients(g: Registry, r: Room, sender: Sid, e: Event)
    requires Valid(g)
    ensures forall n | n in Broadcast(g, r, sender, e) :: n.event == e
    ensures forall t :: CountTo(Broadcast(g, r, sender, e), t) ==
                        if t in Members(g, r) && t != sender then 1 else 0
  {
    WithoutDistinct(Members(g, r), {sender});
    DeliverExactlyOnce(Without(Members(g, r), {sender}), e);
  }

  /** A room emit reaches each member of the room exactly once, and nobody else. */
  lemma RoomEmitRecipients(g: Registry, r: Room, e: Event)
    requires Valid(g)
    ensures forall n | n in RoomEmit(g, r, e) :: n.event == e
    ensures forall t :: CountTo(RoomEmit(g, r, e), t) == if t in Members(g, r) then 1 else 0
  {
    DeliverExactlyOnce(Members(g, r), e);
  }

  // enterEvent

  /** After entering, the sender is in the room; every other membership and
      the set of connected sockets are unchanged; the key order gains the room
      only when it is new; the adapter's shape and the private rooms are kept. */
  lemma EnterState(g: Registry, sender: Sid, name: string, room: Room)
    requires Valid(g) && sender in g.sids
    ensures Valid(Enter(g, sender, name, room).state)
    ensures PrivateRooms(g) ==> PrivateRooms(Enter(g, sender, name, room).state)
    ensures sender in Members(Enter(g, sender, name, room).state, room)
    ensures forall q, t | q != room || t != sender ::
              t in Members(Enter(g, sender, name, room).state, q) <==> t in Members(g, q)
    ensures Enter(g, sender, name, room).state.sids == g.sids
    ensures Enter(g, sender, name, room).state.order ==
              if room in g.rooms then g.order else g.order + [room]
  {
  }

  /** Entering sends `enterEvent(name)` exactly once to each socket that was
      already in the room, and nothing to the sender. */
  lemma EnterNotifies(g: Registry, sender: Sid, name: string, room: Room)
    requires Valid(g) && sender in g.sids
    ensures forall n | n in Enter(g, sender, name, room).out :: n.event == EnterEvent(name)
    ensures forall t :: CountTo(Enter(g, sender, name, room).out, t) ==
                        if t in Members(g, room) && t != sender then 1 else 0
  {
    var h := Join(g, sender, room);
    JoinValid(g, sender, room);
    JoinMembers(g, sender, room);
    BroadcastRecipients(h, room, sender, EnterEvent(name));
  }

  /** Entering the same room twice is entering it once: the second call
      changes no membership and sends the same notifications. */
  lemma EnterTwice(g: Registry, sender: Sid, name: string, room: Room)
    ensures Enter(Enter(g, sender, name, room).state, sender, name, room) == Enter(g, sender, name, room)
  {
  }

  // exitEvent

  /** After exiting, the sender is not in the room; every other membership
      and the set of connected sockets are unchanged; the room leaves the key
      order only when its key is gone; exiting a room one is
      not in changes nothing; the adapter's shape is kept, and the private
      rooms unless the sender leaves its own. */
  lemma ExitState(g: Registry, sender: Sid, name: string, room: Room)
    requires Valid(g)
    ensures Valid(Exit(g, sender, name, room).state)
    ensures PrivateRooms(g) && room != sender ==> PrivateRooms(Exit(g, sender, name, room).state)
    ensures sender !in Members(Exit(g, sender, name, room).state, room)
    ensures forall q, t | q != room || t != sender ::
              t in Members(Exit(g, sender, name, room).state, q) <==> t in Members(g, q)
    ensures Exit(g, sender, name, room).state.sids == g.sids
    ensures Exit(g, sender, name, room).state.order ==
              if room in Exit(g, sender, name, room).state.rooms then g.order else Without(g.order, {room})
    ensures sender !in Members(g, room) ==> Exit(g, sender, name, room).state == g
  {
    LeaveValid(g, sender, room);
    LeaveMembers(g, sender, room);
  }

  /** Exiting sends `exitEvent(name)` exactly once to each socket left in the
      room other than the sender; when nobody else was in the room, the room's
      key is gone and nothing is sent. */
  lemma ExitNotifies(g: Registry, sender: Sid, name: string, room: Room)
    requires Valid(g)
    ensures forall n | n in Exit(g, sender, name, room).out :: n.event == ExitEvent(name)
    ensures forall t :: CountTo(Exit(g, sender, name, room).out, t) ==
                        if t in Members(g, room) && t != sender then 1 else 0
    ensures (forall t | t in Members(g, room) :: t == sender) ==>
              room !in Exit(g, sender, name, room).state.rooms && Exit(g, sender, name, room).out == []
  {
    var h := Leave(g, sender, room);
    LeaveValid(g, sender, room);
    LeaveMembers(g, sender, room);
    BroadcastRecipients(h, room, sender, ExitEvent(name));
  }

  /** Entering a room one was not in and exiting it again restores the
      registry exactly. */
  lemma EnterThenExit(g: Registry, sender: Sid, name: string, room: Room)
    requires Valid(g) && sender !in Members(g, room)
    ensures Exit(Enter(g, sender, name, room).state, sender, name, room).state == g
  {
    JoinThenLeave(g, sender, room);
  }

  // publishEvent

  /** Publishing sends `publishEvent(time, name, data)` exactly once to each
      member of the room, the sender included exactly when it has joined. */
  lemma PublishNotifies(g: Registry, sender: Sid, room: Room, time: string, name: string, data: string)
    requires Valid(g)
    ensures forall n | n in Publish(g, room, time, name, data) :: n.event == PublishEvent(time, name, data)
    ensures forall t :: CountTo(Publish(g, room, time, name, data), t) == if t in Members(g, room) then 1 else 0
    ensures CountTo(Publish(g, room, time, name, data), sender) == 1 <==> sender in Members(g, room)
  {
    RoomEmitRecipients(g, room, PublishEvent(time, name, data));
  }

  // getRooms

  /** The room list holds exactly the rooms with members whose names are not
      socket ids, each once, in the order of the room keys. */
  lemma ActiveRoomsSpec(g: Registry)
    requires Valid(g)
    ensures forall q :: q in ActiveRooms(g) <==> Members(g, q) != [] && q !in g.sids
    ensures Distinct(ActiveRooms(g))
    ensures Subsequence(ActiveRooms(g), g.order)
  {
    WithoutDistinct(g.order, g.sids);
    WithoutSubsequence(g.order, g.sids);
  }

  /** `getRooms` replies to the sender alone with that list. */
  lemma GetRoomsReply(g: Registry, sender: Sid)
    requires Valid(g)
    ensures |GetRooms(g, sender)| == 1 && GetRooms(g, sender)[0].to == sender
    ensures GetRooms(g, sender)[0].event.RoomList?
    ensures forall q :: q in GetRooms(g, sender)[0].event.names <==> Members(g, q) != [] && q !in g.sids
    ensures Distinct(GetRooms(g, sender)[0].event.names)
    ensures Subsequence(GetRooms(g, sender)[0].event.names, g.order)
  {
    ActiveRoomsSpec(g);
  }

  // createRoom

  /** `createRoom` replies to the sender alone, with `true` exactly when
      nobody is in a room of that name; a connected socket's id is never free. */
  lemma CreateRoomReply(g: Registry, sender: Sid, room: Room)
    requires Valid(g)
    ensures |CreateRoom(g, sender, room)| == 1 && CreateRoom(g, sender, room)[0].to == sender
    ensures CreateRoom(g, sender, room)[0].event.CreateRoomSuccess?
    ensures CreateRoom(g, sender, room)[0].event.free <==> Members(g, room) == []
    ensures PrivateRooms(g) && room in g.sids ==> !CreateRoom(g, sender, room)[0].event.free
  {
  }

  /** Since `createRoom` tests the room keys rather than the room list, a
      name is free exactly when it is neither listed nor a socket id. */
  lemma CreateRoomVersusList(g: Registry, sender: Sid, room: Room)
    requires Valid(g) && PrivateRooms(g)
    ensures CreateRoom(g, sender, room)[0].event.free <==> room !in ActiveRooms(g) && room !in g.sids
  {
  }

  /** Once someone has entered a room, its name is no longer free. */
  lemma CreateRoomAfterEnter(g: Registry, sender: Sid, name: string, room: Room, asker: Sid)
    ensures CreateRoom(Enter(g, sender, name, room).state, asker, room) ==
            [Notification(asker, CreateRoomSuccess(false))]
  {
  }

  // A worked case

  /** Sockets A and B connect; A enters "lobby" as alice, then B as bob. A
      hears bob enter and B hears nothing of its own entry; a post by alice
      reaches both; "lobby" is listed and is no longer free. */
  lemma LobbyScenario()
    ensures var g := Connect(Connect(Empty, "A"), "B");
            var a := Enter(g, "A", "alice", "lobby");
            var b := Enter(a.state, "B", "bob", "lobby");
            && a.out == []
            && b.out == [Notification("A", EnterEvent("bob"))]
            && b.state == Registry(["A", "B", "lobby"], map["A" := ["A"], "B" := ["B"], "lobby" := ["A", "B"]], {"A", "B"})
            && Publish(b.state, "lobby", "t1", "alice", "hi") ==
                 [Notification("A", PublishEvent("t1", "alice", "hi")),
                  Notification("B", PublishEvent("t1", "alice", "hi"))]
            && CreateRoom(b.state, "B", "lobby") == [Notification("B", CreateRoomSuccess(false))]
            && GetRooms(b.state, "B") == [Notification("B", RoomList(["lobby"]))]
  {
    var g := Connect(Connect(Empty, "A"), "B");
    assert g == Registry(["A", "B"], map["A" := ["A"], "B" := ["B"]], {"A", "B"});
    var a := Enter(g, "A", "alice", "lobby");
    assert a.state == Registry(["A", "B", "lobby"], map["A" := ["A"], "B" := ["B"], "lobby" := ["A"]], {"A", "B"});
    assert Without(["A"], {"A"}) == [];
    assert "B" != "A" && "B" !in ["A"];
    assert ["A"] + ["B"] == ["A", "B"];
    var b := Enter(a.state, "B", "bob", "lobby");
    assert Without(["A", "B"], {"B"}) == ["A"];
    assert Without(["A", "B", "lobby"], {"A", "B"}) == ["lobby"];
  }

  /** Continuing: when bob exits "lobby", A alone hears it, and alice stays. */
  lemma LobbyExit()
    ensures var b := Registry(["A", "B", "lobby"], map["A" := ["A"], "B" := ["B"], "lobby" := ["A", "B"]], {"A", "B"});
            var c := Exit(b, "B", "bob", "lobby");
            && c.out == [Notification("A", ExitEvent("bob"))]
            && c.state == b.(rooms := b.rooms["lobby" := ["A"]])
  {
    assert "B" != "A";
    assert Without(["A", "B"], {"B"}) == ["A"];
    assert Without(["A"], {"B"}) == ["A"];
  }
}
