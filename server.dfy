/** The adapter's membership table as the mutable object the handlers share:
    `socket.join` and `socket.leave` change it in place, and `enterEvent` and
    `exitEvent` are methods on it. The read-only handlers are the functions
    `Router.Publish`, `Router.GetRooms` and `Router.CreateRoom`, applied to
    `State()`. */
module Server {
  import opened Seqs
  import Adapter
  import Router

  class ChatServer {
    /** Insertion order of the keys of `rooms`. */
    var roomOrder: seq<Adapter.Room>
    /** Room name to its members, in joining order. */
    var rooms: map<Adapter.Room, seq<Adapter.Sid>>
    /** The connected socket ids. */
    var sids: set<Adapter.Sid>

    /** The value of the table. */
    function State(): Adapter.Registry
      reads this
    {
      Adapter.Registry(roomOrder, rooms, sids)
    }

    ghost predicate Valid()
      reads this
    {
      Adapter.Valid(State())
    }

    /** A server with no connection and no room. */
    constructor ()
      ensures Valid() && State() == Adapter.Empty
      ensures Adapter.PrivateRooms(State())
    {
      roomOrder, rooms, sids := [], map[], {};
    }

    /** A socket connects and is put in its private room (an adapter
        behaviour the router relies on). */
    method Connect(s: Adapter.Sid)
      requires Valid()
      modifies this
      ensures Valid()
      ensures old(Adapter.PrivateRooms(State())) ==> Adapter.PrivateRooms(State())
      ensures s in sids && s in Adapter.Members(State(), s)
      ensures State() == Adapter.Connect(old(State()), s)
    {
      Adapter.ConnectValid(State(), s);
      sids := sids + {s};
      Join(s, s);
    }

    /** `socket.join(r)` for the socket `s`. */
    method Join(s: Adapter.Sid, r: Adapter.Room)
      requires Valid() && s in sids
      modifies this
      ensures Valid()
      ensures State() == Adapter.Join(old(State()), s, r)
    {
      Adapter.JoinValid(State(), s, r);
      if r in rooms {
        if s !in rooms[r] {
          rooms := rooms[r := rooms[r] + [s]];
        }
      } else {
        roomOrder := roomOrder + [r];
        rooms := rooms[r := [s]];
      }
    }

    /** `socket.leave(r)` for the socket `s`. */
    method Leave(s: Adapter.Sid, r: Adapter.Room)
      requires Valid()
      modifies this
      ensures Valid()
      ensures State() == Adapter.Leave(old(State()), s, r)
    {
      Adapter.LeaveValid(State(), s, r);
      if r in rooms && s in rooms[r] {
        var rest := Without(rooms[r], {s});
        if rest == [] {
          roomOrder := Without(roomOrder, {r});
          rooms := rooms - {r};
        } else {
          rooms := rooms[r := rest];
        }
      }
    }

    /** The `enterEvent` handler of the socket `sender`. */
    method EnterEvent(sender: Adapter.Sid, name: string, room: Adapter.Room)
      returns (out: seq<Router.Notification>)
      requires Valid() && sender in sids
      modifies this
      ensures Valid()
      ensures Router.Step(State(), out) == Router.Enter(old(State()), sender, name, room)
    {
      Join(sender, room);
      out := Router.Broadcast(State(), room, sender, Router.EnterEvent(name));
    }

    /** The `exitEvent` handler of the socket `sender`. */
    method ExitEvent(sender: Adapter.Sid, name: string, room: Adapter.Room)
      returns (out: seq<Router.Notification>)
      requires Valid()
      modifies this
      ensures Valid()
      ensures Router.Step(State(), out) == Router.Exit(old(State()), sender, name, room)
    {
      Leave(sender, room);
      out := Router.Broadcast(State(), room, sender, Router.ExitEvent(name));
    }
  }
}
