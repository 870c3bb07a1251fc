# Chat server event router, modelled in Dafny

The chat server's event router (`chatapp/socket_event/index.js`) registers five
handlers on each connection. Two of them change which connections are in which
room: `enterEvent` joins a room and `exitEvent` leaves it. All five decide who
receives each outbound event. There are three fan-out scopes: the room without
the sender (`socket.broadcast.to(room)`), the whole room (`io.to(room)`), and
the sender alone (`socket.emit`). Two handlers answer queries. `getRooms` lists
the room names that are not connection ids. `createRoom` reports whether a name
is not yet a room.

The model keeps the Socket.IO adapter's state as a value `Adapter.Registry`.
It holds the room keys in insertion order, each room's members in joining
order, and the set of connected socket ids. Every handler is a function of
that state and the event's arguments. `Router.Enter` and `Router.Exit` return
the new state and the list of `(recipient, event)` notifications;
`Router.Publish`, `Router.GetRooms` and `Router.CreateRoom` change nothing and
return the notifications alone. The state that `socket.join` and
`socket.leave` change in place is the class `Server.ChatServer`. Its methods
`EnterEvent` and `ExitEvent` are proved to compute exactly `Router.Enter` and
`Router.Exit`.

The router depends on two adapter behaviours that its file does not contain.
They are modelling assumptions:
- a connecting socket joins a private room named by its own id (`Adapter.Connect`, kept as `Adapter.PrivateRooms`);
- a room's key is removed when its last member leaves (`Adapter.Leave`, kept by `Adapter.Valid`).

Files: `seqs.dfy` (the order-preserving filter), `adapter.dfy` (the adapter
state, join and leave), `router.dfy` (fan-out scopes, the five handlers and
their properties), `server.dfy` (the mutable table and the two state-changing
handlers).

## Model

| member | source | states |
|---|---|---|
| Adapter.Join | chatapp/socket_event/index.js:4 | `socket.join`: adds the socket to the end of the room's members unless it is already there; a new room gets a key at the end of the key order |
| Adapter.Leave | chatapp/socket_event/index.js:10 | `socket.leave`: removes the socket from the room; a room left empty loses its key and its place in the key order; a socket not in the room changes nothing |
| Adapter.Connect | chatapp/socket_event/index.js:1 | the adapter assumption: a connecting socket is registered and joins the room named by its id |
| Router.Broadcast | chatapp/socket_event/index.js:5 | `socket.broadcast.to(room).emit`: one notification per room member other than the sender, in joining order |
| Router.RoomEmit | chatapp/socket_event/index.js:16 | `io.to(room).emit`: one notification per room member, in joining order |
| Router.Reply | chatapp/socket_event/index.js:24 | `socket.emit`: a single notification to the sender |
| Router.Enter | chatapp/socket_event/index.js:3-6 | `enterEvent`: join the room, then broadcast `enterEvent(name)` to the room without the sender |
| Router.Exit | chatapp/socket_event/index.js:8-12 | `exitEvent`: leave the room, then broadcast `exitEvent(name)` to the room without the sender |
| Router.Publish | chatapp/socket_event/index.js:15-17 | `publishEvent`: `publishEvent(time, name, data)` to the whole room, state unchanged |
| Router.ActiveRooms | chatapp/socket_event/index.js:21-23 | the room keys, in key order, that are not connected socket ids |
| Router.GetRooms | chatapp/socket_event/index.js:20-25 | `getRooms`: `roomList` of that list, to the sender, state unchanged |
| Router.CreateRoom | chatapp/socket_event/index.js:28-34 | `createRoom`: `createRoomSuccess(true)` to the sender when the name is not a room key, `false` when it is; state unchanged |
| Seqs.Without | chatapp/socket_event/index.js:21-23 | the filter keeps exactly the elements not excluded, and never lengthens its input |
| Seqs.WithoutSubsequence | chatapp/socket_event/index.js:21-23 | the filter keeps the relative order of what it keeps |
| Seqs.WithoutDistinct | chatapp/socket_event/index.js:21-23 | filtering a list without duplicates yields one without duplicates |
| Adapter.JoinValid | chatapp/socket_event/index.js:4 | joining keeps the adapter's shape (keys listed once, no empty room, no member twice, only connected members) and every private room |
| Adapter.JoinMembers | chatapp/socket_event/index.js:4 | after joining, the socket is in the room; every other (socket, room) membership and the connected set are unchanged; the only key that can appear is the joined room, appended to the key order exactly when it is new |
| Adapter.JoinIdempotent | chatapp/socket_event/index.js:4 | joining a room twice is joining it once |
| Adapter.LeaveValid | chatapp/socket_event/index.js:10 | leaving keeps the adapter's shape, and keeps every private room unless a socket leaves its own |
| Adapter.LeaveMembers | chatapp/socket_event/index.js:10 | after leaving, the socket is not in the room; every other membership and the connected set are unchanged; the room's key is gone exactly when no other socket was in it, and only then does it leave the key order; leaving a room one is not in changes nothing |
| Adapter.JoinThenLeave | chatapp/socket_event/index.js:3-12 | joining a room one was not in and leaving it restores the state exactly, the key order included |
| Adapter.ConnectValid | chatapp/socket_event/index.js:1 | a newly connected socket is registered and in its private room; the shape is kept, and so is every private room that was there (adapter assumption) |
| Router.BroadcastRecipients | chatapp/socket_event/index.js:5 | `socket.broadcast.to(room)` reaches each member except the sender exactly once, nobody else, all with the same event |
| Router.RoomEmitRecipients | chatapp/socket_event/index.js:16 | `io.to(room)` reaches each member exactly once, nobody else, all with the same event |
| Router.EnterState | chatapp/socket_event/index.js:3-4 | after `enterEvent` the sender is in the room; all other memberships and the connected set are unchanged; the key order gains the room only when it is new; shape and private rooms are kept |
| Router.EnterNotifies | chatapp/socket_event/index.js:3-5 | `enterEvent` sends `enterEvent(name)` exactly once to each socket already in the room other than the sender, and none to the sender |
| Router.EnterTwice | chatapp/socket_event/index.js:3-5 | entering the same room twice gives the same state and notifications as entering once |
| Router.ExitState | chatapp/socket_event/index.js:9-10 | after `exitEvent` the sender is not in the room; all other memberships and the connected set are unchanged; the room leaves the key order only when its key is gone; exiting a room one is not in changes nothing |
| Router.ExitNotifies | chatapp/socket_event/index.js:9-11 | `exitEvent` sends `exitEvent(name)` exactly once to each socket remaining in the room other than the sender; if nobody else was in it, the key is gone and nothing is sent |
| Router.EnterThenExit | chatapp/socket_event/index.js:3-12 | entering a room one was not in and exiting it restores the state exactly |
| Router.PublishNotifies | chatapp/socket_event/index.js:15-16 | `publishEvent` sends `publishEvent(time, name, data)` exactly once to each member of the room, the sender exactly when it has joined |
| Router.ActiveRoomsSpec | chatapp/socket_event/index.js:21-23 | the room list holds exactly the rooms with members whose names are not socket ids, without duplicates, in key order |
| Router.GetRoomsReply | chatapp/socket_event/index.js:20-24 | `getRooms` sends one `roomList` to the sender alone, carrying that list |
| Router.CreateRoomReply | chatapp/socket_event/index.js:28-33 | `createRoom` sends one `createRoomSuccess` to the sender alone, `true` exactly when the room has no members; a connected socket's id is never free |
| Router.CreateRoomVersusList | chatapp/socket_event/index.js:20-33 | with private rooms in place, a name is free exactly when it is neither in the room list nor a socket id |
| Router.CreateRoomAfterEnter | chatapp/socket_event/index.js:28-33 | once someone has entered a room, `createRoom` reports it as taken |
| Router.LobbyScenario | chatapp/socket_event/index.js:3-33 | two sockets entering "lobby": only the earlier one hears the later entry; a post reaches both; "lobby" is listed and not free |
| Router.LobbyExit | chatapp/socket_event/index.js:9-11 | continuing, when one leaves "lobby" only the other hears `exitEvent` |
| Server.ChatServer.constructor | chatapp/socket_event/index.js:1 | an empty table, with the adapter's shape |
| Server.ChatServer.Connect | chatapp/socket_event/index.js:1 | from any table of the adapter's shape, the table becomes `Adapter.Connect` of the old one: the socket is connected and in its private room; the shape is kept, and the private rooms when they held before |
| Server.ChatServer.Join | chatapp/socket_event/index.js:4 | the table, updated in place, becomes `Adapter.Join` of the old one; shape kept |
| Server.ChatServer.Leave | chatapp/socket_event/index.js:10 | the table, updated in place, becomes `Adapter.Leave` of the old one; shape kept |
| Server.ChatServer.EnterEvent | chatapp/socket_event/index.js:3-6 | the new table and the returned notifications are exactly `Router.Enter` of the old table |
| Server.ChatServer.ExitEvent | chatapp/socket_event/index.js:8-12 | the new table and the returned notifications are exactly `Router.Exit` of the old table |

## Left out

- Delivery over the network: a notification is a (socket id, event) pair in a list; the model does not send anything.
- Broadcast exclusion: Socket.IO leaves out every member of the sender's private room, and the model leaves out the sender alone. The two differ only after a socket has joined another socket's private room or left its own.
- Fan-out order: the router promises no delivery order; the model delivers in joining order, the order in which the adapter's member sets iterate.
- Payloads: `name`, `room`, `time` and `data` may be any JavaScript value; the model takes them as strings.
- One adapter: `socket.join`, `socket.leave` and `socket.broadcast` act on the adapter of the socket's namespace, while `getRooms`, `createRoom` and `io.to` read the default namespace's adapter (`io.sockets.adapter`). The model has one `Registry` for both, which is right when the handlers are registered on the default namespace and not otherwise.
- Interleaving of handlers from different connections: the model is sequential.
- The adapter's own code: only the two behaviours above are kept, and `Adapter.Connect` is that assumption, not router code.
- Leaving one's own private room: `exitEvent` with the sender's own id as the room is allowed and breaks the private-room assumption; `Router.ExitState` keeps `PrivateRooms` only when the room is not the sender's id.
- Disconnect: the router registers no disconnect handler, so no clean-up is modelled.
- Message persistence, memos, member rosters, join-time history, edit and delete: none of these is part of this file, so they are not part of this model.
- Active rooms: the room list is not every room that has a member; the code also drops every name that is a connected socket id, and the model follows the code (`Router.ActiveRoomsSpec`).
