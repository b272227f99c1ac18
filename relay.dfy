/** The server's shared state and its event handlers, as they run on the single
    event loop: each handler runs to completion and is proved to perform the
    effect that module Rooms gives for it. `outbox` is every `send` so far, in
    order; `pending` holds the armed deferred reaps. All reaps share one delay,
    so they fire in the order they were armed. */
module Relay {
  import opened Protocol
  import opened Rooms

  class Server {
    var rooms: Table
    var outbox: seq<Envelope>
    var pending: seq<RoomName>

    ghost predicate Valid()
      reads this
    {
      Consistent(rooms, pending)
    }

    constructor ()
      ensures Valid()
      ensures rooms == map[] && outbox == [] && pending == []
    {
      rooms := map[];
      outbox := [];
      pending := [];
    }

    /** A `forEach` over `clients` that sends `msg` to each open member other
        than `except`. */
    method Broadcast(clients: seq<ConnId>, except: Option<ConnId>, msg: Outbound, open: set<ConnId>)
      modifies this`outbox
      ensures outbox == old(outbox) + Fanout(clients, open, except, msg)
    {
      var i := 0;
      while i < |clients|
        invariant 0 <= i <= |clients|
        invariant outbox == old(outbox) + Fanout(clients[..i], open, except, msg)
      {
        var client := clients[i];
        if Delivers(client, open, except) {
          outbox := outbox + [Envelope(client, msg)];
        }
        assert clients[..i + 1][..i] == clients[..i];
        i := i + 1;
      }
      assert clients[..i] == clients;
    }

    method CreateRoom(ws: ConnId, name: RoomName, now: nat)
      requires Valid()
      modifies this
      ensures Valid()
      ensures var e := OnCreate(old(rooms), ws, name, now);
        rooms == e.rooms && outbox == old(outbox) + e.sent && pending == old(pending) + e.armed
    {
      CreateKeepsConsistent(rooms, pending, ws, name, now);
      if name in rooms {
        outbox := outbox + [Envelope(ws, Error(RoomExistsText))];
        return;
      }
      rooms := rooms[name := Room([ws], "", now, None)];
      outbox := outbox + [Envelope(ws, RoomCreated(name))];
    }

    method JoinRoom(ws: ConnId, name: RoomName, open: set<ConnId>)
      requires Valid()
      modifies this
      ensures Valid()
      ensures var e := OnJoin(old(rooms), ws, name, open);
        rooms == e.rooms && outbox == old(outbox) + e.sent && pending == old(pending) + e.armed
    {
      JoinKeepsConsistent(rooms, pending, ws, name, open);
      if name in rooms {
        var room := rooms[name];
        if ws !in room.clients {
          room := room.(clients := room.clients + [ws]);
          rooms := rooms[name := room];
        }
        outbox := outbox + [Envelope(ws, LoadContent(room.content, name)), Envelope(ws, RoomJoined(name))];
        Broadcast(room.clients, None, UserCountUpdate(|room.clients|), open);
      } else {
        outbox := outbox + [Envelope(ws, Error(RoomNotFoundText))];
      }
    }

    method UpdateContent(ws: ConnId, name: RoomName, content: string, now: nat, open: set<ConnId>)
      requires Valid()
      modifies this
      ensures Valid()
      ensures var e := OnUpdate(old(rooms), ws, name, content, now, open);
        rooms == e.rooms && outbox == old(outbox) + e.sent && pending == old(pending) + e.armed
    {
      UpdateKeepsConsistent(rooms, pending, ws, name, content, now, open);
      if name in rooms {
        var room := rooms[name].(content := content, lastUpdated := Some(now));
        rooms := rooms[name := room];
        Broadcast(room.clients, Some(ws), ContentUpdate(content), open);
      }
    }

    /** The message listener: dispatch on the action. */
    method Receive(ws: ConnId, msg: Inbound, now: nat, open: set<ConnId>)
      requires Valid()
      modifies this
      ensures Valid()
      ensures var e := OnMessage(old(rooms), ws, msg, now, open);
        rooms == e.rooms && outbox == old(outbox) + e.sent && pending == old(pending) + e.armed
    {
      match msg
      case CreateRoom(name) => CreateRoom(ws, name, now);
      case JoinRoom(name) => JoinRoom(ws, name, open);
      case UpdateContent(name, content) => UpdateContent(ws, name, content, now, open);
      case Unrecognised =>
    }

    /** One iteration of the close loop: filter `ws` out of room `name`, and
        if that changed its count, send the new count to its open members and,
        when the room is left empty, arm its reap. */
    method CloseRoom(ws: ConnId, name: RoomName, open: set<ConnId>)
      requires name in rooms
      modifies this
      ensures rooms == old(rooms)[name := Closed(old(rooms)[name], ws)]
      ensures outbox == old(outbox) + LeaveNotices(old(rooms)[name], ws, open)
      ensures pending == old(pending) + if LeftEmpty(old(rooms)[name], ws) then [name] else []
    {
      var room := rooms[name];
      var initialCount := |room.clients|;
      room := room.(clients := Without(room.clients, ws));
      rooms := rooms[name := room];
      if |room.clients| != initialCount {
        Broadcast(room.clients, None, UserCountUpdate(|room.clients|), open);
        if |room.clients| == 0 {
          pending := pending + [name];
        }
      }
    }

    /** The close listener: a `for...in` over the rooms, in the order `keys`. */
    method Close(ws: ConnId, keys: seq<RoomName>, open: set<ConnId>)
      requires Valid() && Enumerates(keys, rooms)
      modifies this
      ensures Valid()
      ensures var e := OnClose(old(rooms), keys, ws, open);
        rooms == e.rooms && outbox == old(outbox) + e.sent && pending == old(pending) + e.armed
    {
      ghost var start := rooms;
      var i := 0;
      while i < |keys|
        invariant 0 <= i <= |keys|
        invariant rooms == PartlyClosed(start, ws, keys[..i])
        invariant outbox == old(outbox) + CloseNotices(start, keys[..i], ws, open)
        invariant pending == old(pending) + Emptied(start, keys[..i], ws)
      {
        var name := keys[i];
        CloseStep(start, keys, i, ws, open);
        PartlyClosedStep(start, ws, keys, i);
        AppendAssoc(old(outbox), CloseNotices(start, keys[..i], ws, open), LeaveNotices(start[name], ws, open));
        AppendAssoc(old(pending), Emptied(start, keys[..i], ws), if LeftEmpty(start[name], ws) then [name] else []);
        CloseRoom(ws, name, open);
        i := i + 1;
      }
      assert keys[..i] == keys;
      PartlyClosedAll(start, ws, keys);
      CloseKeepsConsistent(start, old(pending), keys, ws, open);
    }

    /** The next armed reap fires: it deletes its room only if the room is
        still present and still has no member. */
    method FireReap()
      requires Valid()
      modifies this
      ensures Valid()
      ensures outbox == old(outbox)
      ensures old(pending) == [] ==> rooms == old(rooms) && pending == []
      ensures old(pending) != [] ==> rooms == Reap(old(rooms), old(pending)[0]) && pending == old(pending)[1..]
    {
      if pending != [] {
        ReapKeepsConsistent(rooms, pending);
        var name := pending[0];
        pending := pending[1..];
        if name in rooms && |rooms[name].clients| == 0 {
          rooms := rooms - {name};
        }
      }
    }
  }
}
