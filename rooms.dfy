/** The room registry as values: what each handler of server.js does to the
    `rooms` table, which envelopes it sends, and which deferred reaps it arms.
    The class in module Relay is proved to perform exactly these effects. */
module Rooms {
  import opened Protocol

  type Table = map<RoomName, Room>

  /** The result of one handler run: the new table, the envelopes sent in
      order, and the room names whose deferred reap was armed, in order. */
  datatype Effect = Effect(rooms: Table, sent: seq<Envelope>, armed: seq<RoomName>)

  predicate NoDup<T(==)>(s: seq<T>)
  {
    forall i, j :: 0 <= i < j < |s| ==> s[i] != s[j]
  }

  function Elems<T>(s: seq<T>): set<T>
  {
    set x | x in s
  }

  /** `keys` is an enumeration of the table's names, as `for...in` yields them. */
  ghost predicate Enumerates(keys: seq<RoomName>, rooms: Table)
  {
    NoDup(keys) && forall k :: k in keys <==> k in rooms
  }

  /** No room lists a connection twice. */
  predicate MembersDistinct(rooms: Table)
  {
    forall n :: n in rooms ==> NoDup(rooms[n].clients)
  }

  /** The registry invariant: members are distinct, and every room with no
      member has a deferred reap armed for it. */
  predicate Consistent(rooms: Table, pending: seq<RoomName>)
  {
    MembersDistinct(rooms) && forall n :: n in rooms && rooms[n].clients == [] ==> n in pending
  }

  lemma {:induction false} NoDupCount<T>(s: seq<T>)
    requires NoDup(s)
    ensures |Elems(s)| == |s|
  {
    if s != [] {
      NoDupCount(s[1..]);
      assert Elems(s) == {s[0]} + Elems(s[1..]);
    }
  }

  lemma AppendAssoc<T>(a: seq<T>, b: seq<T>, c: seq<T>)
    ensures (a + b) + c == a + (b + c)
  {
  }

  // ---------------------------------------------------------------------------
  // Membership lists

  /** `clients.filter(client => client !== ws)` */
  function Without(clients: seq<ConnId>, ws: ConnId): (r: seq<ConnId>)
    ensures |r| <= |clients|
  {
    if clients == [] then []
    else (if clients[0] == ws then [] else [clients[0]]) + Without(clients[1..], ws)
  }

  lemma {:induction false} WithoutMembers(clients: seq<ConnId>, ws: ConnId, c: ConnId)
    ensures c in Without(clients, ws) <==> c in clients && c != ws
  {
    if clients != [] {
      WithoutMembers(clients[1..], ws, c);
      assert clients == [clients[0]] + clients[1..];
    }
  }

  lemma {:induction false} WithoutAbsent(clients: seq<ConnId>, ws: ConnId)
    requires ws !in clients
    ensures Without(clients, ws) == clients
  {
    if clients != [] {
      WithoutAbsent(clients[1..], ws);
      assert clients == [clients[0]] + clients[1..];
    }
  }

  /** Removing a member that is present drops exactly that position and keeps
      the others in their order. */
  lemma {:induction false} WithoutSplice(clients: seq<ConnId>, ws: ConnId, i: nat)
    requires NoDup(clients) && i < |clients| && clients[i] == ws
    ensures Without(clients, ws) == clients[..i] + clients[i + 1..]
    ensures |Without(clients, ws)| == |clients| - 1
  {
    if i == 0 {
      assert ws !in clients[1..];
      WithoutAbsent(clients[1..], ws);
    } else {
      WithoutSplice(clients[1..], ws, i - 1);
      assert clients[..i] == [clients[0]] + clients[1..][..i - 1];
      assert clients[i + 1..] == clients[1..][i..];
    }
  }

  /** The close handler's test `room.clients.length !== initialCount` holds
      exactly for the rooms the closing connection was in. */
  lemma {:induction false} CountChangesIffMember(clients: seq<ConnId>, ws: ConnId)
    ensures |Without(clients, ws)| != |clients| <==> ws in clients
  {
    if clients != [] {
      CountChangesIffMember(clients[1..], ws);
      assert clients == [clients[0]] + clients[1..];
    }
  }

  lemma {:induction false} WithoutNoDup(clients: seq<ConnId>, ws: ConnId)
    requires NoDup(clients)
    ensures NoDup(Without(clients, ws))
  {
    if clients != [] {
      WithoutNoDup(clients[1..], ws);
      var rest := Without(clients[1..], ws);
      if clients[0] != ws {
        assert clients[0] !in rest by {
          WithoutMembers(clients[1..], ws, clients[0]);
        }
        assert Without(clients, ws) == [clients[0]] + rest;
      }
    }
  }

  /** The join handler's membership step: append unless already present. */
  function WithMember(clients: seq<ConnId>, ws: ConnId): (r: seq<ConnId>)
    ensures ws in r && clients <= r && |r| <= |clients| + 1
    ensures forall c :: c in r <==> c in clients || c == ws
    ensures NoDup(clients) ==> NoDup(r)
  {
    if ws in clients then clients else clients + [ws]
  }

  // ---------------------------------------------------------------------------
  // Fan-out over a member list

  /** The per-client guard of a `forEach` send loop: the connection is open and
      is not the excluded one. */
  predicate Delivers(c: ConnId, open: set<ConnId>, except: Option<ConnId>)
  {
    c in open && except != Some(c)
  }

  /** The envelopes a `forEach` send loop over `clients` emits, in order. */
  function Fanout(clients: seq<ConnId>, open: set<ConnId>, except: Option<ConnId>, msg: Outbound): (r: seq<Envelope>)
    ensures |r| <= |clients|
  {
    if clients == [] then []
    else
      var last := clients[|clients| - 1];
      Fanout(clients[..|clients| - 1], open, except, msg)
        + (if Delivers(last, open, except) then [Envelope(last, msg)] else [])
  }

  /** A fan-out reaches exactly the open, non-excluded members, with `msg`. */
  lemma {:induction false} FanoutMembers(clients: seq<ConnId>, open: set<ConnId>, except: Option<ConnId>, msg: Outbound, e: Envelope)
    ensures e in Fanout(clients, open, except, msg) <==> e.to in clients && Delivers(e.to, open, except) && e.msg == msg
  {
    if clients != [] {
      var init := clients[..|clients| - 1];
      FanoutMembers(init, open, except, msg, e);
      assert clients == init + [clients[|clients| - 1]];
    }
  }

  /** Over a list without duplicates, no connection is sent the message twice. */
  lemma {:induction false} FanoutOncePerMember(clients: seq<ConnId>, open: set<ConnId>, except: Option<ConnId>, msg: Outbound)
    requires NoDup(clients)
    ensures forall i, j :: 0 <= i < j < |Fanout(clients, open, except, msg)| ==>
      Fanout(clients, open, except, msg)[i].to != Fanout(clients, open, except, msg)[j].to
  {
    if clients != [] {
      var init := clients[..|clients| - 1];
      var last := clients[|clients| - 1];
      FanoutOncePerMember(init, open, except, msg);
      var f := Fanout(init, open, except, msg);
      forall i | 0 <= i < |f|
        ensures f[i].to != last
      {
        FanoutMembers(init, open, except, msg, f[i]);
        assert f[i] in f;
      }
    }
  }

  // ---------------------------------------------------------------------------
  // The message handlers

  /** create-room */
  function OnCreate(rooms: Table, ws: ConnId, name: RoomName, now: nat): Effect
  {
    if name in rooms then
      Effect(rooms, [Envelope(ws, Error(RoomExistsText))], [])
    else
      Effect(rooms[name := Room([ws], "", now, None)], [Envelope(ws, RoomCreated(name))], [])
  }

  /** join-room */
  function OnJoin(rooms: Table, ws: ConnId, name: RoomName, open: set<ConnId>): Effect
  {
    if name in rooms then
      var room := rooms[name].(clients := WithMember(rooms[name].clients, ws));
      Effect(rooms[name := room],
             [Envelope(ws, LoadContent(room.content, name)), Envelope(ws, RoomJoined(name))]
               + Fanout(room.clients, open, None, UserCountUpdate(|room.clients|)),
             [])
    else
      Effect(rooms, [Envelope(ws, Error(RoomNotFoundText))], [])
  }

  /** update-content */
  function OnUpdate(rooms: Table, ws: ConnId, name: RoomName, content: string, now: nat, open: set<ConnId>): Effect
  {
    if name in rooms then
      var room := rooms[name].(content := content, lastUpdated := Some(now));
      Effect(rooms[name := room], Fanout(room.clients, open, Some(ws), ContentUpdate(content)), [])
    else
      Effect(rooms, [], [])
  }

  /** The message handler's dispatch on the `action` field. */
  function OnMessage(rooms: Table, ws: ConnId, msg: Inbound, now: nat, open: set<ConnId>): Effect
  {
    match msg
    case CreateRoom(name) => OnCreate(rooms, ws, name, now)
    case JoinRoom(name) => OnJoin(rooms, ws, name, open)
    case UpdateContent(name, content) => OnUpdate(rooms, ws, name, content, now, open)
    case Unrecognised => Effect(rooms, [], [])
  }

  // ---------------------------------------------------------------------------
  // The close handler

  function Closed(room: Room, ws: ConnId): Room
  {
    room.(clients := Without(room.clients, ws))
  }

  /** Every room with the closing connection filtered out. */
  function CloseTable(rooms: Table, ws: ConnId): Table
  {
    map n | n in rooms :: Closed(rooms[n], ws)
  }

  /** The table part-way through the close loop: the rooms in `done` are
      closed, the others untouched. */
  function PartlyClosed(rooms: Table, ws: ConnId, done: seq<RoomName>): Table
  {
    map n | n in rooms :: if n in done then Closed(rooms[n], ws) else rooms[n]
  }

  lemma PartlyClosedStep(rooms: Table, ws: ConnId, keys: seq<RoomName>, i: nat)
    requires NoDup(keys) && i < |keys| && keys[i] in rooms
    ensures PartlyClosed(rooms, ws, keys[..i])[keys[i]] == rooms[keys[i]]
    ensures PartlyClosed(rooms, ws, keys[..i + 1])
         == PartlyClosed(rooms, ws, keys[..i])[keys[i] := Closed(rooms[keys[i]], ws)]
  {
    assert keys[i] !in keys[..i];
    assert keys[..i + 1] == keys[..i] + [keys[i]];
  }

  lemma PartlyClosedAll(rooms: Table, ws: ConnId, keys: seq<RoomName>)
    requires Enumerates(keys, rooms)
    ensures PartlyClosed(rooms, ws, keys) == CloseTable(rooms, ws)
  {
  }

  /** The close loop's test `room.clients.length !== initialCount`. */
  predicate CountChanged(room: Room, ws: ConnId)
  {
    |Without(room.clients, ws)| != |room.clients|
  }

  /** The close loop arms a reap for this room: its count changed and is now 0. */
  predicate LeftEmpty(room: Room, ws: ConnId)
  {
    CountChanged(room, ws) && |Without(room.clients, ws)| == 0
  }

  /** What one iteration of the close loop sends for one room. */
  function LeaveNotices(room: Room, ws: ConnId, open: set<ConnId>): seq<Envelope>
  {
    if CountChanged(room, ws) then
      var left := Without(room.clients, ws);
      Fanout(left, open, None, UserCountUpdate(|left|))
    else []
  }

  /** What the close loop sends over the rooms `keys`, in order. */
  function CloseNotices(rooms: Table, keys: seq<RoomName>, ws: ConnId, open: set<ConnId>): seq<Envelope>
  {
    if keys == [] then []
    else
      var k := keys[|keys| - 1];
      CloseNotices(rooms, keys[..|keys| - 1], ws, open)
        + (if k in rooms then LeaveNotices(rooms[k], ws, open) else [])
  }

  /** The rooms, in loop order, for which the close loop arms a reap. */
  function Emptied(rooms: Table, keys: seq<RoomName>, ws: ConnId): seq<RoomName>
  {
    if keys == [] then []
    else
      var k := keys[|keys| - 1];
      Emptied(rooms, keys[..|keys| - 1], ws) + (if k in rooms && LeftEmpty(rooms[k], ws) then [k] else [])
  }

  /** One more iteration of the close loop appends that room's notices and,
      possibly, its name. */
  lemma CloseStep(rooms: Table, keys: seq<RoomName>, i: nat, ws: ConnId, open: set<ConnId>)
    requires i < |keys| && keys[i] in rooms
    ensures CloseNotices(rooms, keys[..i + 1], ws, open)
         == CloseNotices(rooms, keys[..i], ws, open) + LeaveNotices(rooms[keys[i]], ws, open)
    ensures Emptied(rooms, keys[..i + 1], ws)
         == Emptied(rooms, keys[..i], ws) + (if LeftEmpty(rooms[keys[i]], ws) then [keys[i]] else [])
  {
    assert keys[..i + 1][..i] == keys[..i];
  }

  /** close, iterating the rooms in the order `keys`. */
  function OnClose(rooms: Table, keys: seq<RoomName>, ws: ConnId, open: set<ConnId>): Effect
  {
    Effect(CloseTable(rooms, ws), CloseNotices(rooms, keys, ws, open), Emptied(rooms, keys, ws))
  }

  /** The reap callback: delete the room only if it is still there and still empty. */
  function Reap(rooms: Table, name: RoomName): Table
  {
    if name in rooms && |rooms[name].clients| == 0 then rooms - {name} else rooms
  }

  // ---------------------------------------------------------------------------
  // Properties of the handlers

  /** create-room refuses a taken name with one error to the sender and no
      change; otherwise it adds exactly that room, with the creator as its only
      member and empty text, and acknowledges to the sender only. */
  lemma CreateSpec(rooms: Table, ws: ConnId, name: RoomName, now: nat)
    ensures var e := OnCreate(rooms, ws, name, now);
      && e.armed == []
      && (name in rooms ==> e.rooms == rooms && e.sent == [Envelope(ws, Error(RoomExistsText))])
      && (name !in rooms ==>
            && e.rooms.Keys == rooms.Keys + {name}
            && e.rooms[name].clients == [ws] && e.rooms[name].content == ""
            && e.rooms[name].createdAt == now && e.rooms[name].lastUpdated == None
            && (forall n :: n in rooms ==> e.rooms[n] == rooms[n])
            && e.sent == [Envelope(ws, RoomCreated(name))])
  {
  }

  /** join-room on a present room: the sender becomes a member exactly once,
      nothing else in the table changes, the sender first gets the current text
      and then the acknowledgement, and every open member, the sender included,
      then gets the new member count, once. */
  lemma JoinSpec(rooms: Table, ws: ConnId, name: RoomName, open: set<ConnId>)
    requires name in rooms && NoDup(rooms[name].clients)
    ensures var e := OnJoin(rooms, ws, name, open);
      var after := e.rooms[name].clients;
      var updates := e.sent[2..];
      && e.armed == []
      && e.rooms.Keys == rooms.Keys
      && (forall n :: n in rooms && n != name ==> e.rooms[n] == rooms[n])
      && e.rooms[name].(clients := rooms[name].clients) == rooms[name]
      && ws in after && NoDup(after)
      && (forall c :: c in after <==> c in rooms[name].clients || c == ws)
      && |after| == |Elems(after)|
      && |e.sent| >= 2
      && e.sent[0] == Envelope(ws, LoadContent(rooms[name].content, name))
      && e.sent[1] == Envelope(ws, RoomJoined(name))
      && (forall c :: c in after && c in open ==> Envelope(c, UserCountUpdate(|after|)) in updates)
      && (forall u :: u in updates ==> u.to in after && u.to in open && u.msg == UserCountUpdate(|after|))
      && (forall i, j :: 0 <= i < j < |updates| ==> updates[i].to != updates[j].to)
  {
    var e := OnJoin(rooms, ws, name, open);
    var after := e.rooms[name].clients;
    var msg := UserCountUpdate(|after|);
    assert e.sent[2..] == Fanout(after, open, None, msg);
    forall u | true
      ensures u in Fanout(after, open, None, msg) <==> u.to in after && Delivers(u.to, open, None) && u.msg == msg
    {
      FanoutMembers(after, open, None, msg, u);
    }
    FanoutOncePerMember(after, open, None, msg);
    NoDupCount(after);
  }

  /** join-room on an absent room: only an error to the sender, no change. */
  lemma JoinAbsentSpec(rooms: Table, ws: ConnId, name: RoomName, open: set<ConnId>)
    requires name !in rooms
    ensures OnJoin(rooms, ws, name, open) == Effect(rooms, [Envelope(ws, Error(RoomNotFoundText))], [])
  {
  }

  /** update-content on a present room replaces the text, stamps the update
      time and keeps the membership; the new text goes to every open member
      other than the sender, and the sender gets nothing. On an absent room
      nothing changes and nothing is sent. */
  lemma UpdateSpec(rooms: Table, ws: ConnId, name: RoomName, content: string, now: nat, open: set<ConnId>)
    ensures var e := OnUpdate(rooms, ws, name, content, now, open);
      && e.armed == []
      && (name !in rooms ==> e.rooms == rooms && e.sent == [])
      && (name in rooms ==>
            && e.rooms.Keys == rooms.Keys
            && (forall n :: n in rooms && n != name ==> e.rooms[n] == rooms[n])
            && e.rooms[name].content == content && e.rooms[name].lastUpdated == Some(now)
            && e.rooms[name].clients == rooms[name].clients
            && e.rooms[name].createdAt == rooms[name].createdAt
            && (forall c :: c in rooms[name].clients && c in open && c != ws ==>
                  Envelope(c, ContentUpdate(content)) in e.sent)
            && (forall u :: u in e.sent ==>
                  u.to != ws && u.to in rooms[name].clients && u.to in open && u.msg == ContentUpdate(content)))
  {
    if name in rooms {
      var clients := rooms[name].clients;
      forall u | true
        ensures u in Fanout(clients, open, Some(ws), ContentUpdate(content)) <==>
          u.to in clients && Delivers(u.to, open, Some(ws)) && u.msg == ContentUpdate(content)
      {
        FanoutMembers(clients, open, Some(ws), ContentUpdate(content), u);
      }
    }
  }

  /** After a close, no room holds the connection, every room keeps its other
      members in their order and all its other fields, and a room that did not
      hold the connection is unchanged. */
  lemma CloseTableSpec(rooms: Table, ws: ConnId)
    requires MembersDistinct(rooms)
    ensures var after := CloseTable(rooms, ws);
      && after.Keys == rooms.Keys
      && (forall n :: n in rooms ==> ws !in after[n].clients)
      && (forall n :: n in rooms ==> after[n].(clients := rooms[n].clients) == rooms[n])
      && (forall n :: n in rooms && ws !in rooms[n].clients ==> after[n] == rooms[n])
      && (forall n, i :: n in rooms && 0 <= i < |rooms[n].clients| && rooms[n].clients[i] == ws ==>
            after[n].clients == rooms[n].clients[..i] + rooms[n].clients[i + 1..])
  {
    var after := CloseTable(rooms, ws);
    forall n | n in rooms
      ensures ws !in after[n].clients
    {
      WithoutMembers(rooms[n].clients, ws, ws);
    }
    forall n | n in rooms && ws !in rooms[n].clients
      ensures after[n] == rooms[n]
    {
      WithoutAbsent(rooms[n].clients, ws);
    }
    forall n, i | n in rooms && 0 <= i < |rooms[n].clients| && rooms[n].clients[i] == ws
      ensures after[n].clients == rooms[n].clients[..i] + rooms[n].clients[i + 1..]
    {
      WithoutSplice(rooms[n].clients, ws, i);
    }
  }

  /** Envelope `e` is a count update the close sends for room `k`: the room
      held the connection, and `e` goes to an open remaining member with the
      room's new count. */
  predicate NoticeFor(rooms: Table, k: RoomName, ws: ConnId, open: set<ConnId>, e: Envelope)
  {
    && k in rooms && ws in rooms[k].clients
    && e.to in open && e.to in rooms[k].clients && e.to != ws
    && e.msg == UserCountUpdate(|Without(rooms[k].clients, ws)|)
  }

  lemma LeaveNoticeMembers(rooms: Table, k: RoomName, ws: ConnId, open: set<ConnId>, e: Envelope)
    ensures e in (if k in rooms then LeaveNotices(rooms[k], ws, open) else []) <==> NoticeFor(rooms, k, ws, open, e)
  {
    if k in rooms {
      var left := Without(rooms[k].clients, ws);
      CountChangesIffMember(rooms[k].clients, ws);
      FanoutMembers(left, open, None, UserCountUpdate(|left|), e);
      WithoutMembers(rooms[k].clients, ws, e.to);
    }
  }

  /** The close sends a count update exactly to the open remaining members of
      the rooms that held the connection, each carrying that room's new count;
      rooms that did not hold it get nothing. */
  lemma {:induction false} CloseNoticeMembers(rooms: Table, keys: seq<RoomName>, ws: ConnId, open: set<ConnId>, e: Envelope)
    ensures e in CloseNotices(rooms, keys, ws, open) <==> exists k :: k in keys && NoticeFor(rooms, k, ws, open, e)
  {
    if keys != [] {
      var init := keys[..|keys| - 1];
      var last := keys[|keys| - 1];
      CloseNoticeMembers(rooms, init, ws, open, e);
      LeaveNoticeMembers(rooms, last, ws, open, e);
      assert keys == init + [last];
      if e in CloseNotices(rooms, keys, ws, open) {
        if e in (if last in rooms then LeaveNotices(rooms[last], ws, open) else []) {
          assert last in keys;
        } else {
          assert e in CloseNotices(rooms, init, ws, open);
          var k :| k in init && NoticeFor(rooms, k, ws, open, e);
          assert k in keys;
        }
      }
      if exists k :: k in keys && NoticeFor(rooms, k, ws, open, e) {
        var k :| k in keys && NoticeFor(rooms, k, ws, open, e);
        if k != last {
          assert k in init;
        }
      }
    }
  }

  /** A reap is armed for room `k` exactly when `k` held the connection and is
      left without members by this close. */
  lemma {:induction false} EmptiedMembers(rooms: Table, keys: seq<RoomName>, ws: ConnId, k: RoomName)
    ensures k in Emptied(rooms, keys, ws) <==>
      k in keys && k in rooms && ws in rooms[k].clients && CloseTable(rooms, ws)[k].clients == []
  {
    if keys != [] {
      var init := keys[..|keys| - 1];
      var last := keys[|keys| - 1];
      EmptiedMembers(rooms, init, ws, k);
      assert keys == init + [last];
      if k in rooms {
        CountChangesIffMember(rooms[k].clients, ws);
      }
    }
  }

  /** Closing a connection that is in no room changes nothing and sends nothing. */
  lemma CloseNonMemberIsNoOp(rooms: Table, keys: seq<RoomName>, ws: ConnId, open: set<ConnId>)
    requires forall n :: n in rooms ==> ws !in rooms[n].clients
    ensures OnClose(rooms, keys, ws, open) == Effect(rooms, [], [])
  {
    forall n | n in rooms
      ensures CloseTable(rooms, ws)[n] == rooms[n]
    {
      WithoutAbsent(rooms[n].clients, ws);
    }
    var notices := CloseNotices(rooms, keys, ws, open);
    if notices != [] {
      CloseNoticeMembers(rooms, keys, ws, open, notices[0]);
      assert false;
    }
    var armed := Emptied(rooms, keys, ws);
    if armed != [] {
      EmptiedMembers(rooms, keys, ws, armed[0]);
      assert false;
    }
  }

  /** Firing a reap removes its room exactly when the room is present and has
      no member; every other room, and a non-empty one, is kept as it is. */
  lemma ReapSpec(rooms: Table, name: RoomName)
    ensures var after := Reap(rooms, name);
      && (name in after <==> name in rooms && rooms[name].clients != [])
      && (forall n :: n != name ==> (n in after <==> n in rooms))
      && (forall n :: n in after ==> after[n] == rooms[n])
  {
  }

  /** A room whose reap was armed by a close but which is joined again before
      the reap fires is not deleted by it. */
  lemma RejoinedRoomSurvivesReap(rooms: Table, keys: seq<RoomName>, ws: ConnId, open: set<ConnId>,
                                 name: RoomName, joiner: ConnId, open': set<ConnId>)
    requires name in OnClose(rooms, keys, ws, open).armed
    ensures var rejoined := OnJoin(OnClose(rooms, keys, ws, open).rooms, joiner, name, open').rooms;
      name in rejoined && Reap(rejoined, name) == rejoined
  {
    EmptiedMembers(rooms, keys, ws, name);
  }

  // ---------------------------------------------------------------------------
  // The invariant is kept by every handler and by the reap

  lemma CreateKeepsConsistent(rooms: Table, pending: seq<RoomName>, ws: ConnId, name: RoomName, now: nat)
    requires Consistent(rooms, pending)
    ensures var e := OnCreate(rooms, ws, name, now); Consistent(e.rooms, pending + e.armed)
  {
  }

  lemma JoinKeepsConsistent(rooms: Table, pending: seq<RoomName>, ws: ConnId, name: RoomName, open: set<ConnId>)
    requires Consistent(rooms, pending)
    ensures var e := OnJoin(rooms, ws, name, open); Consistent(e.rooms, pending + e.armed)
  {
  }

  lemma UpdateKeepsConsistent(rooms: Table, pending: seq<RoomName>, ws: ConnId, name: RoomName, content: string, now: nat, open: set<ConnId>)
    requires Consistent(rooms, pending)
    ensures var e := OnUpdate(rooms, ws, name, content, now, open); Consistent(e.rooms, pending + e.armed)
  {
  }

  lemma MessageKeepsConsistent(rooms: Table, pending: seq<RoomName>, ws: ConnId, msg: Inbound, now: nat, open: set<ConnId>)
    requires Consistent(rooms, pending)
    ensures var e := OnMessage(rooms, ws, msg, now, open); Consistent(e.rooms, pending + e.armed)
  {
  }

  /** Close keeps members distinct, and every room it leaves empty either was
      already empty (and already had a reap) or gets one armed now. */
  lemma CloseKeepsConsistent(rooms: Table, pending: seq<RoomName>, keys: seq<RoomName>, ws: ConnId, open: set<ConnId>)
    requires Consistent(rooms, pending) && Enumerates(keys, rooms)
    ensures var e := OnClose(rooms, keys, ws, open); Consistent(e.rooms, pending + e.armed)
  {
    var e := OnClose(rooms, keys, ws, open);
    forall n | n in e.rooms
      ensures NoDup(e.rooms[n].clients)
    {
      WithoutNoDup(rooms[n].clients, ws);
    }
    forall n | n in e.rooms && e.rooms[n].clients == []
      ensures n in pending + e.armed
    {
      if ws in rooms[n].clients {
        EmptiedMembers(rooms, keys, ws, n);
      } else {
        WithoutAbsent(rooms[n].clients, ws);
      }
    }
  }

  lemma ReapKeepsConsistent(rooms: Table, pending: seq<RoomName>)
    requires Consistent(rooms, pending) && pending != []
    ensures Consistent(Reap(rooms, pending[0]), pending[1..])
  {
  }

  /** Every armed reap fired in turn, with no other event in between. */
  function Drain(rooms: Table, pending: seq<RoomName>): Table
  {
    if pending == [] then rooms else Drain(Reap(rooms, pending[0]), pending[1..])
  }

  /** Once every armed reap has fired, exactly the rooms that were empty are
      gone, whatever the order of the timers, and the others are untouched. */
  lemma {:induction false} DrainRemovesExactlyEmptyRooms(rooms: Table, pending: seq<RoomName>)
    requires Consistent(rooms, pending)
    ensures var after := Drain(rooms, pending);
      && (forall n :: n in after <==> n in rooms && rooms[n].clients != [])
      && (forall n :: n in after ==> after[n] == rooms[n])
  {
    if pending != [] {
      ReapKeepsConsistent(rooms, pending);
      DrainRemovesExactlyEmptyRooms(Reap(rooms, pending[0]), pending[1..]);
    }
  }

  // ---------------------------------------------------------------------------
  // A session end to end

  /** Connection 1 creates "alpha" and joins it, connection 2 joins, and 1
      sends "hello": 1 is loaded with the empty text and sees the count 1 and
      then 2, 2 receives "hello", 1 receives nothing for its own update, and
      when 1 closes, 2 is told the count is 1 and no reap is armed. */
  lemma SharedEditSession(now: nat)
    ensures var open := {1, 2};
      var created := OnCreate(map[], 1, "alpha", now);
      var joined1 := OnJoin(created.rooms, 1, "alpha", open);
      var joined2 := OnJoin(joined1.rooms, 2, "alpha", open);
      var edited := OnUpdate(joined2.rooms, 1, "alpha", "hello", now + 1, open);
      var closed := OnClose(edited.rooms, ["alpha"], 1, open);
      && created.sent == [Envelope(1, RoomCreated("alpha"))]
      && joined1.sent == [Envelope(1, LoadContent("", "alpha")), Envelope(1, RoomJoined("alpha")),
                          Envelope(1, UserCountUpdate(1))]
      && joined2.sent == [Envelope(2, LoadContent("", "alpha")), Envelope(2, RoomJoined("alpha")),
                          Envelope(1, UserCountUpdate(2)), Envelope(2, UserCountUpdate(2))]
      && edited.sent == [Envelope(2, ContentUpdate("hello"))]
      && edited.rooms["alpha"].content == "hello"
      && closed.sent == [Envelope(2, UserCountUpdate(1))]
      && closed.armed == []
      && closed.rooms["alpha"].clients == [2]
  {
    var open: set<ConnId> := {1, 2};
    var created := OnCreate(map[], 1, "alpha", now);
    assert created.rooms["alpha"].clients == [1];
    var joined1 := OnJoin(created.rooms, 1, "alpha", open);
    assert joined1.rooms["alpha"].clients == [1];
    var joined2 := OnJoin(joined1.rooms, 2, "alpha", open);
    assert joined2.rooms["alpha"].clients == [1, 2];
    assert [1, 2][..1] == [1];
    var edited := OnUpdate(joined2.rooms, 1, "alpha", "hello", now + 1, open);
    assert edited.rooms["alpha"].clients == [1, 2];
    assert Without([1, 2], 1) == [2];
    assert Without([2], 1) == [2];
    assert created.sent == [Envelope(1, RoomCreated("alpha"))];
    assert joined1.sent == [Envelope(1, LoadContent("", "alpha")), Envelope(1, RoomJoined("alpha")),
                          Envelope(1, UserCountUpdate(1))];
    assert joined2.sent == [Envelope(2, LoadContent("", "alpha")), Envelope(2, RoomJoined("alpha")),
                          Envelope(1, UserCountUpdate(2)), Envelope(2, UserCountUpdate(2))];
    assert edited.sent == [Envelope(2, ContentUpdate("hello"))];
    var closed := OnClose(edited.rooms, ["alpha"], 1, open);
    assert [2][..0] == [];
    assert LeaveNotices(edited.rooms["alpha"], 1, open) == [Envelope(2, UserCountUpdate(1))];
    CloseStep(edited.rooms, ["alpha"], 0, 1, open);
    assert ["alpha"][..0] == [] && ["alpha"][..1] == ["alpha"];
    assert closed.sent == [Envelope(2, UserCountUpdate(1))];
    assert closed.armed == [];
  }

  /** Reaps are not cancelled: connection 1 leaves "alpha" (a reap is armed),
      connection 2 joins, then leaves (a second reap is armed). When the first
      reap fires, before the second grace period is over, it deletes "alpha". */
  lemma StaleReapDeletesReemptiedRoom(now: nat, open: set<ConnId>)
    ensures var start := map["alpha" := Room([1], "", now, None)];
      var left1 := OnClose(start, ["alpha"], 1, open);
      var joined := OnJoin(left1.rooms, 2, "alpha", open);
      var left2 := OnClose(joined.rooms, ["alpha"], 2, open);
      var pending := left1.armed + left2.armed;
      && pending == ["alpha", "alpha"]
      && "alpha" in left2.rooms
      && "alpha" !in Reap(left2.rooms, pending[0])
  {
    var start := map["alpha" := Room([1], "", now, None)];
    assert Without([1], 1) == [];
    var left1 := OnClose(start, ["alpha"], 1, open);
    assert left1.rooms["alpha"].clients == [];
    var joined := OnJoin(left1.rooms, 2, "alpha", open);
    assert joined.rooms["alpha"].clients == [2];
    assert Without([2], 2) == [];
    assert ["alpha"][..0] == [];
    CloseStep(start, ["alpha"], 0, 1, open);
    CloseStep(joined.rooms, ["alpha"], 0, 2, open);
    assert ["alpha"][..1] == ["alpha"];
  }
}
