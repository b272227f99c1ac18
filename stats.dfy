/** The read-only views served over HTTP: the server statistics and the
    per-room info record. Both enumerate the table in the order `keys`, the
    order `Object.keys` yields. */
module Stats {
  import opened Protocol
  import opened Rooms

  datatype RoomSummary = RoomSummary(name: RoomName, userCount: nat, createdAt: nat)
  datatype ServerStats = ServerStats(totalRooms: nat, totalUsers: nat, rooms: seq<RoomSummary>)
  datatype RoomInfo = RoomInfo(roomName: RoomName, userCount: nat, createdAt: nat, lastUpdated: Option<nat>)

  /** The `reduce` summing member counts over the rooms `keys`, left to right. */
  function TotalUsers(rooms: Table, keys: seq<RoomName>): nat
    requires forall k :: k in keys ==> k in rooms
  {
    if keys == [] then 0
    else TotalUsers(rooms, keys[..|keys| - 1]) + |rooms[keys[|keys| - 1]].clients|
  }

  function Summaries(rooms: Table, keys: seq<RoomName>): seq<RoomSummary>
    requires forall k :: k in keys ==> k in rooms
  {
    seq(|keys|, i requires 0 <= i < |keys| => RoomSummary(keys[i], |rooms[keys[i]].clients|, rooms[keys[i]].createdAt))
  }

  /** GET /api/stats */
  function GetStats(rooms: Table, keys: seq<RoomName>): ServerStats
    requires Enumerates(keys, rooms)
  {
    ServerStats(|keys|, TotalUsers(rooms, keys), Summaries(rooms, keys))
  }

  /** GET /api/room/:roomName/info; `None` is the 404 reply. */
  function GetRoomInfo(rooms: Table, name: RoomName): (r: Option<RoomInfo>)
    ensures r.None? <==> name !in rooms
    ensures r.Some? ==>
      && r.value.roomName == name && r.value.userCount == |rooms[name].clients|
      && r.value.createdAt == rooms[name].createdAt && r.value.lastUpdated == rooms[name].lastUpdated
  {
    if name in rooms then
      var room := rooms[name];
      Some(RoomInfo(name, |room.clients|, room.createdAt, room.lastUpdated))
    else None
  }

  /** The statistics count every room of the table once: the room count is
      the table's size and the summaries list each room once, with its
      current member count and creation time. */
  lemma StatsSpec(rooms: Table, keys: seq<RoomName>)
    requires Enumerates(keys, rooms)
    ensures var s := GetStats(rooms, keys);
      && s.totalRooms == |rooms|
      && |s.rooms| == |rooms|
      && (forall n :: n in rooms <==> exists i :: 0 <= i < |s.rooms| && s.rooms[i].name == n)
      && (forall i, j :: 0 <= i < j < |s.rooms| ==> s.rooms[i].name != s.rooms[j].name)
      && (forall i :: 0 <= i < |s.rooms| ==>
            s.rooms[i].name in rooms
            && s.rooms[i].userCount == |rooms[s.rooms[i].name].clients|
            && s.rooms[i].createdAt == rooms[s.rooms[i].name].createdAt)
  {
    NoDupCount(keys);
    assert Elems(keys) == rooms.Keys;
    var s := GetStats(rooms, keys);
    forall n | n in rooms
      ensures exists i :: 0 <= i < |s.rooms| && s.rooms[i].name == n
    {
      var i :| 0 <= i < |keys| && keys[i] == n;
      assert s.rooms[i].name == n;
    }
  }

  /** The number of rooms among `keys` that hold connection `ws`. */
  function Memberships(rooms: Table, keys: seq<RoomName>, ws: ConnId): nat
    requires forall k :: k in keys ==> k in rooms
  {
    if keys == [] then 0
    else Memberships(rooms, keys[..|keys| - 1], ws) + (if ws in rooms[keys[|keys| - 1]].clients then 1 else 0)
  }

  /** A close lowers the total user count by exactly the number of rooms the
      connection was in. */
  lemma {:induction false} TotalUsersAfterClose(rooms: Table, keys: seq<RoomName>, ws: ConnId)
    requires MembersDistinct(rooms) && forall k :: k in keys ==> k in rooms
    ensures TotalUsers(CloseTable(rooms, ws), keys) + Memberships(rooms, keys, ws) == TotalUsers(rooms, keys)
  {
    if keys != [] {
      var init := keys[..|keys| - 1];
      var last := keys[|keys| - 1];
      assert forall k :: k in init ==> k in keys;
      TotalUsersAfterClose(rooms, init, ws);
      CountChangesIffMember(rooms[last].clients, ws);
      if ws in rooms[last].clients {
        var i :| 0 <= i < |rooms[last].clients| && rooms[last].clients[i] == ws;
        WithoutSplice(rooms[last].clients, ws, i);
      }
    }
  }

  /** A join raises the total user count by one when the sender was not yet a
      member of the room, and leaves it unchanged otherwise. */
  lemma {:induction false} TotalUsersAfterJoin(rooms: Table, keys: seq<RoomName>, ws: ConnId, name: RoomName, open: set<ConnId>)
    requires name in rooms && NoDup(keys) && forall k :: k in keys ==> k in rooms
    ensures var after := OnJoin(rooms, ws, name, open).rooms;
      TotalUsers(after, keys)
        == TotalUsers(rooms, keys) + (if name in keys && ws !in rooms[name].clients then 1 else 0)
  {
    if keys != [] {
      var init := keys[..|keys| - 1];
      var last := keys[|keys| - 1];
      assert keys == init + [last];
      assert forall k :: k in init ==> k in keys;
      assert NoDup(init);
      TotalUsersAfterJoin(rooms, init, ws, name, open);
      assert last == name ==> name !in init;
    }
  }
}
