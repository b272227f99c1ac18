/** The room lookups as written. The table is a plain JavaScript object, so
    `rooms[name]` is also truthy for every name that object inherits from
    Object.prototype, although no room of that name exists. create-room then
    refuses the name; join-room, update-content and the info endpoint go on
    to read `.clients` of the inherited value, which is undefined, and throw. */
module Lookup {
  import opened Protocol
  import opened Rooms
  import opened Stats

  /** A handler run as written: it completes with an effect, or a TypeError
      is thrown out of the listener part-way through. Nothing catches it, so
      the server process exits and the whole table is lost. */
  datatype Outcome = Completed(effect: Effect) | Threw

  /** The info endpoint's reply: the record, the 404, or the 500 Express
      sends when the route handler throws. */
  datatype InfoReply = Found(info: RoomInfo) | NotFound | ServerError

  /** Names a plain object inherits from Object.prototype. */
  const InheritedNames: set<RoomName> := {
    "__proto__", "__defineGetter__", "__defineSetter__", "__lookupGetter__", "__lookupSetter__",
    "constructor", "hasOwnProperty", "isPrototypeOf", "propertyIsEnumerable",
    "toLocaleString", "toString", "valueOf"
  }

  /** The test `if (rooms[data.roomName])` as the object lookup evaluates it. */
  predicate TakenAsWritten(rooms: Table, name: RoomName)
  {
    name in rooms || name in InheritedNames
  }

  /** create-room with the inherited-name lookup. */
  function OnCreateAsWritten(rooms: Table, ws: ConnId, name: RoomName, now: nat): Effect
  {
    if TakenAsWritten(rooms, name) then
      Effect(rooms, [Envelope(ws, Error(RoomExistsText))], [])
    else
      Effect(rooms[name := Room([ws], "", now, None)], [Envelope(ws, RoomCreated(name))], [])
  }

  /** On an empty server, creating a room named "constructor" is refused as
      a duplicate, while the own-key test creates it. */
  lemma InheritedNameRefused(ws: ConnId, now: nat)
    ensures OnCreateAsWritten(map[], ws, "constructor", now).sent == [Envelope(ws, Error(RoomExistsText))]
    ensures OnCreate(map[], ws, "constructor", now).sent == [Envelope(ws, RoomCreated("constructor"))]
  {
  }

  /** For every other name the two lookups agree. */
  lemma AsWrittenAgreesOffInheritedNames(rooms: Table, ws: ConnId, name: RoomName, now: nat)
    requires name !in InheritedNames
    ensures OnCreateAsWritten(rooms, ws, name, now) == OnCreate(rooms, ws, name, now)
  {
  }

  /** join-room as written: an inherited name passes the truthiness test and
      `room.clients.includes(ws)` throws. */
  function OnJoinAsWritten(rooms: Table, ws: ConnId, name: RoomName, open: set<ConnId>): Outcome
  {
    if name !in rooms && name in InheritedNames then Threw else Completed(OnJoin(rooms, ws, name, open))
  }

  /** update-content as written: for an inherited name the text and timestamp
      are written onto the inherited object, then `room.clients.forEach`
      throws. Those writes are outside the table and not modelled. */
  function OnUpdateAsWritten(rooms: Table, ws: ConnId, name: RoomName, content: string, now: nat, open: set<ConnId>): Outcome
  {
    if name !in rooms && name in InheritedNames then Threw else Completed(OnUpdate(rooms, ws, name, content, now, open))
  }

  /** GET /api/room/:roomName/info as written: for an inherited name
      `room.clients.length` throws and Express answers 500. */
  function RoomInfoAsWritten(rooms: Table, name: RoomName): InfoReply
  {
    if name !in rooms && name in InheritedNames then ServerError
    else match GetRoomInfo(rooms, name)
      case Some(info) => Found(info)
      case None => NotFound
  }

  /** join-room on "constructor" throws as written, while the own-key model
      answers with the not-found error and changes nothing. */
  lemma JoinInheritedNameThrows(rooms: Table, ws: ConnId, open: set<ConnId>)
    requires "constructor" !in rooms
    ensures OnJoinAsWritten(rooms, ws, "constructor", open) == Threw
    ensures OnJoin(rooms, ws, "constructor", open) == Effect(rooms, [Envelope(ws, Error(RoomNotFoundText))], [])
  {
  }

  /** update-content on "__proto__" throws as written, while the own-key
      model silently drops it. */
  lemma UpdateInheritedNameThrows(rooms: Table, ws: ConnId, content: string, now: nat, open: set<ConnId>)
    requires "__proto__" !in rooms
    ensures OnUpdateAsWritten(rooms, ws, "__proto__", content, now, open) == Threw
    ensures OnUpdate(rooms, ws, "__proto__", content, now, open) == Effect(rooms, [], [])
  {
  }

  /** The info request for "constructor" fails with 500 as written, while
      the own-key model answers 404. */
  lemma InfoInheritedNameFails(rooms: Table)
    requires "constructor" !in rooms
    ensures RoomInfoAsWritten(rooms, "constructor") == ServerError
    ensures GetRoomInfo(rooms, "constructor") == None
  {
  }

  /** Off the inherited names, the as-written join, update and info agree
      with the model's. */
  lemma LookupsAgreeOffInheritedNames(rooms: Table, ws: ConnId, name: RoomName, content: string, now: nat, open: set<ConnId>)
    requires name !in InheritedNames
    ensures OnJoinAsWritten(rooms, ws, name, open) == Completed(OnJoin(rooms, ws, name, open))
    ensures OnUpdateAsWritten(rooms, ws, name, content, now, open) == Completed(OnUpdate(rooms, ws, name, content, now, open))
    ensures RoomInfoAsWritten(rooms, name) == (if name in rooms then Found(GetRoomInfo(rooms, name).value) else NotFound)
  {
  }
}
