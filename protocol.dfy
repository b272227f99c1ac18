/** Vocabulary of the notepad relay: connection handles, the room record kept in
    the server's `rooms` table, and the envelopes exchanged over a connection.
    JSON framing is not modelled: inbound and outbound envelopes are datatypes. */
module Protocol {

  datatype Option<+T> = None | Some(value: T)

  /** An opaque connection handle. The relay only ever compares handles. */
  type ConnId = nat

  /** Room names are compared character by character, without normalisation. */
  type RoomName = string

  /** One entry of the `rooms` table: its members in join order, the shared
      text, the creation time and the time of the last accepted update. */
  datatype Room = Room(clients: seq<ConnId>, content: string, createdAt: nat, lastUpdated: Option<nat>)

  /** An inbound envelope, by its `action` field. Any other action matches no
      handler branch and is ignored. */
  datatype Inbound =
    | CreateRoom(roomName: RoomName)
    | JoinRoom(roomName: RoomName)
    | UpdateContent(roomName: RoomName, content: string)
    | Unrecognised

  /** An outbound envelope. `ContentUpdate` is the relayed `update-content`
      action; `Error` is the bare `{ error }` object. */
  datatype Outbound =
    | RoomCreated(roomName: RoomName)
    | LoadContent(content: string, roomName: RoomName)
    | RoomJoined(roomName: RoomName)
    | UserCountUpdate(count: nat)
    | ContentUpdate(content: string)
    | Error(text: string)

  /** One `send` on the connection `to`. */
  datatype Envelope = Envelope(to: ConnId, msg: Outbound)

  const RoomExistsText: string := "Room already exists. Please choose a different name."
  const RoomNotFoundText: string := "Room not found. Please check the room code."
}
