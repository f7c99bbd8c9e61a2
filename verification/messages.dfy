/** The persisted message record: the `Message` schema of the store, reduced to its fields. */
module Messages {
  import opened Wrappers

  /** Milliseconds since the epoch; the model never reads a clock, callers pass times in. */
  type Timestamp = int

  /** The schema's three-way `type` enum: `"room"`, `"direct"` and `"system"`. */
  datatype MessageType = RoomType | DirectType | SystemType

  /** A stored message; fields the writer does not set are `None`. */
  datatype Record = Record(
    kind: MessageType,
    room: Option<string>,
    username: Option<string>,
    from: Option<string>,
    to: Option<string>,
    text: string,
    timestamp: Timestamp)

  /** What `sendMessage` saves: room, sender and text, typed `"room"`. */
  function RoomRecord(room: string, username: string, text: string, t: Timestamp): Record {
    Record(RoomType, Some(room), Some(username), None, None, text, t)
  }

  /** What `directMessage` saves: sender, recipient and text, typed `"direct"`, with no room. */
  function DirectRecord(from: string, to: string, text: string, t: Timestamp): Record {
    Record(DirectType, None, None, Some(from), Some(to), text, t)
  }
}
