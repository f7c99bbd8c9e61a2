/**
 The server's three pieces of in-memory state: which socket each username was last
 seen on, who is in each room, and the set of active room names.
 */
module Registry {
  import InsertionSet
  import opened AssocList

  type Username = string
  type SocketId = string
  type RoomName = string

  /** The seven department rooms the active-room set starts with, in insertion order. */
  const SeedRooms: seq<RoomName> :=
    ["Jobers", "Ventas", "Coordinacion", "Gestion", "Marketing", "Contabilidad", "RRHH"]

  /**
   `userSockets`: username to socket id; `roomUsers`: room to member set;
   `activeRooms`: the room names `/api/rooms` lists.
   */
  datatype State = State(
    userSockets: seq<(Username, SocketId)>,
    roomUsers: seq<(RoomName, seq<Username>)>,
    activeRooms: seq<RoomName>)

  /** Every member list stored in the room table is a set. */
  predicate MemberSets(ru: seq<(RoomName, seq<Username>)>) {
    forall r :: r in Keys(ru) ==> InsertionSet.NoDup(Get(ru, r).value)
  }

  /** The shape JavaScript's `Map` and `Set` guarantee by construction. */
  predicate Wf(s: State) {
    && UniqueKeys(s.userSockets)
    && UniqueKeys(s.roomUsers)
    && MemberSets(s.roomUsers)
    && InsertionSet.NoDup(s.activeRooms)
  }

  /** The state at server start: nobody connected, no member sets, the seed rooms active. */
  const Init: State := State([], [], SeedRooms)

  /** The seed rooms are seven distinct names, so the start state is well formed. */
  lemma InitWf()
    ensures Wf(Init)
    ensures |Init.activeRooms| == 7
  {
  }

  /** `GET /api/rooms`: the active-room set as an array. */
  function ListRooms(s: State): seq<RoomName> {
    s.activeRooms
  }
}
