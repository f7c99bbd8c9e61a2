/**
 The connection handler as a whole: the stream of socket events the server processes
 one at a time, and the properties that hold across any such stream.
 */
module Server {
  import opened Wrappers
  import InsertionSet
  import opened AssocList
  import opened Messages
  import opened Registry
  import opened Router

  /** One inbound socket event with its payload and the inputs the model takes from outside. */
  datatype Input =
    | Join(socket: SocketId, username: Username, room: RoomName)
    | Leave(username: Username, room: RoomName)
    | Direct(socket: SocketId, from: Username, to: Username, text: string,
             deliverTime: Timestamp, echoTime: Timestamp, saveTime: Timestamp)
    | Send(username: Username, room: RoomName, text: string, t: Timestamp, saved: bool)
    | Drop(socket: SocketId)

  /** Dispatch one event to its handler. */
  function Step(s: State, e: Input): (out: Outcome)
    requires Wf(s)
    ensures Wf(out.state)
  {
    match e
    case Join(socket, username, room) => JoinRoom(s, socket, username, room)
    case Leave(username, room) => LeaveRoom(s, username, room)
    case Direct(socket, from, to, text, t1, t2, t3) => DirectMessage(s, socket, from, to, text, t1, t2, t3)
    case Send(username, room, text, t, saved) => SendMessage(s, username, room, text, t, saved)
    case Drop(socket) => Disconnect(s, socket)
  }

  /** Process events in order; the effects are concatenated in the same order. */
  function Run(s: State, es: seq<Input>): (out: Outcome)
    requires Wf(s)
    ensures Wf(out.state)
    decreases |es|
  {
    if |es| == 0 then Outcome(s, [])
    else
      var first := Step(s, es[0]);
      var rest := Run(first.state, es[1..]);
      Outcome(rest.state, first.effects + rest.effects)
  }

  /** An `emit` of the active-room list. */
  predicate AnnouncesRooms(e: Effect) {
    e.Emit? && e.event.RoomsUpdated?
  }

  /**
   One event keeps the active-room set equal to the seed rooms, and any `roomsUpdated`
   it emits goes to everyone and carries exactly the seed rooms.
   */
  lemma StepKeepsSeedRooms(s: State, e: Input)
    requires Wf(s) && s.activeRooms == SeedRooms
    ensures Step(s, e).state.activeRooms == SeedRooms
    ensures forall eff :: eff in Step(s, e).effects && AnnouncesRooms(eff) ==>
      eff == Emit(ToEveryone, RoomsUpdated(SeedRooms))
  {
    match e
    case Leave(username, room) => LeaveKeepsSeedRooms(s, username, room);
    case Drop(socket) =>
    case Join(_, _, _) =>
    case Direct(_, _, _, _, _, _, _) =>
    case Send(_, _, _, _, _) =>
  }

  /** `leaveRoom` from a state whose active rooms are the seed rooms keeps them so. */
  lemma LeaveKeepsSeedRooms(s: State, username: Username, room: RoomName)
    requires Wf(s) && s.activeRooms == SeedRooms
    ensures LeaveRoom(s, username, room).state.activeRooms == SeedRooms
    ensures forall eff :: eff in LeaveRoom(s, username, room).effects && AnnouncesRooms(eff) ==>
      eff == Emit(ToEveryone, RoomsUpdated(SeedRooms))
  {
  }

  /**
   No event ever adds to the active-room set and `leaveRoom` only deletes names that
   were never in it, so across any run the set stays the seed rooms, and every
   `roomsUpdated` broadcast carries exactly the seed rooms.
   */
  lemma {:induction false} RunKeepsSeedRooms(s: State, es: seq<Input>)
    requires Wf(s) && s.activeRooms == SeedRooms
    ensures Run(s, es).state.activeRooms == SeedRooms
    ensures forall eff :: eff in Run(s, es).effects && AnnouncesRooms(eff) ==>
      eff == Emit(ToEveryone, RoomsUpdated(SeedRooms))
    decreases |es|
  {
    if |es| > 0 {
      StepKeepsSeedRooms(s, es[0]);
      RunKeepsSeedRooms(Step(s, es[0]).state, es[1..]);
    }
  }

  /**
   `GET /api/rooms` answers the seed rooms, in seed order, after any sequence of events
   since server start; a room created by `joinRoom` never appears in it.
   */
  lemma ListedRoomsAreSeedRooms(es: seq<Input>, room: RoomName)
    ensures ListRooms(Run(Init, es).state) == SeedRooms
    ensures room !in SeedRooms ==> room !in ListRooms(Run(Init, es).state)
  {
    InitWf();
    RunKeepsSeedRooms(Init, es);
  }

  /** Joining the same room twice from the same socket leaves the state of joining once. */
  lemma JoinIdempotent(s: State, socket: SocketId, username: Username, room: RoomName)
    requires Wf(s)
    ensures var once := JoinRoom(s, socket, username, room);
      JoinRoom(once.state, socket, username, room) == once
  {
    var once := JoinRoom(s, socket, username, room);
    var members := InsertionSet.Add(MembersOf(s.roomUsers, room), username);
    PutPut(s.userSockets, username, socket, socket);
    PutPut(s.roomUsers, room, members, members);
  }

  /**
   A sole member joining and then leaving a room that had no entry restores the room
   table exactly; for a non-seed room everyone then hears the (unchanged) active-room list.
   */
  lemma JoinThenLeaveFreshRoom(s: State, socket: SocketId, username: Username, room: RoomName)
    requires Wf(s) && room !in Keys(s.roomUsers)
    ensures var joined := JoinRoom(s, socket, username, room).state;
      var left := LeaveRoom(joined, username, room);
      && left.state.roomUsers == s.roomUsers
      && left.state.userSockets == joined.userSockets
      && (room !in SeedRooms ==> left.effects == [Emit(ToEveryone, RoomsUpdated(InsertionSet.Delete(s.activeRooms, room)))])
      && (room in SeedRooms ==> left.effects == [])
  {
    RemovePutFresh(s.roomUsers, room, [username]);
  }

  /**
   Re-registering a username from a second socket redirects direct messages: after
   joins from `c1` then `c2`, a message to that username is delivered to `c2`, and not
   to `c1` unless the two are the same socket.
   */
  lemma RejoinRedirectsDirectMessages(s: State, c1: SocketId, c2: SocketId, name: Username,
                                      r1: RoomName, r2: RoomName, sender: SocketId, from: Username,
                                      text: string, t1: Timestamp, t2: Timestamp, t3: Timestamp)
    requires Wf(s) && c2 != ""
    ensures var s1 := JoinRoom(s, c1, name, r1).state;
      var s2 := JoinRoom(s1, c2, name, r2).state;
      var out := DirectMessage(s2, sender, from, name, text, t1, t2, t3);
      && |out.effects| == 3
      && out.effects[0] == Emit(ToSocket(c2), Message(from, text, t1, true))
      && (c1 != c2 ==> out.effects[0].target != ToSocket(c1))
  {
    var s1 := JoinRoom(s, c1, name, r1).state;
    var s2 := JoinRoom(s1, c2, name, r2).state;
    assert Get(s2.userSockets, name) == Some(c2);
  }

  /**
   The scan in `disconnect` stops at the first entry holding the socket: any later
   username registered on the same socket keeps its entry and stays reachable.
   */
  lemma DisconnectKeepsLaterRegistrations(s: State, socket: SocketId, i: nat, j: nat)
    requires Wf(s) && FirstMatch(s.userSockets, socket, i)
    requires i < j < |s.userSockets| && s.userSockets[j].1 == socket
    ensures Get(Disconnect(s, socket).state.userSockets, s.userSockets[j].0) == Some(socket)
    ensures Get(Disconnect(s, socket).state.userSockets, s.userSockets[i].0) == None
  {
    var us := Disconnect(s, socket).state.userSockets;
    assert us == s.userSockets[..i] + s.userSockets[i + 1..];
    DropEntry(s.userSockets, i, j);
  }

  /** Dropping entry `i` of a map unregisters its key and keeps entry `j`. */
  lemma DropEntry<K(!new), V>(l: seq<(K, V)>, i: nat, j: nat)
    requires UniqueKeys(l) && i < |l| && j < |l| && i != j
    ensures Get(l[..i] + l[i + 1..], l[j].0) == Some(l[j].1)
    ensures Get(l[..i] + l[i + 1..], l[i].0) == None
  {
    KeyAt(l, i);
    KeyAt(l, j);
    RemoveAt(l, i);
    GetAt(l, j);
  }

  /**
   A newcomer who joins a room nobody had joined and then disconnects leaves the
   registry as it was, but the room keeps an entry with an empty member set, and the
   room hears that empty list once.
   */
  lemma JoinThenDisconnectLeavesEmptyRoom(s: State, socket: SocketId, username: Username, room: RoomName)
    requires Wf(s) && username != ""
    requires username !in Keys(s.userSockets) && room !in Keys(s.roomUsers)
    requires forall j :: 0 <= j < |s.userSockets| ==> s.userSockets[j].1 != socket
    ensures var out := Disconnect(JoinRoom(s, socket, username, room).state, socket);
      && out.state.userSockets == s.userSockets
      && Get(out.state.roomUsers, room) == Some([])
      && CountTo(out.effects, ToRoom(room)) == 1
      && Emit(ToRoom(room), RoomUsers([])) in out.effects
  {
    JoinThenDisconnectRegistry(s, socket, username, room);
    JoinThenDisconnectRoom(s, socket, username, room);
  }

  lemma JoinThenDisconnectRegistry(s: State, socket: SocketId, username: Username, room: RoomName)
    requires Wf(s)
    requires username !in Keys(s.userSockets) && room !in Keys(s.roomUsers)
    requires forall j :: 0 <= j < |s.userSockets| ==> s.userSockets[j].1 != socket
    ensures Disconnect(JoinRoom(s, socket, username, room).state, socket).state.userSockets == s.userSockets
  {
    JoinFreshThenDisconnect(s, socket, username, room);
  }

  lemma JoinThenDisconnectRoom(s: State, socket: SocketId, username: Username, room: RoomName)
    requires Wf(s) && username != ""
    requires username !in Keys(s.userSockets) && room !in Keys(s.roomUsers)
    requires forall j :: 0 <= j < |s.userSockets| ==> s.userSockets[j].1 != socket
    ensures var out := Disconnect(JoinRoom(s, socket, username, room).state, socket);
      && Get(out.state.roomUsers, room) == Some([])
      && CountTo(out.effects, ToRoom(room)) == 1
      && Emit(ToRoom(room), RoomUsers([])) in out.effects
  {
    var joined := JoinRoom(s, socket, username, room).state;
    JoinFreshThenDisconnect(s, socket, username, room);
    UnregisterSoleMember(joined, |s.userSockets|, room);
  }

  /** Unregistering the only member of a room leaves it an empty set and tells it so once. */
  lemma UnregisterSoleMember(s: State, i: nat, room: RoomName)
    requires Wf(s) && i < |s.userSockets| && s.userSockets[i].0 != ""
    requires Get(s.roomUsers, room) == Some([s.userSockets[i].0])
    ensures var out := Unregister(s, i);
      && Get(out.state.roomUsers, room) == Some([])
      && CountTo(out.effects, ToRoom(room)) == 1
      && Emit(ToRoom(room), RoomUsers([])) in out.effects
  {
    UnregisterNotifiesRoom(s, i, room);
    assert InsertionSet.Delete([s.userSockets[i].0], s.userSockets[i].0) == [];
  }

  /**
   Unregistering a non-empty username tells each of its rooms, once, the members that
   remain, and stores exactly that remaining set.
   */
  lemma UnregisterNotifiesRoom(s: State, i: nat, room: RoomName)
    requires Wf(s) && i < |s.userSockets| && s.userSockets[i].0 != ""
    requires room in Keys(s.roomUsers) && s.userSockets[i].0 in Get(s.roomUsers, room).value
    ensures var out := Unregister(s, i);
      var rest := InsertionSet.Delete(Get(s.roomUsers, room).value, s.userSockets[i].0);
      && Get(out.state.roomUsers, room) == Some(rest)
      && CountTo(out.effects, ToRoom(room)) == 1
      && Emit(ToRoom(room), RoomUsers(rest)) in out.effects
  {
    var out := Unregister(s, i);
    CountedIsPresent(out.effects, ToRoom(room));
    var e :| e in out.effects && e.Emit? && e.target == ToRoom(room);
    assert IsMemberUpdate(s.roomUsers, s.userSockets[i].0, e);
  }

  /** A fresh username on an unused socket joining an untouched room: where everything lands. */
  lemma JoinFresh(s: State, socket: SocketId, username: Username, room: RoomName)
    requires Wf(s)
    requires username !in Keys(s.userSockets) && room !in Keys(s.roomUsers)
    requires forall j :: 0 <= j < |s.userSockets| ==> s.userSockets[j].1 != socket
    ensures var joined := JoinRoom(s, socket, username, room).state;
      var n := |s.userSockets|;
      && FirstMatch(joined.userSockets, socket, n)
      && joined.userSockets[..n] + joined.userSockets[n + 1..] == s.userSockets
      && joined.userSockets[n].0 == username
      && Get(joined.roomUsers, room) == Some([username])
  {
    var joined := JoinRoom(s, socket, username, room).state;
    assert joined.userSockets == Put(s.userSockets, username, socket);
    RegisterFresh(s.userSockets, username, socket);
  }

  /** After a fresh join, disconnecting that socket unregisters the entry the join appended. */
  lemma JoinFreshThenDisconnect(s: State, socket: SocketId, username: Username, room: RoomName)
    requires Wf(s)
    requires username !in Keys(s.userSockets) && room !in Keys(s.roomUsers)
    requires forall j :: 0 <= j < |s.userSockets| ==> s.userSockets[j].1 != socket
    ensures var joined := JoinRoom(s, socket, username, room).state;
      var n := |s.userSockets|;
      && n < |joined.userSockets|
      && Disconnect(joined, socket) == Unregister(joined, n)
      && Unregister(joined, n).state.userSockets == s.userSockets
      && joined.userSockets[n].0 == username
      && room in Keys(joined.roomUsers)
      && Get(joined.roomUsers, room) == Some([username])
  {
    JoinFresh(s, socket, username, room);
  }

  /** A new username on an unused socket is appended, and the socket's first match is that entry. */
  lemma RegisterFresh(us: seq<(Username, SocketId)>, username: Username, socket: SocketId)
    requires username !in Keys(us)
    requires forall j :: 0 <= j < |us| ==> us[j].1 != socket
    ensures var r := Put(us, username, socket);
      var n := |us|;
      && FirstMatch(r, socket, n)
      && r[..n] + r[n + 1..] == us
      && r[n].0 == username
  {
    PutFresh(us, username, socket);
    var r := us + [(username, socket)];
    assert r[..|us|] + r[|us| + 1..] == us;
  }
}
