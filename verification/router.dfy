/**
 The socket event handlers. Each is a pure function from the registry state and the
 event payload to the next state and the ordered list of effects the handler performs:
 `emit`s (to a room, to one socket, or to everyone) and `save`s of message records.
 */
module Router {
  import opened Wrappers
  import InsertionSet
  import opened AssocList
  import opened Messages
  import opened Registry

  /** Who an `emit` reaches: `io.to(room)`, `io.to(socketId)` / `socket`, or `io`. */
  datatype Target = ToRoom(room: RoomName) | ToSocket(socket: SocketId) | ToEveryone

  /**
   The three outbound events. A `Message` with `isDirect` is the direct-message payload
   (`isDirect: true`); without it, it is the room payload (`type: "room"`).
   */
  datatype Event =
    | RoomUsers(members: seq<Username>)
    | RoomsUpdated(rooms: seq<RoomName>)
    | Message(username: Username, text: string, timestamp: Timestamp, isDirect: bool)

  /** One observable action of a handler. */
  datatype Effect = Emit(target: Target, event: Event) | Persist(record: Record)

  datatype Outcome = Outcome(state: State, effects: seq<Effect>)

  /** How many `emit`s in `effs` go to `t`. */
  function CountTo(effs: seq<Effect>, t: Target): nat {
    if |effs| == 0 then 0
    else (if effs[0].Emit? && effs[0].target == t then 1 else 0) + CountTo(effs[1..], t)
  }

  /** An `emit` that is counted is there. */
  lemma {:induction false} CountedIsPresent(effs: seq<Effect>, t: Target)
    requires CountTo(effs, t) > 0
    ensures exists e :: e in effs && e.Emit? && e.target == t
  {
    if !(effs[0].Emit? && effs[0].target == t) {
      CountedIsPresent(effs[1..], t);
      var e :| e in effs[1..] && e.Emit? && e.target == t;
      assert e in effs;
    }
  }

  /** The members of `room`, or the empty set when the room table has no entry. */
  function MembersOf(ru: seq<(RoomName, seq<Username>)>, room: RoomName): seq<Username> {
    match Get(ru, room)
    case Some(members) => members
    case None => []
  }

  // ---------------------------------------------------------------------------
  // joinRoom

  /**
   The room table after `username` joins `room`: a missing room gets a fresh set appended
   at the end of the table, an existing one keeps its place, and the room's set gains
   the username once.
   */
  function AddMember(ru: seq<(RoomName, seq<Username>)>, room: RoomName, username: Username)
    : (r: seq<(RoomName, seq<Username>)>)
    requires UniqueKeys(ru) && MemberSets(ru)
    ensures UniqueKeys(r) && MemberSets(r)
    ensures Get(r, room).Some?
    ensures Keys(r) == if room in Keys(ru) then Keys(ru) else Keys(ru) + [room]
    ensures multiset(Get(r, room).value)[username] == 1
    ensures forall u :: u in Get(r, room).value <==> u == username || u in MembersOf(ru, room)
    ensures forall x :: x != room ==> Get(r, x) == Get(ru, x)
  {
    var members := InsertionSet.Add(MembersOf(ru, room), username);
    assert InsertionSet.NoDup(MembersOf(ru, room));
    InsertionSet.NoDupOccursOnce(members, username);
    PutMemberSet(ru, room, members);
    Put(ru, room, members)
  }

  /**
   `joinRoom {username, room}`: the username now routes to this socket, the room's
   member set gains the username, and the room hears the new member list.
   The active-room set is not touched.
   */
  function JoinRoom(s: State, socket: SocketId, username: Username, room: RoomName): (out: Outcome)
    requires Wf(s)
    ensures Wf(out.state)
    ensures Get(out.state.userSockets, username) == Some(socket)
    ensures forall u :: u != username ==> Get(out.state.userSockets, u) == Get(s.userSockets, u)
    ensures Keys(out.state.userSockets)
      == if username in Keys(s.userSockets) then Keys(s.userSockets) else Keys(s.userSockets) + [username]
    ensures Get(out.state.roomUsers, room).Some?
    ensures Keys(out.state.roomUsers)
      == if room in Keys(s.roomUsers) then Keys(s.roomUsers) else Keys(s.roomUsers) + [room]
    ensures multiset(Get(out.state.roomUsers, room).value)[username] == 1
    ensures forall u :: u in Get(out.state.roomUsers, room).value <==> u == username || u in MembersOf(s.roomUsers, room)
    ensures forall r :: r != room ==> Get(out.state.roomUsers, r) == Get(s.roomUsers, r)
    ensures out.state.activeRooms == s.activeRooms
    ensures out.effects == [Emit(ToRoom(room), RoomUsers(Get(out.state.roomUsers, room).value))]
  {
    var ru := AddMember(s.roomUsers, room, username);
    Outcome(
      State(Put(s.userSockets, username, socket), ru, s.activeRooms),
      [Emit(ToRoom(room), RoomUsers(Get(ru, room).value))])
  }

  // ---------------------------------------------------------------------------
  // leaveRoom

  /**
   `leaveRoom {username, room}`: when the room has a member set, the username leaves it;
   an emptied set is deleted from the room table, and if the room is not a seed room
   it is also deleted from the active-room set and everyone hears the active-room list.
   A room that keeps members hears its new member list. The socket registry is not touched.
   */
  function LeaveRoom(s: State, username: Username, room: RoomName): (out: Outcome)
    requires Wf(s)
    ensures Wf(out.state)
    ensures out.state.userSockets == s.userSockets
    ensures Get(s.roomUsers, room).None? ==> out == Outcome(s, [])
    ensures forall r :: r != room ==> Get(out.state.roomUsers, r) == Get(s.roomUsers, r)
    ensures Get(s.roomUsers, room).Some? ==>
      var rest := InsertionSet.Delete(Get(s.roomUsers, room).value, username);
      && username !in rest
      && (rest != [] ==>
            && Get(out.state.roomUsers, room) == Some(rest)
            && out.state.activeRooms == s.activeRooms
            && out.effects == [Emit(ToRoom(room), RoomUsers(rest))])
      && (rest == [] ==>
            && Get(out.state.roomUsers, room) == None
            && (room in SeedRooms ==> out.state.activeRooms == s.activeRooms && out.effects == [])
            && (room !in SeedRooms ==>
                  && out.state.activeRooms == InsertionSet.Delete(s.activeRooms, room)
                  && out.effects == [Emit(ToEveryone, RoomsUpdated(out.state.activeRooms))]))
    ensures forall r :: r in out.state.activeRooms ==> r in s.activeRooms
    ensures forall r :: r in s.activeRooms && (r != room || r in SeedRooms) ==> r in out.state.activeRooms
  {
    match Get(s.roomUsers, room)
    case None => Outcome(s, [])
    case Some(members) =>
      var rest := InsertionSet.Delete(members, username);
      assert room in Keys(s.roomUsers);
      if rest == [] then
        var ru := Remove(s.roomUsers, room);
        assert MemberSets(ru) by {
          forall r | r in Keys(ru) ensures InsertionSet.NoDup(Get(ru, r).value) {
            assert r in Keys(s.roomUsers);
          }
        }
        if room in SeedRooms then
          Outcome(State(s.userSockets, ru, s.activeRooms), [])
        else
          var active := InsertionSet.Delete(s.activeRooms, room);
          Outcome(State(s.userSockets, ru, active), [Emit(ToEveryone, RoomsUpdated(active))])
      else
        var ru := Put(s.roomUsers, room, rest);
        assert MemberSets(ru) by {
          forall r | r in Keys(ru) ensures InsertionSet.NoDup(Get(ru, r).value) {
            if r != room { assert r in Keys(s.roomUsers); }
          }
        }
        Outcome(State(s.userSockets, ru, s.activeRooms), [Emit(ToRoom(room), RoomUsers(rest))])
  }

  // ---------------------------------------------------------------------------
  // disconnect

  /** `i` is where the scan over `userSockets` breaks: the first entry holding `socket`. */
  predicate FirstMatch(us: seq<(Username, SocketId)>, socket: SocketId, i: int) {
    0 <= i < |us| && us[i].1 == socket && forall j :: 0 <= j < i ==> us[j].1 != socket
  }

  /** The room table with `name` taken out of every member set; no key is deleted. */
  function DropMember(ru: seq<(RoomName, seq<Username>)>, name: Username): (r: seq<(RoomName, seq<Username>)>)
    ensures Keys(r) == Keys(ru)
    ensures forall room :: room in Keys(ru) ==>
      Get(r, room) == Some(InsertionSet.Delete(Get(ru, room).value, name))
  {
    if |ru| == 0 then []
    else
      var rest := DropMember(ru[1..], name);
      var r := [(ru[0].0, InsertionSet.Delete(ru[0].1, name))] + rest;
      assert r[1..] == rest;
      assert Keys(ru) == [ru[0].0] + Keys(ru[1..]);
      r
  }

  /** `e` tells a room that held `name` its member list with `name` gone. */
  predicate IsMemberUpdate(ru: seq<(RoomName, seq<Username>)>, name: Username, e: Effect) {
    && e.Emit? && e.target.ToRoom? && e.event.RoomUsers?
    && Get(ru, e.target.room).Some?
    && name in Get(ru, e.target.room).value
    && e.event.members == InsertionSet.Delete(Get(ru, e.target.room).value, name)
  }

  lemma {:induction false} CountAppend(a: seq<Effect>, b: seq<Effect>, t: Target)
    ensures CountTo(a + b, t) == CountTo(a, t) + CountTo(b, t)
  {
    if |a| > 0 {
      assert (a + b)[1..] == a[1..] + b;
      CountAppend(a[1..], b, t);
    } else {
      assert a + b == b;
    }
  }

  /** The `roomUsers` emits of the cleanup loop, in room-table order. */
  function MemberUpdates(ru: seq<(RoomName, seq<Username>)>, name: Username): (effs: seq<Effect>)
    requires UniqueKeys(ru)
    ensures forall e :: e in effs ==> IsMemberUpdate(ru, name, e)
    ensures forall room :: CountTo(effs, ToRoom(room)) ==
                (if room in Keys(ru) && name in Get(ru, room).value then 1 else 0)
  {
    if |ru| == 0 then []
    else
      var first := ru[0].0;
      assert Keys(ru) == [first] + Keys(ru[1..]);
      InsertionSet.NoDupCons(first, Keys(ru[1..]));
      var rest := MemberUpdates(ru[1..], name);
      var head := if name in ru[0].1 then [Emit(ToRoom(first), RoomUsers(InsertionSet.Delete(ru[0].1, name)))] else [];
      forall room ensures CountTo(head + rest, ToRoom(room)) ==
        (if room in Keys(ru) && name in Get(ru, room).value then 1 else 0)
      {
        CountAppend(head, rest, ToRoom(room));
      }
      head + rest
  }

  /** Storing a set under one room keeps every member list of the room table a set. */
  lemma PutMemberSet(ru: seq<(RoomName, seq<Username>)>, room: RoomName, members: seq<Username>)
    requires MemberSets(ru) && InsertionSet.NoDup(members)
    ensures MemberSets(Put(ru, room, members))
  {
    var r := Put(ru, room, members);
    forall x | x in Keys(r) ensures InsertionSet.NoDup(Get(r, x).value) {
      if x != room { assert x in Keys(ru); }
    }
  }

  /** A well-formed room table stays well formed when `name` leaves every room. */
  lemma DropMemberWf(ru: seq<(RoomName, seq<Username>)>, name: Username)
    requires UniqueKeys(ru) && MemberSets(ru)
    ensures UniqueKeys(DropMember(ru, name)) && MemberSets(DropMember(ru, name))
  {
    var r := DropMember(ru, name);
    forall room | room in Keys(r) ensures InsertionSet.NoDup(Get(r, room).value) {
      assert room in Keys(ru);
    }
  }

  /** The first match is unique, and the registry's own search finds it. */
  lemma FirstMatchFound(us: seq<(Username, SocketId)>, socket: SocketId, i: int)
    requires FirstMatch(us, socket, i)
    ensures FirstWithValue(us, socket) == Some(i)
  {
  }

  /**
   The rest of `disconnect` once the scan has stopped at entry `i`: that entry is deleted,
   and if its username is non-empty (truthy) the username leaves every member set that
   has it, each such room hears its remaining members once (even when none remain),
   emptied rooms keep their entry, and no other room hears anything.
   */
  function Unregister(s: State, i: nat): (out: Outcome)
    requires Wf(s) && i < |s.userSockets|
    ensures Wf(out.state)
    ensures out.state.activeRooms == s.activeRooms
    ensures out.state.userSockets == s.userSockets[..i] + s.userSockets[i + 1..]
    ensures forall e :: e in out.effects ==> e.Emit? && e.target.ToRoom? && e.event.RoomUsers?
    ensures s.userSockets[i].0 == "" ==> out.state.roomUsers == s.roomUsers && out.effects == []
    ensures s.userSockets[i].0 != "" ==>
      var name := s.userSockets[i].0;
      && Keys(out.state.roomUsers) == Keys(s.roomUsers)
      && (forall r :: r in Keys(s.roomUsers) ==>
            Get(out.state.roomUsers, r) == Some(InsertionSet.Delete(Get(s.roomUsers, r).value, name)))
      && (forall e :: e in out.effects ==> IsMemberUpdate(s.roomUsers, name, e))
      && (forall r :: r in Keys(s.roomUsers) && name in Get(s.roomUsers, r).value ==>
            CountTo(out.effects, ToRoom(r)) == 1)
  {
    var name := s.userSockets[i].0;
    RemoveAt(s.userSockets, i);
    var us := Remove(s.userSockets, name);
    if name != "" then
      DropMemberWf(s.roomUsers, name);
      Outcome(State(us, DropMember(s.roomUsers, name), s.activeRooms), MemberUpdates(s.roomUsers, name))
    else
      Outcome(State(us, s.roomUsers, s.activeRooms), [])
  }

  /**
   `disconnect`: the scan over `userSockets` stops at the first entry holding this
   socket and the rest is `Unregister`; with no such entry nothing happens.
   */
  function Disconnect(s: State, socket: SocketId): (out: Outcome)
    requires Wf(s)
    ensures Wf(out.state)
    ensures out.state.activeRooms == s.activeRooms
    ensures forall e :: e in out.effects ==> e.Emit? && e.target.ToRoom? && e.event.RoomUsers?
    ensures (forall j :: 0 <= j < |s.userSockets| ==> s.userSockets[j].1 != socket) ==> out == Outcome(s, [])
    ensures forall i :: FirstMatch(s.userSockets, socket, i) ==> out == Unregister(s, i)
  {
    match FirstWithValue(s.userSockets, socket)
    case None => Outcome(s, [])
    case Some(i) =>
      forall k | FirstMatch(s.userSockets, socket, k) ensures k == i {
        FirstMatchFound(s.userSockets, socket, k);
      }
      Unregister(s, i)
  }

  // ---------------------------------------------------------------------------
  // directMessage and sendMessage

  /** `to` has a registry entry whose socket id is truthy, i.e. non-empty. */
  predicate Reachable(s: State, to: Username) {
    Get(s.userSockets, to).Some? && Get(s.userSockets, to).value != ""
  }

  /**
   `directMessage {from, to, message}`: when `to` is reachable, the message goes to
   `to`'s socket and is echoed to the sender's own socket, both flagged direct (each
   with its own `new Date()`), and only then a `"direct"` record is saved. Otherwise
   nothing happens. No registry changes.
   */
  function DirectMessage(s: State, socket: SocketId, from: Username, to: Username, text: string,
                         deliverTime: Timestamp, echoTime: Timestamp, saveTime: Timestamp): (out: Outcome)
    ensures out.state == s
    ensures !Reachable(s, to) <==> out.effects == []
    ensures Reachable(s, to) ==>
      && |out.effects| == 3
      && out.effects[0] == Emit(ToSocket(Get(s.userSockets, to).value), Message(from, text, deliverTime, true))
      && out.effects[1] == Emit(ToSocket(socket), Message(from, text, echoTime, true))
      && out.effects[2] == Persist(DirectRecord(from, to, text, saveTime))
  {
    match Get(s.userSockets, to)
    case Some(toSocket) =>
      if toSocket != "" then
        Outcome(s, [
          Emit(ToSocket(toSocket), Message(from, text, deliverTime, true)),
          Emit(ToSocket(socket), Message(from, text, echoTime, true)),
          Persist(DirectRecord(from, to, text, saveTime))])
      else Outcome(s, [])
    case None => Outcome(s, [])
  }

  /**
   `sendMessage {username, room, message}`: a `"room"` record is always handed to the
   store; the room hears the message, carrying the record's timestamp, only when the
   save succeeded (`saved`). A failed save is logged and nothing is emitted.
   */
  function SendMessage(s: State, username: Username, room: RoomName, text: string,
                       t: Timestamp, saved: bool): (out: Outcome)
    ensures out.state == s
    ensures |out.effects| >= 1 && out.effects[0] == Persist(RoomRecord(room, username, text, t))
    ensures forall e :: e in out.effects[1..] ==>
      e == Emit(ToRoom(room), Message(username, text, out.effects[0].record.timestamp, false))
    ensures CountTo(out.effects, ToRoom(room)) == (if saved then 1 else 0)
  {
    var record := RoomRecord(room, username, text, t);
    var broadcast := Emit(ToRoom(room), Message(username, text, record.timestamp, false));
    assert [Persist(record), broadcast][1..] == [broadcast];
    assert CountTo([broadcast], ToRoom(room)) == 1;
    if saved then
      Outcome(s, [Persist(record), Emit(ToRoom(room), Message(username, text, record.timestamp, false))])
    else
      Outcome(s, [Persist(record)])
  }
}
