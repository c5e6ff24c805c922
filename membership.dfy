/**
  The membership index of the in-memory socket.io adapter, as a value.

  The adapter keeps two maps that must mirror each other: `rooms` maps a room
  name to the set of socket ids in it, and `sids` maps a socket id to the set
  of rooms it has joined. This module gives that pair of maps, the invariant
  the adapter keeps between operations, the effect of each of its three
  mutations (`add`, `del`, `delAll`) as a function of the old index, and the
  recipient selection that `broadcast` and `clients` perform over it.
  The class in module MemoryAdapter is proved to follow these functions.
*/
module Membership {

  type SocketId = string
  type Room = string

  datatype Index = Index(rooms: map<Room, set<SocketId>>, sids: map<SocketId, set<Room>>)

  datatype Option<T> = None | Some(value: T)

  /** The members of `room`; a room without an entry has none. */
  function Members(ix: Index, room: Room): set<SocketId>
  {
    if room in ix.rooms then ix.rooms[room] else {}
  }

  /** The rooms `id` has joined; an id without an entry has joined none. */
  function RoomsOf(ix: Index, id: SocketId): set<Room>
  {
    if id in ix.sids then ix.sids[id] else {}
  }

  /** Both maps describe the same membership relation. */
  ghost predicate Consistent(ix: Index)
  {
    forall room, id :: id in Members(ix, room) <==> room in RoomsOf(ix, id)
  }

  /** A room exists only while somebody is in it. */
  ghost predicate NoEmptyRooms(ix: Index)
  {
    forall room :: room in ix.rooms ==> ix.rooms[room] != {}
  }

  /** The invariant the adapter keeps between operations. */
  ghost predicate Valid(ix: Index)
  {
    Consistent(ix) && NoEmptyRooms(ix)
  }

  /** The empty index the adapter starts with. */
  function Empty(): (ix: Index)
    ensures Valid(ix)
    ensures forall room :: Members(ix, room) == {}
    ensures forall id :: RoomsOf(ix, id) == {}
  {
    Index(map[], map[])
  }

  /**
    `add(id, room)`: both entries are created on demand, then `room` is added
    to the rooms of `id` and `id` to the members of `room`. Every other entry
    is left alone, and the invariant is kept.
  */
  function Add(ix: Index, id: SocketId, room: Room): (r: Index)
    ensures room in r.rooms && id in r.sids
    ensures r.rooms[room] == Members(ix, room) + {id}
    ensures r.sids[id] == RoomsOf(ix, id) + {room}
    ensures r.rooms.Keys == ix.rooms.Keys + {room}
    ensures r.sids.Keys == ix.sids.Keys + {id}
    ensures forall q :: q in ix.rooms && q != room ==> r.rooms[q] == ix.rooms[q]
    ensures forall j :: j in ix.sids && j != id ==> r.sids[j] == ix.sids[j]
  {
    Index(ix.rooms[room := Members(ix, room) + {id}], ix.sids[id := RoomsOf(ix, id) + {room}])
  }

  /** `add` keeps the invariant. */
  lemma AddKeepsValid(ix: Index, id: SocketId, room: Room)
    requires Valid(ix)
    ensures Valid(Add(ix, id, room))
  {
    var r := Add(ix, id, room);
    forall q, j
      ensures j in Members(r, q) <==> q in RoomsOf(r, j)
    {
      assert Members(r, q) == if q == room then Members(ix, q) + {id} else Members(ix, q);
      assert RoomsOf(r, j) == if j == id then RoomsOf(ix, j) + {room} else RoomsOf(ix, j);
    }
  }

  /** Joining a room twice is the same as joining it once. */
  lemma AddIdempotent(ix: Index, id: SocketId, room: Room)
    ensures Add(Add(ix, id, room), id, room) == Add(ix, id, room)
  {
  }

  /**
    What `del(id, room)` requires of the index: the code reads both entries
    without checking that they exist.
  */
  predicate CanDel(ix: Index, id: SocketId, room: Room)
  {
    id in ix.sids && room in ix.rooms
  }

  /**
    `del(id, room)`: `room` leaves the rooms of `id` and `id` leaves the
    members of `room`; the room entry is dropped once it is empty, but the
    entry of `id` stays even when it becomes empty.
  */
  function Del(ix: Index, id: SocketId, room: Room): (r: Index)
    requires CanDel(ix, id, room)
    ensures id in r.sids && r.sids[id] == ix.sids[id] - {room}
    ensures r.sids.Keys == ix.sids.Keys
    ensures forall j :: j in ix.sids && j != id ==> r.sids[j] == ix.sids[j]
    ensures id !in Members(r, room) && room !in RoomsOf(r, id)
    ensures room in r.rooms <==> ix.rooms[room] - {id} != {}
    ensures room in r.rooms ==> r.rooms[room] == ix.rooms[room] - {id}
    ensures r.rooms.Keys - {room} == ix.rooms.Keys - {room}
    ensures forall q :: q in ix.rooms && q != room ==> q in r.rooms && r.rooms[q] == ix.rooms[q]
  {
    var left := ix.rooms[room] - {id};
    Index(if left == {} then ix.rooms - {room} else ix.rooms[room := left],
          ix.sids[id := ix.sids[id] - {room}])
  }

  /** `del` keeps the invariant. */
  lemma DelKeepsValid(ix: Index, id: SocketId, room: Room)
    requires Valid(ix) && CanDel(ix, id, room)
    ensures Valid(Del(ix, id, room))
  {
    var r := Del(ix, id, room);
    forall q, j
      ensures j in Members(r, q) <==> q in RoomsOf(r, j)
    {
      assert Members(r, q) == if q == room then Members(ix, q) - {id} else Members(ix, q);
      assert RoomsOf(r, j) == if j == id then RoomsOf(ix, j) - {room} else RoomsOf(ix, j);
    }
  }

  /**
    What `delAll(id)` requires of the index: the code iterates the rooms of
    `id` without checking that the entry exists, and reads the entry of each of
    those rooms without checking either. A valid index meets the second half
    whenever it meets the first.
  */
  predicate CanDelAll(ix: Index, id: SocketId)
  {
    id in ix.sids && ix.sids[id] <= ix.rooms.Keys
  }

  /** The room entries after `id` has left each room in `left`, empty ones dropped. */
  function LeaveRooms(rooms: map<Room, set<SocketId>>, id: SocketId, left: set<Room>)
    : map<Room, set<SocketId>>
  {
    map q | q in rooms && !(q in left && rooms[q] - {id} == {})
      :: if q in left then rooms[q] - {id} else rooms[q]
  }

  /**
    `delAll(id)`: `id` leaves every room it had joined, each room emptied by
    that is dropped, and the entry of `id` itself is deleted. On a valid index
    no room then mentions `id`, and rooms `id` was not in are untouched.
  */
  function DelAll(ix: Index, id: SocketId): (r: Index)
    requires CanDelAll(ix, id)
    ensures id !in r.sids && RoomsOf(r, id) == {}
    ensures r.sids.Keys == ix.sids.Keys - {id}
    ensures forall j :: j in r.sids ==> r.sids[j] == ix.sids[j]
    ensures forall q :: q in r.rooms ==> q in ix.rooms
    ensures forall q :: q in ix.sids[id] ==> id !in Members(r, q)
    ensures forall q :: q in ix.sids[id] ==> (q in r.rooms <==> ix.rooms[q] - {id} != {})
    ensures forall q :: q in ix.sids[id] && ix.rooms[q] - {id} != {} ==>
              q in r.rooms && r.rooms[q] == ix.rooms[q] - {id}
    ensures forall q :: q in ix.rooms && q !in ix.sids[id] ==> q in r.rooms && r.rooms[q] == ix.rooms[q]
  {
    Index(LeaveRooms(ix.rooms, id, ix.sids[id]), ix.sids - {id})
  }

  /** `delAll` keeps the invariant, and afterwards no room mentions `id`. */
  lemma DelAllKeepsValid(ix: Index, id: SocketId)
    requires Valid(ix) && CanDelAll(ix, id)
    ensures Valid(DelAll(ix, id))
    ensures forall q :: id !in Members(DelAll(ix, id), q)
  {
    var r := DelAll(ix, id);
    forall q, j
      ensures j in Members(r, q) <==> q in RoomsOf(r, j)
    {
      if q in ix.sids[id] {
        assert Members(r, q) == Members(ix, q) - {id};
      } else {
        assert q !in RoomsOf(ix, id);
        assert Members(r, q) == Members(ix, q);
      }
      assert RoomsOf(r, j) == if j == id then {} else RoomsOf(ix, j);
    }
  }

  /** On a valid index `delAll` can always run once `id` has an entry. */
  lemma ValidCanDelAll(ix: Index, id: SocketId)
    requires Valid(ix) && id in ix.sids
    ensures CanDelAll(ix, id)
  {
    forall q | q in ix.sids[id]
      ensures q in ix.rooms
    {
      assert q in RoomsOf(ix, id);
      assert id in Members(ix, q);
    }
  }

  // ---------------------------------------------------------------------
  // Recipient selection
  // ---------------------------------------------------------------------

  /** The ids found in the listed rooms; a listed room that has no entry contributes nothing. */
  function RoomUnion(ix: Index, list: seq<Room>): set<SocketId>
    decreases |list|
  {
    if list == [] then {} else RoomUnion(ix, list[..|list| - 1]) + Members(ix, list[|list| - 1])
  }

  /** An id is in the union exactly when it is a member of one of the listed rooms. */
  lemma {:induction false} InRoomUnion(ix: Index, list: seq<Room>, id: SocketId)
    ensures id in RoomUnion(ix, list) <==> exists i :: 0 <= i < |list| && id in Members(ix, list[i])
    decreases |list|
  {
    if list != [] {
      var init := list[..|list| - 1];
      InRoomUnion(ix, init, id);
      if id in RoomUnion(ix, init) {
        var i :| 0 <= i < |init| && id in Members(ix, init[i]);
        assert list[i] == init[i];
      }
      if exists i :: 0 <= i < |list| && id in Members(ix, list[i]) {
        var i :| 0 <= i < |list| && id in Members(ix, list[i]);
        if i < |init| {
          assert init[i] == list[i];
        }
      }
    }
  }

  /**
    Whether `broadcast` delivers to `id`: the id has a live socket, is not
    excluded, and is a member of a listed room, or (with no room listed) has
    an entry in `sids`. `clients` selects by the same rule with nothing
    excluded.
  */
  predicate Selected(ix: Index, list: seq<Room>, except: seq<SocketId>, connected: set<SocketId>, id: SocketId)
  {
    && id in connected
    && id !in except
    && (if |list| > 0 then id in RoomUnion(ix, list) else id in ix.sids)
  }

  /** The selection for `id` as one statement over the listed rooms. */
  lemma SelectedIff(ix: Index, list: seq<Room>, except: seq<SocketId>, connected: set<SocketId>, id: SocketId)
    requires |list| > 0
    ensures Selected(ix, list, except, connected, id) <==>
      id in connected && id !in except &&
      exists i :: 0 <= i < |list| && list[i] in ix.rooms && id in ix.rooms[list[i]]
  {
    InRoomUnion(ix, list, id);
    if Selected(ix, list, except, connected, id) {
      var i :| 0 <= i < |list| && id in Members(ix, list[i]);
      assert list[i] in ix.rooms && id in ix.rooms[list[i]];
    }
  }

  // ---------------------------------------------------------------------
  // Traces of mutations
  // ---------------------------------------------------------------------

  datatype Op = Join(id: SocketId, room: Room) | Leave(id: SocketId, room: Room) | LeaveAll(id: SocketId)

  /** One mutation; `None` where the code would throw on a missing entry. */
  function Step(ix: Index, op: Op): Option<Index>
  {
    match op
    case Join(id, room) => Some(Add(ix, id, room))
    case Leave(id, room) => if CanDel(ix, id, room) then Some(Del(ix, id, room)) else None
    case LeaveAll(id) => if CanDelAll(ix, id) then Some(DelAll(ix, id)) else None
  }

  /** A sequence of mutations applied in order, stopping at the first that would throw. */
  function Replay(ix: Index, ops: seq<Op>): Option<Index>
    decreases |ops|
  {
    if ops == [] then Some(ix)
    else match Step(ix, ops[0])
      case None => None
      case Some(next) => Replay(next, ops[1..])
  }

  /** Every trace of mutations that runs to the end keeps the invariant. */
  lemma {:induction false} ReplayKeepsValid(ix: Index, ops: seq<Op>)
    requires Valid(ix)
    ensures Replay(ix, ops).Some? ==> Valid(Replay(ix, ops).value)
    decreases |ops|
  {
    if ops != [] {
      match Step(ix, ops[0])
      case None =>
      case Some(next) =>
        match ops[0] {
          case Join(id, room) => AddKeepsValid(ix, id, room);
          case Leave(id, room) => DelKeepsValid(ix, id, room);
          case LeaveAll(id) => DelAllKeepsValid(ix, id);
        }
        ReplayKeepsValid(next, ops[1..]);
    }
  }

  /**
    On a valid index the only mutations that throw are a `del` of an id or a
    room without an entry and a `delAll` of an id without an entry.
  */
  lemma {:induction false} StepFailsOnlyOnMissingEntry(ix: Index, op: Op)
    requires Valid(ix)
    ensures Step(ix, op).None? <==>
      (op.Leave? && (op.id !in ix.sids || op.room !in ix.rooms)) ||
      (op.LeaveAll? && op.id !in ix.sids)
  {
    if op.LeaveAll? && op.id in ix.sids {
      ValidCanDelAll(ix, op.id);
    }
  }
}
