/**
  The in-memory socket.io adapter: one object per namespace that owns the
  membership index and picks the recipients of a broadcast.

  The namespace's live sockets (`nsp.connected`) are passed in as the set of
  socket ids that currently resolve to a socket. The encoded packets are an
  opaque value `frames` that a broadcast encodes once and hands, unchanged, to
  every recipient; a hand-off is recorded as a `Delivery` in the sequence the
  broadcast returns, in the order the sockets would receive it.
*/
module MemoryAdapter {
  import opened Membership

  /** One `socket.packet(frames, true, volatile)` call made by a broadcast. */
  datatype Delivery<P> = Delivery(to: SocketId, frames: P, volatile: bool)

  /** Some delivery of `sent` goes to `id`. */
  predicate DeliveredTo<P>(sent: seq<Delivery<P>>, id: SocketId)
  {
    exists k :: 0 <= k < |sent| && sent[k].to == id
  }

  /** No socket appears twice among the recipients of `sent`. */
  predicate AtMostOnce<P>(sent: seq<Delivery<P>>)
  {
    forall k, l :: 0 <= k < l < |sent| ==> sent[k].to != sent[l].to
  }

  /** Every delivery of `sent` carries the same frames and the same delivery mode. */
  ghost predicate Uniform<P>(sent: seq<Delivery<P>>, frames: P, volatile: bool)
  {
    forall k :: 0 <= k < |sent| ==> sent[k].frames == frames && sent[k].volatile == volatile
  }

  /** No id appears twice in `ids`. */
  predicate Distinct(ids: seq<SocketId>)
  {
    forall k, l :: 0 <= k < l < |ids| ==> ids[k] != ids[l]
  }

  class Adapter {
    /** Room name to the ids of the sockets in it. */
    var rooms: map<Room, set<SocketId>>
    /** Socket id to the rooms it has joined. */
    var sids: map<SocketId, set<Room>>

    /** The two maps as one index value. */
    function State(): Index
      reads this
    {
      Index(rooms, sids)
    }

    ghost predicate Valid()
      reads this
    {
      Membership.Valid(State())
    }

    /** A new adapter tracks no room and no socket. */
    constructor ()
      ensures State() == Empty()
      ensures Valid()
    {
      rooms := map[];
      sids := map[];
    }

    /** Adds socket `id` to `room`, creating either entry if it is missing. */
    method Add(id: SocketId, room: Room)
      modifies this
      ensures State() == Membership.Add(old(State()), id, room)
      ensures old(Valid()) ==> Valid()
    {
      ghost var before := State();
      if id !in sids {
        sids := sids[id := {}];
      }
      sids := sids[id := sids[id] + {room}];
      assert sids == before.sids[id := RoomsOf(before, id) + {room}];
      if room !in rooms {
        rooms := rooms[room := {}];
      }
      rooms := rooms[room := rooms[room] + {id}];
      assert rooms == before.rooms[room := Members(before, room) + {id}];
      if Membership.Valid(before) {
        AddKeepsValid(before, id, room);
      }
    }

    /** Removes socket `id` from `room`; drops the room once nobody is left in it. */
    method Del(id: SocketId, room: Room)
      requires CanDel(State(), id, room)
      modifies this
      ensures State() == Membership.Del(old(State()), id, room)
      ensures old(Valid()) ==> Valid()
    {
      ghost var before := State();
      sids := sids[id := sids[id] - {room}];
      rooms := rooms[room := rooms[room] - {id}];
      if rooms[room] == {} {
        rooms := rooms - {room};
      }
      if Membership.Valid(before) {
        DelKeepsValid(before, id, room);
      }
    }

    /**
      Removes socket `id` from every room it has joined, dropping each room
      that becomes empty, then forgets `id`.
    */
    method DelAll(id: SocketId)
      requires CanDelAll(State(), id)
      modifies this
      ensures State() == Membership.DelAll(old(State()), id)
      ensures old(Valid()) ==> Valid() && forall q :: id !in Members(State(), q)
    {
      ghost var before := State();
      var joined := sids[id];
      var pending := joined;
      while pending != {}
        invariant pending <= joined
        invariant sids == before.sids
        invariant rooms == LeaveRooms(before.rooms, id, joined - pending)
        decreases pending
      {
        var room :| room in pending;
        assert room in rooms;
        rooms := rooms[room := rooms[room] - {id}];
        if rooms[room] == {} {
          rooms := rooms - {room};
        }
        pending := pending - {room};
      }
      assert joined - pending == joined;
      sids := sids - {id};
      if Membership.Valid(before) {
        DelAllKeepsValid(before, id);
      }
    }

    /**
      Hands `frames` to every socket the options select: with rooms listed,
      each connected member of a listed room that is not in `except`, once
      each however many listed rooms it is in; with no rooms listed, every
      tracked socket that is connected and not in `except`.
    */
    method Broadcast<P>(frames: P, roomList: seq<Room>, except: seq<SocketId>, volatile: bool,
                        connected: set<SocketId>)
      returns (sent: seq<Delivery<P>>)
      ensures Uniform(sent, frames, volatile)
      ensures AtMostOnce(sent)
      ensures forall id :: DeliveredTo(sent, id) <==> Selected(State(), roomList, except, connected, id)
    {
      sent := [];
      if |roomList| > 0 {
        var ids: set<SocketId> := {};
        var i := 0;
        while i < |roomList|
          invariant 0 <= i <= |roomList|
          invariant Uniform(sent, frames, volatile)
          invariant AtMostOnce(sent)
          invariant forall id :: DeliveredTo(sent, id) <==> id in ids
          invariant forall id :: id in ids <==>
                      id in RoomUnion(State(), roomList[..i]) && id in connected && id !in except
        {
          if roomList[i] in rooms {
            var members := rooms[roomList[i]];
            var rest := members;
            while rest != {}
              invariant rest <= members
              invariant Uniform(sent, frames, volatile)
              invariant AtMostOnce(sent)
              invariant forall id :: DeliveredTo(sent, id) <==> id in ids
              invariant forall id :: id in ids <==>
                          (id in RoomUnion(State(), roomList[..i]) || id in members - rest) &&
                          id in connected && id !in except
              decreases rest
            {
              var id :| id in rest;
              rest := rest - {id};
              if id !in ids && id !in except && id in connected {
                Append(sent, Delivery(id, frames, volatile));
                sent := sent + [Delivery(id, frames, volatile)];
                ids := ids + {id};
              }
            }
          }
          RoomUnionSnoc(State(), roomList, i);
          i := i + 1;
        }
        assert roomList[..i] == roomList;
      } else {
        // The code walks `this.sids` with `for...in`, which visits no key of
        // a Map. The loop's evident intent (its variable is a socket id, its
        // target the `sids` map), modelled here, is every tracked id.
        var rest := sids.Keys;
        while rest != {}
          invariant rest <= sids.Keys
          invariant Uniform(sent, frames, volatile)
          invariant AtMostOnce(sent)
          invariant forall id :: DeliveredTo(sent, id) <==>
                      id in sids.Keys - rest && id in connected && id !in except
          decreases rest
        {
          var id :| id in rest;
          rest := rest - {id};
          if id !in except && id in connected {
            Append(sent, Delivery(id, frames, volatile));
            sent := sent + [Delivery(id, frames, volatile)];
          }
        }
      }
    }

    /**
      The ids of the connected sockets in the listed rooms, each once; with no
      rooms listed, every tracked socket that is connected.
    */
    method Clients(roomList: seq<Room>, connected: set<SocketId>) returns (clients: seq<SocketId>)
      ensures Distinct(clients)
      ensures forall id :: id in clients <==> Selected(State(), roomList, [], connected, id)
    {
      clients := [];
      if |roomList| > 0 {
        var ids: set<SocketId> := {};
        var i := 0;
        while i < |roomList|
          invariant 0 <= i <= |roomList|
          invariant Distinct(clients)
          invariant forall id :: id in clients <==> id in ids
          invariant forall id :: id in ids <==> id in RoomUnion(State(), roomList[..i]) && id in connected
        {
          if roomList[i] in rooms {
            var members := rooms[roomList[i]];
            var rest := members;
            while rest != {}
              invariant rest <= members
              invariant Distinct(clients)
              invariant forall id :: id in clients <==> id in ids
              invariant forall id :: id in ids <==>
                          (id in RoomUnion(State(), roomList[..i]) || id in members - rest) && id in connected
              decreases rest
            {
              var id :| id in rest;
              rest := rest - {id};
              if id !in ids && id in connected {
                clients := clients + [id];
                ids := ids + {id};
              }
            }
          }
          RoomUnionSnoc(State(), roomList, i);
          i := i + 1;
        }
        assert roomList[..i] == roomList;
      } else {
        // The code walks `this.sids` with `for...of`, which yields
        // [id, rooms] pairs rather than ids. The loop's evident intent (its
        // variable is a socket id, its target the `sids` map), modelled here,
        // is every tracked id.
        var rest := sids.Keys;
        while rest != {}
          invariant rest <= sids.Keys
          invariant Distinct(clients)
          invariant forall id :: id in clients <==> id in sids.Keys - rest && id in connected
          decreases rest
        {
          var id :| id in rest;
          rest := rest - {id};
          if id in connected {
            clients := clients + [id];
          }
        }
      }
    }
  }

  /**
    Appending a delivery to a new recipient adds exactly that recipient and
    keeps the deliveries uniform and at most one per socket.
  */
  lemma Append<P>(sent: seq<Delivery<P>>, d: Delivery<P>)
    requires AtMostOnce(sent) && !DeliveredTo(sent, d.to)
    ensures forall id :: DeliveredTo(sent + [d], id) <==> DeliveredTo(sent, id) || id == d.to
    ensures AtMostOnce(sent + [d])
    ensures Uniform(sent, d.frames, d.volatile) ==> Uniform(sent + [d], d.frames, d.volatile)
  {
    forall id | DeliveredTo(sent + [d], id)
      ensures DeliveredTo(sent, id) || id == d.to
    {
      var k :| 0 <= k < |sent + [d]| && (sent + [d])[k].to == id;
      if k < |sent| {
        assert sent[k].to == id;
      }
    }
    forall id | DeliveredTo(sent, id)
      ensures DeliveredTo(sent + [d], id)
    {
      var k :| 0 <= k < |sent| && sent[k].to == id;
      assert (sent + [d])[k].to == id;
    }
    assert (sent + [d])[|sent|].to == d.to;
  }

  /** Taking one more listed room into the union adds exactly its members. */
  lemma RoomUnionSnoc(ix: Index, list: seq<Room>, i: nat)
    requires i < |list|
    ensures RoomUnion(ix, list[..i + 1]) == RoomUnion(ix, list[..i]) + Members(ix, list[i])
  {
    assert list[..i + 1][..i] == list[..i];
  }

  /**
    A client of the adapter: sockets a in r1, b in r1 and r2, c in r2, all
    connected. Broadcasting to r1 reaches a and b; to r1 and r2 reaches all
    three, b once; to r1 excluding a reaches b alone. Leaving all rooms
    forgets a socket, and a room emptied by leaving disappears.
  */
  method Scenario()
  {
    var adapter := new Adapter();
    adapter.Add("a", "r1");
    adapter.Add("b", "r1");
    adapter.Add("b", "r2");
    adapter.Add("c", "r2");
    var live := {"a", "b", "c"};

    var sent := adapter.Broadcast("frame", ["r1"], [], false, live);
    InRoomUnion(adapter.State(), ["r1"], "a");
    InRoomUnion(adapter.State(), ["r1"], "b");
    InRoomUnion(adapter.State(), ["r1"], "c");
    assert DeliveredTo(sent, "a") && DeliveredTo(sent, "b") && !DeliveredTo(sent, "c");

    sent := adapter.Broadcast("frame", ["r1", "r2"], [], false, live);
    InRoomUnion(adapter.State(), ["r1", "r2"], "c");
    assert DeliveredTo(sent, "c");

    sent := adapter.Broadcast("frame", ["r1"], ["a"], false, live);
    assert !DeliveredTo(sent, "a") && DeliveredTo(sent, "b");

    var clients := adapter.Clients(["r2"], {"b"});
    InRoomUnion(adapter.State(), ["r2"], "c");
    assert "b" in clients && "c" !in clients;

    adapter.DelAll("b");
    assert "b" !in adapter.State().sids;
    adapter.Del("c", "r2");
    assert "r2" !in adapter.State().rooms;
  }
}
