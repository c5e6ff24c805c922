# In-memory socket.io adapter, modelled in Dafny

The socket.io adapter is the per-namespace object that tracks which sockets
are in which rooms and picks the recipients of a broadcast. The in-memory
adapter (`lib/index.js`, class `Adapter`) keeps two maps that mirror each
other:

- `rooms`: room name to the set of socket ids in it;
- `sids`: socket id to the set of rooms it has joined.

`add`, `del` and `delAll` change these maps in place. `broadcast` and
`clients` only read them: they walk the requested rooms, skip ids already
seen, skip excluded ids and ids with no live socket, and either hand the
encoded packets to each remaining socket or collect the ids.

The project has two modules:

- `membership.dfy`, module `Membership`: the two maps as a value (`Index`),
  the invariant the adapter keeps (`Valid`: both maps describe the same
  relation, and no room entry is empty), each mutation as a function of the
  old index, the recipient-selection rule (`RoomUnion`, `Selected`), and
  traces of mutations (`Replay`). The lemmas prove that each mutation keeps
  the invariant, that joining is idempotent, and that every trace that runs
  to the end keeps the invariant.
- `adapter.dfy`, module `MemoryAdapter`: class `Adapter` with the fields
  `rooms` and `sids`. `Add`, `Del` and `DelAll` update the fields as the
  code does, statement by statement (`DelAll` with a loop over the socket's
  rooms), and are proved to produce exactly `Membership.Add`, `Del` and
  `DelAll` of the old state. `Broadcast` and `Clients` run the code's nested
  loops with the `ids` accumulator. They are proved to reach exactly the
  selected ids, each once. `Scenario` is a client that joins three sockets
  to two rooms and derives, from the class's contracts alone, who each
  broadcast reaches.

Collaborators are parameters:

- `connected: set<SocketId>` is the set of ids for which `nsp.connected[id]`
  is a socket.
- The encoded packets are an opaque value `frames` of a type parameter. A
  call to `socket.packet(frames, true, volatile)` is recorded as a `Delivery`
  in the sequence `Broadcast` returns.

`del` and `delAll` read map entries without checking that they exist, so an
absent entry makes the JavaScript throw. The model states that presence as a
`requires` clause (`CanDel`, `CanDelAll`). In `Replay` a mutation whose
precondition fails ends the trace with `None`. A defensive adapter could
treat a missing entry as a no-op; this code does not, and the model follows
the code.

## Model

| member | source | states |
|---|---|---|
| Membership.Empty | lib/index.js:18-19 | the adapter starts with no rooms and no sockets, and that index is valid |
| Membership.Add | lib/index.js:32-37 | after add, `id` is in `rooms[room]` and `room` is in `sids[id]`, both entries exist, the new entries are the old ones (or empty) plus the new element, and every other room and id entry is unchanged |
| Membership.AddKeepsValid | lib/index.js:32-37 | add keeps both maps consistent and leaves no empty room |
| Membership.AddIdempotent | lib/index.js:32-37 | repeating add changes nothing (set semantics) |
| Membership.Del | lib/index.js:51-56 | del requires both entries; afterwards `room` is not in `sids[id]` and `id` is not in `room`'s members; `sids[id]` remains a key even if empty; the room survives exactly when other members remain; every other room and id entry is unchanged |
| Membership.DelKeepsValid | lib/index.js:51-56 | del keeps both maps consistent and leaves no empty room |
| Membership.DelAll | lib/index.js:69-77 | delAll requires `sids[id]` and the entries of its rooms; afterwards `id` has no entry; other ids are unchanged; each of `id`'s rooms no longer holds `id`; it survives minus `id` when others remain; rooms `id` was not in are unchanged; a room it empties is dropped; no room is added |
| Membership.DelAllKeepsValid | lib/index.js:69-77 | delAll keeps the invariant, and afterwards no room at all contains `id` |
| Membership.ValidCanDelAll | lib/index.js:70-72 | on a valid index, an entry for `id` is all delAll needs: every room the code looks up exists |
| Membership.InRoomUnion | lib/index.js:105-108 | an id is collected from the room list exactly when some listed room has an entry that contains it; missing rooms contribute nothing |
| Membership.SelectedIff | lib/index.js:104-116 | with rooms listed, a socket is selected exactly when it is connected, not excluded, and in some listed room that exists |
| Membership.ReplayKeepsValid | lib/index.js:32-80 | from a valid index, every sequence of add/del/delAll that runs to the end leaves a valid index |
| Membership.StepFailsOnlyOnMissingEntry | lib/index.js:51-72 | on a valid index a mutation throws exactly when del lacks the id or room entry, or delAll lacks the id entry |
| MemoryAdapter.Adapter.constructor | lib/index.js:16-21 | a new adapter has empty `rooms` and `sids` and is valid |
| MemoryAdapter.Adapter.Add | lib/index.js:32-40 | the new fields are `Membership.Add` of the old ones; validity is kept |
| MemoryAdapter.Adapter.Del | lib/index.js:51-59 | the new fields are `Membership.Del` of the old ones; validity is kept |
| MemoryAdapter.Adapter.DelAll | lib/index.js:69-80 | the loop over the socket's rooms yields `Membership.DelAll` of the old fields; validity is kept and no room contains `id` |
| MemoryAdapter.Adapter.Broadcast | lib/index.js:94-125 | every delivery carries the same frames and volatile flag; no socket receives twice; a socket receives exactly when selected: connected, not in `except`, and in a listed existing room (or tracked in `sids` when no room is listed) |
| MemoryAdapter.Adapter.Clients | lib/index.js:134-167 | the returned ids are duplicate-free, and an id is returned exactly when it is connected and in a listed existing room (or tracked in `sids` when no room is listed) |

## Left out

- The `EventEmitter` base class and the constructor's use of `this` before `super()` (lib/index.js:15-17): class plumbing with no behaviour here.
- The `fn` callbacks run via `process.nextTick` (lib/index.js:39, 58, 79, 166): asynchronous notification after the change is complete. `Clients` returns its ids instead of passing them to the callback.
- The packet encoder (lib/index.js:6, 20, 103): a foreign library. The encoded packets are the parameter `frames`, produced once per call. The code passes the callback where the packet belongs. The model assumes the encoder receives the packet.
- The stamping `packet.nsp = this.nsp.name` (lib/index.js:101): a field write with no bearing on recipient selection.
- `socket.packet(...)` delivery (lib/index.js:112, 121): transport I/O, recorded as a `Delivery` value.
- The argument shuffling in `clients` when the first argument is a function (lib/index.js:135-138): JavaScript overload handling. A missing room list is the empty sequence.
- The order of iteration over a JavaScript Set (insertion order): the loops take the members of a room in an unspecified order, so the contracts fix which sockets receive and how often, not in which order.
- MemoryAdapter.Adapter.Broadcast: the code walks `this.sids` with `for...in` when no room is listed (lib/index.js:118). That visits no key of a Map, so as written it delivers to nobody. The model delivers to every tracked id, the loop's evident intent (its variable is a socket id, its target the `sids` map).
- MemoryAdapter.Adapter.Clients: the code walks `this.sids` with `for...of` when no room is listed (lib/index.js:160). That yields `[id, rooms]` pairs, not ids. The model returns every connected tracked id, the loop's evident intent (its variable is a socket id, its target the `sids` map).
- MemoryAdapter.Adapter.Del: an absent entry is excluded by the precondition rather than modelled as a thrown TypeError. The code updates `sids[id]` before the lookup of `rooms[room]` fails (lib/index.js:52-53). On a valid index that earlier update changes nothing.
- MemoryAdapter.Adapter.DelAll: an absent entry is excluded by the precondition rather than modelled as a thrown TypeError (lib/index.js:70-72).
- MemoryAdapter.Adapter.Broadcast: socket ids are assumed never to name an `Object.prototype` property (`"constructor"`, `"toString"`, `"__proto__"`, ...). The seen-set `ids` is a plain object (lib/index.js:98), so for such an id `ids[id]` is truthy before any delivery (lib/index.js:109) and the code never delivers to it; the model treats every id as an ordinary key. Generated socket ids never take these names.
- MemoryAdapter.Adapter.Clients: the same assumption on socket ids; the code's `ids` object (lib/index.js:142, 151) would make it never return such an id, and the model returns it when it is selected.
