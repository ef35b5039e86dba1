# animatrip relay server: session and routing state machine

This project models the core of the animatrip server (`server.cpp`). The server relays UDP video between up to four
clients and a GStreamer compositor pipeline.

- **Client admission.** The first datagram from a new client address admits that client if a free pipeline endpoint
  (a `udpsrc` socket) is left. The server takes the endpoint from the back of a stack of free endpoints. It takes the
  client's grid position (0..3, mapped to fixed compositor coordinates) from the back of a stack of free positions.
  Then it shows the compositor pad that belongs to that endpoint at the position's coordinates.
- **Routing.** Each datagram from a routed client records the current time as its activity and is forwarded,
  truncated to the 4096-byte buffer, to that client's endpoint.
- **Fan-out.** Each datagram from the pipeline goes to every client in address order.
- **Sweep.** At most every 8 s of wake-ups (strictly more than 8000000 µs apart), a sweep collects the clients that
  have been silent for strictly more than 2000000 µs. It then evicts them one by one, again in address order. Each
  eviction hides and re-homes the client's pad and pushes its endpoint and its position back on the two stacks.
- **Compaction.** If anyone was evicted, `compact_positions` packs the occupied positions down towards 0.
- **Report.** The client list is printed when a client was admitted or evicted during the wake-up.

Modules:

- **`Addresses`** (`addresses.dfy`) holds the key order of `sockaddr_in_cmp`. It also holds the ordered client set as
  a strictly sorted sequence, with its insert and erase.
- **`Slots`** (`slots.dfy`) holds the position indices and the position-to-coordinate table. It also has the initial
  position stack and the descending sort that `std::sort(…, std::greater)` performs, with its lemmas.
- **`Session`** (`session.dfy`) holds the server state as a value: both stacks, the client set, the routes, the
  activity times, the endpoint-to-position map, the pad states and the last sweep time.
  - Its invariant `Inv` holds the conservation rules. Every endpoint and every position is either free or assigned,
    never both. Both stacks hold exactly `4 - |clients|` entries. Routes and positions are injective.
  - `Displayed` says the compositor pads reflect the assignment.
  - The module defines each rule of the poll loop as a specification function: admission, routing, fan-out, eviction,
    compaction and sweep. Lemmas next to them prove the properties of these functions.
- **`EventLoop`** (`event_loop.dfy`) composes one wake-up of the poll loop (`Step`), including the `continue` error
  paths and the change-report flag, and proves its properties.
- **`Relay`** (`relay.dfy`) is the server as the source writes it: a class `Relay.Server` whose fields are the global
  containers, updated in place.
  - Each method is proved to leave `Model()` equal to the matching `Session`/`EventLoop` function of the old state.
  - The loops are proved with invariants: the fan-out `for`, the idle collection, the erase loop of the sweep, and
    the compaction pass that re-sorts the stack as it goes.
- **`Scenario`** (`scenario.dfy`) works through a concrete run.
  - Four clients A < B < C < D hold endpoints 3, 2, 1, 0 at positions 0, 1, 2, 3.
  - The sweep evicts B alone.
  - Compaction moves C and D down one position each.
  - A fifth client E then receives endpoint 2 at position 3.

Behaviour of the code worth knowing:

- **Forward failure.** A failed forward to the endpoint (`continue` at server.cpp:346) ends the whole iteration. It
  does so even when the same datagram just admitted its sender, so that admission is never reported. The pipeline
  read and the sweep are skipped too (`EventLoop.ForwardFailureSkipsAll`, `EventLoop.ForwardFailureHidesAdmission`).
- **Compaction order.** Compaction visits clients in address order and always fills the lowest free position. After B
  is evicted from four clients A < B < C < D, C moves from position 2 to 1 and then D from 3 to 2
  (server.cpp:100-121).
- **Pipeline receive failure.** A failed pipeline receive (`continue` at server.cpp:360) also skips the sweep and the
  report for that wake-up.
- **Packed grid.** The free-position stack always holds exactly the highest positions, 3 down to the client count.
  Start-up sets it up, admission pops from its back, and every eviction is followed by compaction. So in every
  reachable state the clients occupy positions 0..k-1, and the next admission takes position k
  (`EventLoop.ReachableIsDense`).

## Model

| member | source | states |
|---|---|---|
| Addresses.LessIsStrictTotalOrder | server.cpp:17-25 | the address comparison is irreflexive, asymmetric, transitive and total on distinct addresses, so it is a valid `std::set` order |
| Addresses.SameKeyIff | server.cpp:17-25 | two addresses are the same key exactly when both `s_addr` and `sin_port` are equal |
| Addresses.Insert | server.cpp:315 | inserting into the ordered client set keeps it sorted, adds exactly the new address, and leaves the set unchanged when the address is present |
| Addresses.Remove | server.cpp:402 | erasing from the ordered client set keeps it sorted, removes exactly that address, and shrinks it by one when present |
| Addresses.SortedCons | server.cpp:17-25 | an address below every element of a sorted set can be put in front and the result is sorted |
| Slots.PositionPoint | server.cpp:63-72 | positions 0..3 map to (0,0), (320,0), (0,240), (320,240): x from the column, y from the row |
| Slots.PositionPointInjective | server.cpp:63-72 | distinct positions have distinct coordinates |
| Slots.InitialPositions | server.cpp:77-83 | the initial position stack holds each of the four positions once, in strictly descending order, with 0 on top |
| Slots.SortDesc | server.cpp:94 | the descending sort returns a descending permutation of its input, strictly descending when the input has no duplicates |
| Slots.InsertDescCounts | server.cpp:94 | one insertion step of the sort adds exactly one occurrence of the inserted position |
| Slots.TopRange | server.cpp:88-124 | a strictly descending stack whose top is at least `4 - size` is exactly the top positions 3, 2, … |
| Session.PoolsPartition | server.cpp:79-82 | under the invariant, an endpoint is free exactly when no client routes to it and a position is free exactly when no endpoint occupies it; both stacks hold `4 - clients` entries, so there are never more than four clients |
| Session.Initial | server.cpp:166-168 | the start state has no clients, all four endpoints and positions free, endpoint 3 and position 0 on top, and satisfies the invariant and the pad agreement |
| Session.Admit | server.cpp:310-335 | a sender is admitted exactly when it is unknown and an endpoint is free; admission pops the back endpoint and the back position, routes the sender to that endpoint and places the endpoint at that position, and leaves the activity times alone; otherwise nothing changes |
| Session.Touch | server.cpp:338-340 | the activity refresh stamps a routed sender with the current time, leaves every other client's time and every other field alone, and changes nothing for an unrouted sender |
| Session.OnClient | server.cpp:310-340 | the client half keeps the invariant, adds only the sender (and only when admitted), never changes an existing route, stamps the sender's activity with the current time whenever it is routed, and leaves all other activity untouched |
| Session.AdmitKeepsInv | server.cpp:315-331 | admitting an unknown sender when an endpoint is free preserves the conservation invariant |
| Session.OnClientDisplays | server.cpp:327-328 | after the client half the pads still show exactly the assigned endpoints at their positions' coordinates |
| Session.Received | server.cpp:302 | a received datagram is exactly the first min(length, 4096) bytes of the datagram sent: the whole datagram when it fits, otherwise its first 4096 bytes |
| Session.FanOut | server.cpp:364-371 | the fan-out sends the identical payload only to clients, to every client whose send does not fail and to no one else, once each, in set order |
| Session.IdleOf | server.cpp:379-385 | the collected list holds exactly the clients silent for strictly more than 2000000 µs, in set order |
| Session.EvictOne | server.cpp:389-404 | one eviction keeps the invariant, removes exactly that client from the set, routes and activity, pushes its endpoint and its position back on the stacks, and hides its pad |
| Session.EvictKeepsInv | server.cpp:389-404 | evicting a present client preserves the conservation invariant |
| Session.EvictAll | server.cpp:387-407 | the erase loop keeps the invariant and the sweep time, and leaves exactly the clients not in the list |
| Session.EvictAllSurvivors | server.cpp:387-407 | every surviving client keeps its endpoint, its activity time, its position and its pad |
| Session.EvictAllHides | server.cpp:393 | every evicted client's pad ends hidden |
| Session.EvictAllReleases | server.cpp:399 | the endpoint stack grows by exactly the evicted clients' endpoints, each once, in eviction order |
| Session.EvictAllReleasesSlots | server.cpp:398 | the position stack grows by exactly the evicted clients' positions, each once, in eviction order |
| Session.EvictAllDisplays | server.cpp:393-394 | after the erase loop the pads still agree with the assignment |
| Session.MoveDown | server.cpp:106-120 | moving one endpoint gives it the lowest free position, frees its old one, keeps the stack strictly descending with a higher top, sets its pad coordinates, and changes nothing else |
| Session.MoveDownDisplays | server.cpp:113 | a move keeps the pads in agreement with the assignment |
| Session.SortFree | server.cpp:91-94 | the first sort keeps the same free positions, leaves the rest of the state alone and makes the stack strictly descending, with the invariant kept |
| Session.CompactPass | server.cpp:98-121 | the pass from the first client keeps the invariant, the clients, routes, activity and endpoints, and leaves the free stack as 3, 2, … down to the client count |
| Session.CompactFrom | server.cpp:100-121 | the pass over the remaining clients keeps the routes, clients, activity, endpoints and occupied endpoints, and ends with every client below the lowest free position |
| Session.PassStays | server.cpp:105-106 | a client already below the lowest free position is skipped |
| Session.PassMoves | server.cpp:106-120 | a client above the lowest free position is moved and the pass continues from the moved state |
| Session.Compact | server.cpp:88-124 | compaction keeps the invariant, the routes, clients and endpoints, frees exactly the top positions 3, 2, … and leaves the stack sorted descending |
| Session.CompactIsDense | server.cpp:88-124 | after compaction the occupied positions are exactly 0..k-1 for k clients |
| Session.CompactNextSlot | server.cpp:94-96 | after compaction with room left, the next admission takes position k, the smallest free one |
| Session.CompactDisplays | server.cpp:113 | compaction keeps the pads in agreement with the assignment |
| Session.SortedNoDup | server.cpp:27 | a client set in strict order has no duplicates, so each idle client is erased once |
| Session.SweepBoundary | server.cpp:374 | the sweep guard is strict: it is not due exactly 8000000 µs after the last check and is due from one microsecond later on |
| Session.IdleBoundary | server.cpp:381 | the idle test is strict: a client silent for exactly 2000000 µs stays, and one silent one microsecond longer is idle |
| Session.StampKeepsInv | server.cpp:376 | recording the sweep time keeps the invariant |
| Session.Sweep | server.cpp:374-413 | when the check is not due nothing changes; when due the check time is reset, exactly the idle clients leave, and removal is reported exactly when some client was idle |
| Session.SweepWithoutIdle | server.cpp:374-413 | a due sweep with no idle client only resets the check time and reports nothing |
| Session.SweepReleases | server.cpp:387-411 | a due sweep pushes exactly the idle clients' endpoints back on the free stack, in set order, above those already free |
| Session.SweepSurvivors | server.cpp:387-407 | clients that survive a sweep keep their routes and activity times |
| Session.SweepDisplays | server.cpp:387-411 | a sweep keeps the pads in agreement with the assignment |
| Session.SweepPacks | server.cpp:409-411 | after a sweep that removed someone, the occupied positions are exactly 0..k-1 |
| Session.InitialPacked | server.cpp:79-82 | the start-up position stack 3, 2, 1, 0 holds exactly the highest positions |
| Session.PackedIsDense | server.cpp:313-331 | when the free stack holds exactly the highest positions, the k clients occupy exactly positions 0..k-1 |
| Session.AdmitTakesLowest | server.cpp:323-330 | in a packed state an admitted sender is placed at position k, the smallest free one, for k clients present |
| Session.OnClientKeepsPacked | server.cpp:310-340 | the client half keeps the free stack packed |
| Session.SweepKeepsPacked | server.cpp:374-413 | a sweep keeps the free stack packed: with nobody idle it is untouched, otherwise compaction repacks it |
| EventLoop.ClientPhase | server.cpp:302-349 | the client half is a no-op for no datagram, ends the iteration on a failed receive, and otherwise admits and touches the sender, forwards to its route only, and ends the iteration on a failed forward |
| EventLoop.PipelinePhase | server.cpp:352-372 | the pipeline half is skipped after an earlier `continue`, ends the iteration on a failed receive, and otherwise appends the fan-out |
| EventLoop.Step | server.cpp:294-415 | one wake-up preserves the conservation invariant |
| EventLoop.StepDisplays | server.cpp:294-415 | one wake-up keeps the pads in agreement with the assignment |
| EventLoop.StepKeepsRoutes | server.cpp:318 | a client's route never changes while it stays routed |
| EventLoop.StepForwardsToRoute | server.cpp:338-343 | the only datagram sent to an endpoint is the first one sent, it is the truncated client datagram, and it goes to the route that the sender still holds at the end of the wake-up |
| EventLoop.ClientSendsAfter | server.cpp:343-366 | endpoint sends precede all client sends in a wake-up's output |
| EventLoop.RoutedSenderIsForwarded | server.cpp:338-343 | a routed sender whose forward succeeds has its activity stamped and its datagram forwarded to its route first |
| EventLoop.StepFansOut | server.cpp:364-371 | the pipeline datagram reaches a client exactly when no `continue` ended the iteration, the client is in the set after the client half, and its send does not fail |
| EventLoop.SenderSurvives | server.cpp:340-381 | a sender that is routed on this wake-up is not evicted by the same wake-up's sweep |
| EventLoop.FullPoolTurnsAway | server.cpp:312-314 | with four clients an unknown sender changes nothing and nothing is sent to an endpoint |
| EventLoop.ClientRecvFailureSkipsAll | server.cpp:303-307 | a failed client receive ends the wake-up with no change, no output and no report |
| EventLoop.PipelineRecvFailureSkipsSweep | server.cpp:357-361 | a failed pipeline receive skips the sweep and the report |
| EventLoop.ForwardFailureSkipsAll | server.cpp:343-347 | a failed forward of a routed sender ends the wake-up with the client half's state only: no pipeline read, no sweep, no sends and no report |
| EventLoop.ForwardFailureHidesAdmission | server.cpp:343-347 | a failed forward keeps a fresh admission but suppresses the report |
| EventLoop.ReportMeansChange | server.cpp:415 | on a wake-up without `continue`, a report means the client set changed |
| EventLoop.SilenceMeansNoChange | server.cpp:415 | on a wake-up without `continue`, no report means the client set is unchanged |
| EventLoop.StepKeepsPacked | server.cpp:294-415 | one wake-up keeps the free stack packed |
| EventLoop.Run | server.cpp:284-426 | any run of wake-ups, one after another, keeps the conservation invariant |
| EventLoop.RunKeepsPacked | server.cpp:284-426 | any run of wake-ups keeps the free stack packed |
| EventLoop.ReachableIsDense | server.cpp:79-82 | in every state reachable from start-up the k clients occupy exactly positions 0..k-1 and the next admission takes position k |
| Scenario.Join | server.cpp:310-331 | an address above all present ones is appended to the set with the top endpoint and top position |
| Scenario.EvictB | server.cpp:389-404 | evicting B from A, B, C, D frees endpoint 2 and position 1 and leaves A, C, D in place |
| Scenario.CompactAfterB | server.cpp:88-124 | compaction after B moves C's endpoint 1 to position 1 and D's endpoint 0 to position 2, leaving position 3 free |
| Scenario.IdleIsB | server.cpp:379-385 | with only B silent too long, the idle list is exactly [B] |
| Scenario.SweepEvictsB | server.cpp:374-413 | that sweep evicts B, compacts and reports |
| Scenario.EJoins | server.cpp:313-331 | a fifth client E then takes endpoint 2 at position 3 |
| Scenario.EvictThenCompact | server.cpp:387-411 | evicting B from the four-client grid and compacting leaves A at 0, C at 1 and D at 2, with endpoint 2 and position 3 free |
| Scenario.SweepRepacks | server.cpp:374-413 | the sweep that finds only B idle reports and leaves that repacked grid |
| Scenario.JoinRepacked | server.cpp:310-331 | from the repacked grid E takes endpoint 2 at position 3 |
| Scenario.WorkedRun | server.cpp:310-413 | the whole run chained: the sweep evicts B and repacks, then E takes endpoint 2 at position 3 |
| Relay.Server.constructor | server.cpp:77-83 | the start state equals `Session.Initial`: endpoints 0..3 pushed in creation order, positions 3, 2, 1, 0 |
| Relay.Server.AdmitSender | server.cpp:310-335 | the in-place admission leaves the state and flag `Session.Admit` describes |
| Relay.Server.TouchSender | server.cpp:338-340 | the activity stamp updates only the sender's time |
| Relay.Server.OnClientDatagram | server.cpp:310-340 | the in-place client half equals `Session.OnClient` and keeps the invariant |
| Relay.Server.SendToClients | server.cpp:364-371 | the fan-out loop sends exactly `Session.FanOut` in set order |
| Relay.Server.CollectIdle | server.cpp:377-385 | the collection loop returns exactly `Session.IdleOf` |
| Relay.Server.EvictClient | server.cpp:389-404 | one in-place eviction equals `Session.EvictOne` |
| Relay.Server.EvictClients | server.cpp:387-407 | the erase loop equals `Session.EvictAll`, keeps the invariant and reports removal iff the list was non-empty |
| Relay.Server.MoveToLowest | server.cpp:106-120 | one in-place move, pop, push and re-sort equals `Session.MoveDown` |
| Relay.Server.PassOverClients | server.cpp:100-121 | the in-place pass over all clients equals `Session.CompactFrom` from the first client |
| Relay.Server.CompactPositions | server.cpp:88-124 | in-place compaction equals `Session.Compact` and keeps the invariant |
| Relay.Server.SweepIdle | server.cpp:374-413 | the in-place sweep equals `Session.Sweep` and keeps the invariant |
| Relay.Server.HandleWake | server.cpp:294-415 | one in-place wake-up yields the state, sends and report of `EventLoop.Step` and keeps the invariant |

## Left out

- GStreamer: pipeline construction and the compositor pad handles are library calls. Only the pads' `xpos`, `ypos` and
  `alpha` settings are modelled, as a ghost pad state with `alpha` as shown/hidden. The pads start at (0, 0) and shown,
  as the compositor's defaults.
- Sockets: setup, binding and the fatal exits are I/O. The `sendto` calls become an output log of (destination,
  payload) with the failed sends given as input. `recvfrom` becomes an input event. Internal endpoints are named by
  their index 0..3; the bijection `udpsrc_ixs` is the identity.
- `poll` has no timeout, so the sweep runs only on a wake-up. The model has one step per wake-up and no timer.
- `init_udpsrcs` early returns: all four endpoints are assumed created. Only the bookkeeping at lines 166-168 is
  modelled.
- The console dump of the client list is output. Only its condition, the report flag, is modelled.
- `g_get_monotonic_time` is a parameter `now`. Differences of `gint64` times are unbounded integers, so overflow is not
  modelled.
- client.cpp is not part of this model: it is command-line handling and pipeline wiring.
- Scenario.WorkedRun and the other scenario lemmas take the four-client state through its lookups rather than
  deriving it by running four admissions from `Session.Initial`. The joins themselves are covered by `Scenario.Join`.
