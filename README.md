# WGU C950 parcel delivery, modelled in Dafny

This project models the core of the WGU C950 coursework repository:

- **Delivery simulation.** The dispatcher (`Project/dispatch/dispatcher.py`) loads three trucks from fixed manifests. It then drives each truck on a greedy nearest-hub route until the day's time runs out. A small rule engine, keyed on each parcel's note, decides whether a parcel may be handed over at a stop.
- **Data structures it stands on:**
  - two separate-chaining hash maps (`hash_map.py`, `HashMap.py`);
  - the hub graph with its Dijkstra routine (`graph_impl.py`);
  - an older graph class (`graph.py`).
- **Console front end** (`Project/main.py`) and the spreadsheet cell parser (`parser.py`).
- **Four coursework exercises:**
  - two processor schedulers;
  - breadth-first search over a vertex graph;
  - range collection in a binary search tree;
  - tree depth.

Conventions:

- Times of day are whole seconds after midnight, and `datetime` arithmetic wraps at 86400.
- Miles, speeds and distances are `real`.
- Python's `math.inf` is the `Inf` case of a distance.
- An exception the source raises is an error value (`None`, `KeyError`, `Err(...)`) rather than a crash.
- Module-level constants that the dispatcher and the menu import but that `Project/constants.py` does not define are fields of a `Config` or `RuleTexts` parameter. These are:
  - the manifests;
  - the delayed start;
  - the new-address time and the right address;
  - the rule texts;
  - the truck count, speed and capacity.

Where the code does something other than its names, messages or docstrings suggest, the model follows the code:

- `_time_parser` accepts every time up to 17:59, although its message asks for a time between 08:00 and 17:00 (`Menu.TimeParserClock`).
- `validate_delivery_time_from_cell` reads `%I`, so it refuses a 13-to-23 hour such as "13:00 PM" (`CellParser.StrpTimeRefusesHour13`).
- The older graph routine `a_star_shortest_path` never queues a node after the start. Each of the start's neighbours therefore ends at twice its edge weight (`LegacyGraph.PassDoubles`).
- `graph.py` tests `node1 is not node2` by identity; the model compares nodes by value.
- `Truck` (Project/models/Truck.py:16) documents its speed in miles per hour. The dispatcher, however, divides a distance by the speed and uses the quotient as seconds (Project/dispatch/dispatcher.py:285-298). The model follows that code, so a speed here is in miles per second.

## Model

| member | source | states |
|---|---|---|
| Dispatch.Dispatcher.NextNearestHub | Project/dispatch/dispatcher.py:362-413 | Fails (the `None < x` TypeError) exactly when the first queued hub has no distance entry and a later one has. Otherwise it pops one queue entry: the earliest hub of least defined distance, since ties keep the first (strict `<`). A hub without an entry is driven to at distance 0. |
| Dispatch.Without | Project/dispatch/dispatcher.py:411-413 | `list.pop(k)` leaves one element fewer. |
| Dispatch.WithoutKeeps | Project/dispatch/dispatcher.py:411-413 | `list.pop(k)` takes exactly one copy of the element at `k` out of the multiset, and adds nothing. |
| Dispatch.FirstLeastIs | Project/dispatch/dispatcher.py:385-402 | The scan's choice is no further than any hub scanned, and strictly nearer than every hub before it: the first of equally near hubs is kept. |
| Dispatch.NearestSpec | Project/dispatch/dispatcher.py:362-413 | `next_nearest_hub` raises (comparing with `None`) exactly when the first hub has no distance entry and a later one has. Otherwise it picks the earliest hub of least distance, or the first hub at distance 0 when no hub has an entry. |
| Dispatch.NearestUnique | Project/dispatch/dispatcher.py:362-413 | The queue decides the pick: two picks that both meet that description are the same. |
| Dispatch.RemainingTime | Project/dispatch/dispatcher.py:338-360 | The seconds from begin to end: `begin + r == end`, negative when end comes first. |
| Dispatch.AddressesOf | Project/dispatch/dispatcher.py:257-261 | The hub queue holds the address of each manifest parcel, in manifest order. |
| Dispatch.DrainRetries | Project/dispatch/dispatcher.py:324-328 | The `pop(0)` loop moves the retry list to the end of the queue in FIFO order and leaves it empty. |
| Dispatch.Present | Project/dispatch/dispatcher.py:216-220 | Loading stops at the first manifest id the index lacks. Every id before it is indexed. |
| Dispatch.Parcels | Project/dispatch/dispatcher.py:217-218 | The parcels `indexed_packages.get` returns for the ids, in order. |
| Dispatch.Fits | Project/dispatch/dispatcher.py:217-220 | A truck offered parcels one by one keeps the longest prefix that fits its free capacity, and none when it is full. |
| Dispatch.FitsStep | Project/dispatch/dispatcher.py:217-220 | One more offered parcel is taken exactly when the parcels before it left a place free. |
| Dispatch.IndexedParcels | Project/dispatch/dispatcher.py:217-220 | Every parcel a truck takes while loading comes from the parcel index. |
| Dispatch.FirstWithId | Project/dispatch/dispatcher.py:209-213 | The truck search loop finds a truck of the fleet with the id, or `None` exactly when no truck has it. |
| Dispatch.FirstWithIdNumbered | Project/dispatch/dispatcher.py:174-181 | In the fleet `prep_trucks_for_dispatch` numbers 1..n, truck id `k` is found at place `k-1`; an id outside 1..n finds none. |
| Dispatch.IndexOf | Project/dispatch/dispatcher.py:96-108 | The id index holds exactly the ids of the loaded parcels, each mapped to a parcel with that id. |
| Dispatch.IndexOfLatest | Project/dispatch/dispatcher.py:101-105 | A parcel whose id no later parcel repeats is the one the index keeps: a later `add` replaces an earlier one. |
| Dispatch.CountPartnerIds | Project/dispatch/dispatcher.py:599-604 | The counting loop over a parcel list yields `CountPartners` of its ids. |
| Dispatch.Dispatcher.IsPackageDeliverable | Project/dispatch/dispatcher.py:529-621 | The verdict is `Decide` of the note's rule for this truck, its clock, manifest, delivered list and arrival estimate. The parcel's address becomes the right address exactly when a wrong-address parcel may go; otherwise it is unchanged. |
| Dispatch.Dispatcher.Offer | Project/dispatch/dispatcher.py:294-312 | A parcel that passes its rule adds `travel` miles, advances the clock and the time left by the drive's whole seconds, and is taken off the manifest, stamped delivered and appended to the delivered list. A parcel that fails changes nothing. |
| Dispatch.Dispatcher.Consider | Project/dispatch/dispatcher.py:288-315 | One read of the `for package in truck.packages` walk is one `Turn`: the parcel is handed over, refused or passed over exactly as `Decide` and the hub test say. Only the first hand-over at a hub pays the distance (`distance = 0` afterwards). A refusal clears `validation_passes`. |
| Dispatch.Dispatcher.ServeHub | Project/dispatch/dispatcher.py:288-315 | The whole walk at a hub is `Replay`, the turn-by-turn specification, from the manifest. Every parcel handed over was addressed to the hub and is stamped delivered by this truck at the arrival time. Untouched parcels keep their fields. The odometer and clocks moved by one drive, or by none when nothing was handed over. When all parcels pass and none is handed over, no parcel was for the hub. |
| Dispatch.Dispatcher.VisitHub | Project/dispatch/dispatcher.py:286-328 | Serving the popped hub is one pass `Visited` of the route specification. `passes` is the walk's verdict. The truck is at that hub when every parcel passed and stays where it was otherwise, when the hub is re-queued. When the queue empties, the retry list is moved into it. The queue and retry list still cover every address on the manifest. |
| Dispatch.Dispatcher.RoutePass | Project/dispatch/dispatcher.py:277-331 | One pass of the route loop, branch by branch against `Nearest`. A `None` comparison, a zero speed or a hub further than the time left stops the route as `Ended` says (`Failed(NoneComparison)`, `Failed(ZeroDivision)`, or `Finished` at the current time), with the state unchanged. A hub in reach is visited, which extends the legs by one `Visited` pass and keeps the route invariant. |
| Dispatch.Dispatcher.RoutePasses | Project/dispatch/dispatcher.py:263-331 | The loop's states are legs of passes from the departure, within `fuel` passes, and the route invariant holds in the last one. The loop ends there as `Over` says: a pass halted it, the fuel ran out, or the queue or the time ran out. |
| Dispatch.Dispatcher.RouteLoop | Project/dispatch/dispatcher.py:263-336 | The route and final state are those of `Run`, the loop's specification. A returned time is `begin` when nothing was delivered and the truck's clock otherwise, and is returned only with the queue empty or out of time. The loop only hands over manifest parcels, each stamped by this truck. A loop whose queue ran out has delivered the whole manifest when no parcel was listed twice. |
| Dispatch.Dispatcher.DriveRoute | Project/dispatch/dispatcher.py:253-336 | The route is `Run` from the `Departure` (manifest sorted by deadline, queue of its addresses). The properties of `RouteLoop` hold for the truck's original manifest. |
| Dispatch.Dispatcher.StartRoute | Project/dispatch/dispatcher.py:254-261 | The manifest becomes `SortBy` deadline of itself, a stable sort and a permutation. The queue is the addresses of the sorted parcels, in order, so every parcel is owed a stop before anything is handed over. |
| Dispatch.Dispatcher.BeginDelivery | Project/dispatch/dispatcher.py:222-336 | An empty manifest returns `begin` at once with nothing delivered, and the status stays "Out on deliveries". Otherwise the route is `Run` from the `Departure`. A route that returns a time leaves the truck AT HUB and any other leaves it out on deliveries. A returned time is `begin` when nothing was delivered and the truck's clock otherwise, with the queue empty or out of time. Every hand-over is of a manifest parcel, stamped delivered by this truck. A queue that ran out means every parcel was delivered, when none was listed twice. |
| Dispatch.Dispatcher.constructor | Project/dispatch/dispatcher.py:36-54 | Parcels are indexed by id and their notes become the business rules. The fleet is trucks numbered 1..n, each empty. |
| Dispatch.Dispatcher.PrepTrucksForDispatch | Project/dispatch/dispatcher.py:157-181 | `range(1, n + 1)` gives n distinct new trucks with ids 1..n, each empty, AT HUB, with no miles, the configured speed and capacity, and the start clock. |
| Dispatch.Dispatcher.FindTruck | Project/dispatch/dispatcher.py:209-213 | The search loop returns the first truck of the fleet with the id. |
| Dispatch.Dispatcher.LoadTruckWithPackages | Project/dispatch/dispatcher.py:183-220 | Truck ids 1, 2 and 3 load their own manifest and any other id loads none. The found truck takes the parcels that fit, in manifest order, and each offered parcel is marked en route on it. An id the index lacks stops loading and is reported. Other trucks are untouched, and addresses are unchanged. |
| Dispatch.Dispatcher.LoadParcels | Project/dispatch/dispatcher.py:216-220 | The loading loop offers the indexed parcels in order, up to the first missing id, after marking each en route on the truck. |
| Dispatch.Dispatcher.Board | Project/dispatch/dispatcher.py:218-220 | One loading step marks the parcel en route on this truck, then offers it to the truck. |
| Dispatch.Dispatcher.ClearOutTrucks | Project/dispatch/dispatcher.py:435-468 | Every truck is emptied, AT HUB, with speed 0, no miles and full capacity. Its clock is kept. |
| Dispatch.Dispatcher.ClearPackageWarehouse | Project/dispatch/dispatcher.py:470-485 | The parcel index becomes empty. |
| Dispatch.ServedStep | Project/dispatch/dispatcher.py:306-309 | Handing one more parcel over at a hub extends what the hub visit has shipped, with the manifest losing exactly that parcel. |
| Dispatch.HandedStep | Project/dispatch/dispatcher.py:288-315 | What a hub visit ships adds to what the route has shipped; every other parcel keeps its fields. |
| Dispatch.CoveredStep | Project/dispatch/dispatcher.py:314-328 | After serving the popped hub, the remaining queue plus the retry list (with the hub re-queued if refused) still owes a stop to every parcel left. |
| Dispatch.CoverAfterHub | Project/dispatch/dispatcher.py:314-322 | The counting behind `CoveredStep`, on the manifest's addresses. |
| Dispatch.CoverShrinks | Project/dispatch/dispatcher.py:314-322 | The multiset argument behind `CoverAfterHub`. |
| Dispatch.RouteStart | Project/dispatch/dispatcher.py:257-268 | The queue of the manifest's addresses covers the manifest before anything is handed over. |
| Dispatch.AddrsPermutation | Project/dispatch/dispatcher.py:254-261 | Reordering the manifest (the deadline sort) keeps the same addresses, in some order. |
| Dispatch.OnManifest | Project/dispatch/dispatcher.py:288 | A parcel still on the manifest is one of the parcels the route started with. |
| Dispatch.CoveredDone | Project/dispatch/dispatcher.py:277-336 | A route of parcels listed once each whose queue and retry list are both empty has nothing left on the manifest. |
| Dispatch.HandedSplit | Project/dispatch/dispatcher.py:288-309 | What was handed over and what is left on the manifest make up the starting parcels: the lengths add up, and every parcel left is one of them. |
| Dispatch.HubVisited | Project/dispatch/dispatcher.py:286-328 | Serving one hub extends what the route has handed over. The queue left once the hub is popped, re-queued when refused, with the retry list taken back when the queue ran out, still covers the manifest. |
| Dispatch.Dispatcher.TurnKeeps | Project/dispatch/dispatcher.py:288-312 | A turn of the walk only moves a parcel from the manifest to the handed-over list. |
| Dispatch.Dispatcher.TurnServed | Project/dispatch/dispatcher.py:288-312 | A turn keeps `Served`: every parcel handed over at the hub was for it and is stamped delivered at the arrival time. |
| Dispatch.Dispatcher.TraceTurn | Project/dispatch/dispatcher.py:288-314 | The turn of the parcel read next, told by outcome: another hub changes nothing, a refusal clears `passes`, a hand-over removes the parcel, sets its final address and stamps it. It extends the trace by one read. |
| Dispatch.Dispatcher.ReplayKeeps | Project/dispatch/dispatcher.py:288-312 | The whole walk at a hub only moves parcels from the manifest to the handed-over list. |
| Dispatch.Dispatcher.ReplaySkips | Project/dispatch/dispatcher.py:288-309 | Two parcels for the hub one after the other, neither with a note: the first is handed over, and the list iterator then passes over the second, which stays on the manifest. |
| Dispatch.Dispatcher.ReplayProgress | Project/dispatch/dispatcher.py:288-314 | The whole walk keeps `Served`. A walk that handed nothing over and cleared nothing met no parcel for the hub. |
| Dispatch.Dispatcher.TraceDone | Project/dispatch/dispatcher.py:288-314 | A finished trace of the walk is `Replay` from the manifest. It keeps `Served`, and if nothing was handed over and every parcel passed, no parcel was for the hub. |
| Dispatch.Dispatcher.VisitedIs | Project/dispatch/dispatcher.py:300-328 | A pass described field by field (place, queue, retry list, delivered list, clocks, odometer) is `Visited`. |
| Dispatch.Dispatcher.RunVisits | Project/dispatch/dispatcher.py:277-328 | A pass with a hub queued, time left and the nearest hub in reach visits it, and the loop goes on from there with one pass less. |
| Dispatch.Dispatcher.RunStays | Project/dispatch/dispatcher.py:277-336 | A loop that visits no hub stops where it is. A time it returns is the current one, with the queue empty or out of time. |
| Dispatch.Dispatcher.VisitedClocked | Project/dispatch/dispatcher.py:300-312 | A pass keeps the route's time `begin` until something is delivered, and the truck's clock from then on, within the day. |
| Dispatch.Dispatcher.RunClock | Project/dispatch/dispatcher.py:263-336 | Over the whole loop, a returned time is the last state's time: `begin` when nothing was delivered, the truck's clock otherwise. |
| Dispatch.Dispatcher.RunExit | Project/dispatch/dispatcher.py:277-336 | The loop returns a time only once the queue is empty or the time left cannot reach the nearest hub. |
| Dispatch.Dispatcher.LegsExtend | Project/dispatch/dispatcher.py:277-328 | A pass that visits the nearest hub extends the recorded legs by one. |
| Dispatch.Dispatcher.LegsRun | Project/dispatch/dispatcher.py:277-328 | Recorded legs are passes of `Run`: run from the first leg, the loop goes on as from the last one, with as many passes fewer as there are legs. |
| Dispatch.Dispatcher.OverTime | Project/dispatch/dispatcher.py:277-336 | A loop that ended with a time ended at its last state's time, with the queue empty or out of time. |
| Dispatch.Dispatcher.HaltRun | Project/dispatch/dispatcher.py:277-336 | Where a pass halts, or the queue or the time runs out, `Run` stops with that route and that state. |
| Dispatch.Dispatcher.LegsEnd | Project/dispatch/dispatcher.py:263-336 | The recorded legs together with how the loop ended are exactly what `Run` computes from the first leg. |
| DeliveryRules.Classify | Project/dispatch/dispatcher.py:554-621 | A parcel without a note has no rule. A note that matches no rule text (and no co-delivery text inside BR_MUST_BE_DELIVERED) is unrecognised. |
| DeliveryRules.Decide | Project/dispatch/dispatcher.py:557-621 | No note: yes. Delayed: yes iff the clock has reached the delayed start. Truck-two-only: yes iff the truck is number 2. Wrong address: yes iff clock plus travel modulo an hour reaches the new-address time. Co-delivery: yes iff the partner ids counted over manifest and delivered list make 2. Unrecognised: the falsy `None`. |
| DeliveryRules.CountPartners | Project/dispatch/dispatcher.py:596-621 | The count is at most the list length, and 0 exactly when neither partner id occurs. |
| DeliveryRules.CountPartnersAppend | Project/dispatch/dispatcher.py:599-604 | Counting over the manifest and then the delivered list adds the two counts. |
| DeliveryRules.CountPartnersDistinct | Project/dispatch/dispatcher.py:596-605 | Over ids without repeats, the count is one per partner present. |
| DeliveryRules.CoDeliveryNeedsBoth | Project/dispatch/dispatcher.py:597-621 | With no repeated parcel, a co-delivery parcel may go iff both partners are on the truck or already delivered. |
| DeliveryRules.MinutesAndSeconds | Project/dispatch/dispatcher.py:571-574 | The `time(minute=(t // 60) % 60, second=t % 60)` offset is `t mod 3600` seconds. |
| DeliveryRules.ArrivalDropsHours | Project/dispatch/dispatcher.py:570-583 | The arrival estimate keeps only the travel time modulo an hour, so a drive one hour longer gives the same estimate. |
| DeliveryRules.DelayedStartMonotone | Project/dispatch/dispatcher.py:562-565 | A delayed parcel that may go at some clock may also go at every later clock. |
| Models.Package.constructor | Project/models/Package.py:17-26 | A parcel records its id, address, deadline, status and note. |
| Models.Trunc | Project/dispatch/dispatcher.py:298 | `int(x)` of a float rounds toward zero. |
| Models.Elapsed | Project/dispatch/dispatcher.py:285 | The whole seconds of a drive; a drive of 0 miles takes 0 seconds. |
| Models.ClockAfter | Project/dispatch/dispatcher.py:301-304 | The clock after a drive is a time of day: the current time plus the drive's seconds, wrapped at midnight. A zero drive leaves it unchanged. |
| Models.Truck.constructor | Project/dispatch/dispatcher.py:177-179 | A new truck has no parcels and no miles, is AT HUB, and has the given id, speed, capacity and clock. |
| Models.Truck.LoadTruck | Project/dispatch/dispatcher.py:220 | `load_truck` (assumed): a truck with room appends the parcel and uses one place, and the first parcel sets the clock to the start time. A full truck takes nothing, and parcels plus free places stay constant. |
| Models.Truck.UpdateMilesDriven | Project/dispatch/dispatcher.py:300 | `update_miles_driven` (assumed): the odometer grows by the distance. |
| Models.Truck.UpdateTruckClock | Project/dispatch/dispatcher.py:301-305 | `update_truck_clock` (assumed): returns the drive's whole seconds and the new time of day, which becomes the truck's clock. |
| Models.Truck.DeliverPackage | Project/dispatch/dispatcher.py:306-309 | `deliver_package` (assumed): the parcel leaves the manifest at its first place, is stamped delivered by this truck at its clock, and is appended to the delivered list. |
| Sorting.SortBy | Project/dispatch/dispatcher.py:254 | `sorted(..., key=...)` returns a permutation of its input. |
| Sorting.SortBySorted | Project/dispatch/dispatcher.py:254 | The result is ordered by the key. |
| Sorting.SortByStable | Project/dispatch/dispatcher.py:254 | The sort is stable: elements with equal keys keep their relative order. |
| Sorting.Insert | Project/dispatch/dispatcher.py:254 | One insertion step adds exactly the element. |
| Sorting.InsertSorted | Project/dispatch/dispatcher.py:254 | Inserting into a key-ordered list keeps it ordered. |
| Sorting.InsertStable | Project/dispatch/dispatcher.py:254 | Inserting puts the element in front of every element with an equal key. |
| GraphImpl.Graph.constructor | Project/src/graph_impl.py:20-27 | The adjacency map and the distance table start empty. |
| GraphImpl.Graph.AddNode | Project/src/graph_impl.py:29-32 | Adds the hub with no neighbours; a hub already present changes nothing. |
| GraphImpl.Graph.AddEdge | Project/src/graph_impl.py:34-47 | Two distinct hubs become each other's neighbours, and the distance is stored for both orders. The same hub twice changes nothing. |
| GraphImpl.Graph.UpdateHubDistance | Project/src/graph_impl.py:101-111 | Writes the distance for (a, b) and (b, a), and no other entry. |
| GraphImpl.Graph.GetDistance | Project/src/graph_impl.py:50-71 | Infinity unless both hubs are present and adjacent; otherwise the stored distance. |
| GraphImpl.Graph.InitializeHubs | Project/src/graph_impl.py:73-83 | Every hub gets distance infinity and no predecessor. The queue holds each hub's entry exactly once. |
| GraphImpl.Graph.GetHubWithSmallestDistance | Project/src/graph_impl.py:85-99 | Pops the first entry of least distance: none is nearer and every earlier one is farther. The queue shrinks by one. |
| GraphImpl.Graph.StoredWeight | Project/src/graph_impl.py:136 | The table holds a weight for every edge of the graph. |
| GraphImpl.Graph.ImproveHub | Project/src/graph_impl.py:140-143 | An improvement sets the neighbour's distance and predecessor, and writes the distance both ways against the start. |
| GraphImpl.Graph.RelaxEdge | Project/src/graph_impl.py:135-143 | A neighbour is improved exactly when going through the current hub is strictly shorter; otherwise nothing changes. |
| GraphImpl.Graph.RelaxNeighbours | Project/src/graph_impl.py:135-143 | After the neighbour loop, every edge out of the visited hub is relaxed, and the table and the other hubs keep their outcome. |
| GraphImpl.Graph.StartSearch | Project/src/graph_impl.py:122-127 | After the reset, every hub is queued at infinity and the start is at 0. |
| GraphImpl.Graph.VisitNearest | Project/src/graph_impl.py:130-143 | One pass pops one unvisited hub, the nearest, and relaxes its edges. |
| GraphImpl.Graph.Dijkstra | Project/src/graph_impl.py:114-143 | Every hub is visited exactly once. The table stays symmetric and only changes under pairs with the start. With no negative weight, each hub ends at its shortest walk weight from the start, and its predecessor links lead back to the start along such a walk. A start that is not a hub leaves the others at infinity. |
| GraphImpl.DistanceSymmetric | Project/src/graph_impl.py:50-71 | In a graph built by `add_node` and `add_edge`, `get_distance(a, b) == get_distance(b, a)`. |
| GraphImpl.WellFormedAddNode | Project/src/graph_impl.py:29-32 | Adding a hub keeps the graph well formed: mutual adjacency, and a symmetric table entry for every edge. |
| GraphImpl.WellFormedAddEdge | Project/src/graph_impl.py:34-47 | Adding an edge keeps the graph well formed. |
| GraphImpl.WellFormedUpdate | Project/src/graph_impl.py:101-111 | A two-way distance write keeps the table symmetric. |
| GraphImpl.FirstIndex | Project/src/graph_impl.py:68-71 | The scan finds the first position of the hub, or reports it missing exactly when it is absent. |
| GraphImpl.EntriesCoverHubs | Project/src/graph_impl.py:76-83 | The queued entries name exactly the graph's hubs. |
| GraphImpl.NearestUnvisited | Project/src/graph_impl.py:132 | The popped hub is unvisited and at most as far as every other unvisited hub. |
| GraphImpl.RelaxUpdate | Project/src/graph_impl.py:140-143 | An improvement preserves the visit invariant, extending the improved hub's walk by one edge. |
| GraphImpl.RelaxKeep | Project/src/graph_impl.py:140 | A neighbour that is not improved keeps the visit invariant. |
| GraphImpl.VisitingDone | Project/src/graph_impl.py:130 | Once every hub is visited, the distances are shortest-path weights. |
| GraphImpl.AllVisited | Project/src/graph_impl.py:130 | An empty queue means every hub was visited, each once. |
| GraphImpl.StartOutcome | Project/src/graph_impl.py:126-127 | Setting the start to 0 establishes the outcome that holds whatever the weights. |
| GraphImpl.RecordImprovement | Project/src/graph_impl.py:141-143 | An improvement keeps hubs outside the graph untouched and writes the table only under pairs with the start. |
| GraphImpl.RelaxStep | Project/src/graph_impl.py:136-143 | One relaxation either improves the neighbour (distance, predecessor, table both ways) or changes nothing, and keeps every invariant. |
| Paths.RelaxedIsLowerBound | Project/src/graph_impl.py:134-143 | When no edge can be relaxed and the start is at 0, no walk from the start is shorter than its end's distance. |
| HashMaps.HashMap.constructor | Project/src/hash_map.py:27-29 | `size` empty buckets, observed as the empty map. |
| HashMaps.HashMap.Add | Project/src/hash_map.py:31-56 | Upserts into the bucket of the key's (or the attribute's) hash and returns True. Without `object_key`, later `get` sees the new value. A pair filed under another bucket is invisible to `get` and `contains`. |
| HashMaps.HashMap.Get | Project/src/hash_map.py:58-77 | The value of the first pair with the key in the hashed bucket, or `None`. Without `object_key`, the value of the latest `add`. |
| HashMaps.HashMap.Remove | Project/src/hash_map.py:79-95 | True and the pair deleted exactly when the key is present; False with the table unchanged otherwise. |
| HashMaps.HashMap.Contains | Project/src/hash_map.py:97-111 | True exactly when the key is present. |
| HashMaps.HashMap.Clear | Project/src/hash_map.py:121-124 | `size` empty buckets again, with the size unchanged. |
| HashMaps.HashMap.GetAllElements | Project/src/hash_map.py:142-153 | Every stored pair in bucket order, then insertion order. |
| LegacyHashMaps.HashMap.constructor | Project/src/HashMap.py:24-26 | `size` empty buckets, observed as the empty map. |
| LegacyHashMaps.HashMap.Add | Project/src/HashMap.py:28-45 | Upsert in the key's bucket, always True; later lookups see the new value. |
| LegacyHashMaps.HashMap.Get | Project/src/HashMap.py:47-61 | The stored value, or `None` when absent. |
| LegacyHashMaps.HashMap.Remove | Project/src/HashMap.py:63-78 | True and deleted iff present; otherwise False and the table unchanged. |
| LegacyHashMaps.HashMap.Contains | Project/src/HashMap.py:80-94 | True iff the key is present, which is iff `get` finds a pair. |
| LegacyHashMaps.HashMap.Clear | Project/src/HashMap.py:104-107 | `size` empty buckets again. |
| Buckets.Slot | Project/src/hash_map.py:49 | `hash % size` with Python's `%` is a valid bucket index. |
| Buckets.IndexOf | Project/src/hash_map.py:51-53 | The first position of the key in the bucket, or -1 when no pair has it. |
| Buckets.Scan | Project/src/hash_map.py:51-55 | The `enumerate(bucket)` loop finds that same first position. |
| Buckets.EmptyTable | Project/src/hash_map.py:29 | `[[] for _ in range(size)]` has `size` buckets. |
| Buckets.LookupUpsert | Project/src/hash_map.py:50-56 | After an upsert, the key reads the new value and every other key reads what it did before. |
| Buckets.UpsertUnique | Project/src/hash_map.py:50-56 | An upsert keeps at most one pair per key in the bucket. |
| Buckets.LookupDelete | Project/src/hash_map.py:89-95 | After a delete, the key is absent and every other key reads the same. |
| Buckets.DeleteUnique | Project/src/hash_map.py:89-95 | A delete keeps one pair per key and adds no pair. |
| Buckets.InModel | Project/src/hash_map.py:73-77 | The observed map holds a key exactly when its bucket does, with that bucket's value. |
| Buckets.ModelUpsert | Project/src/hash_map.py:46-56 | An upsert in the key's own bucket is a map update. |
| Buckets.ModelUpsertElsewhere | Project/src/hash_map.py:46-50 | An upsert filed in another bucket (via `object_key`) leaves the observed map unchanged. |
| Buckets.ModelDelete | Project/src/hash_map.py:89-95 | A delete in the key's bucket removes the key from the observed map. |
| Buckets.ModelEmpty | Project/src/hash_map.py:121-124 | Empty buckets observe the empty map. |
| Buckets.UpsertPlaced | Project/src/HashMap.py:38-45 | An upsert keeps every pair in its key's bucket. |
| Buckets.DeletePlaced | Project/src/HashMap.py:72-78 | A delete keeps every pair in its key's bucket. |
| Buckets.FlattenIsModel | Project/src/hash_map.py:142-153 | With every pair in its own bucket, the flattened table lists each key once, exactly the observed map's pairs. |
| Buckets.FlattenFromUnique | Project/src/hash_map.py:142-153 | The flattening from any bucket on repeats no key. |
| Buckets.InFlattenFrom | Project/src/hash_map.py:144-149 | A pair is in the flattening exactly when some bucket holds it. |
| LegacyGraph.Graph.constructor | Project/src/graph.py:4-6 | Two empty dicts. |
| LegacyGraph.Graph.AddNode | Project/src/graph.py:8-10 | Adds the node with no neighbours unless present, so it is idempotent. |
| LegacyGraph.Graph.AddEdge | Project/src/graph.py:12-15 | Distinct nodes get (other, weight) appended to both lists, and the same node twice changes nothing. A missing second node raises KeyError after the first list was already extended. |
| LegacyGraph.Graph.GetDistance | Project/src/graph.py:17-24 | KeyError when the start is missing. Otherwise the weight of the first entry naming the end, or infinity (no neighbours, end not a node, no entry). |
| LegacyGraph.Graph.ResetDistances | Project/src/graph.py:31-32 | Every node's distance becomes infinity, and other entries are kept. |
| LegacyGraph.Graph.RelaxList | Project/src/graph.py:46-56 | The relaxation pass over one node's list. Nothing is ever queued, because the distance dict already holds every neighbour. |
| LegacyGraph.Graph.AStarShortestPath | Project/src/graph.py:26-62 | Reset to infinity and start at 0. An end equal to the start returns 0. Otherwise one pass over the start's list, then the whole dict (no end) or the end's distance, with a missing key as KeyError. |
| LegacyGraph.FirstIndex | Project/src/graph.py:21-23 | The first adjacency entry naming the node. |
| LegacyGraph.FirstWeight | Project/src/graph.py:21-24 | The weight of the first entry naming the node, present iff some entry names it. |
| LegacyGraph.FirstWeightDistinct | Project/src/graph.py:21-23 | Without repeated neighbours, the first entry for a neighbour is its only one. |
| LegacyGraph.DistanceOf | Project/src/graph.py:17-24 | KeyError iff the start is not a node. A finite answer iff both are nodes and the end is listed, and then it is the first listed weight. |
| LegacyGraph.Reset | Project/src/graph.py:31-32 | Nodes go to infinity and every other key is kept. |
| LegacyGraph.StartDistances | Project/src/graph.py:31-35 | After the reset, the start is 0 and the other nodes are at infinity. |
| LegacyGraph.WithNode | Project/src/graph.py:8-10 | A present node keeps its list; a new one gets []. |
| LegacyGraph.WithNodeIdempotent | Project/src/graph.py:8-10 | Adding a node twice is adding it once. |
| LegacyGraph.WithNodeMirrored | Project/src/graph.py:8-10 | Adding a node keeps every entry mirrored by its neighbour. |
| LegacyGraph.WithEdge | Project/src/graph.py:12-15 | Each list gains the other node with the weight, and the other lists are unchanged. |
| LegacyGraph.WithEdgeMirrored | Project/src/graph.py:12-15 | Adding an edge keeps every entry mirrored by an equal-weight entry. |
| LegacyGraph.PassDoubles | Project/src/graph.py:46-54 | On a simple graph, each of the start's neighbours ends at twice its edge weight (`get_distance` plus the weight), and nothing else changes. |
| LegacyGraph.DoublesPrefix | Project/src/graph.py:46-54 | Over the first entries of the start's list of a simple graph, the pass gets through without a KeyError and its distances are `Doubled`: exactly those neighbours are set to twice their weight. |
| LegacyGraph.PassLast | Project/src/graph.py:46-54 | An entry whose neighbour is still at infinity is set to the value offered, and the pass goes on. |
| LegacyGraph.PassStops | Project/src/graph.py:46-47 | Once a pass hits a KeyError, later entries change nothing. |
| Menu.Lower | Project/main.py:50 | `str.lower()` on ASCII text: each letter A–Z becomes its lower-case letter, every other character is kept, and the length is unchanged. |
| Menu.Select | Project/main.py:242-260 | After lowering, "q" or "Q" quits, and "1", "2" and "3" run their reports. |
| Menu.UntilQuit | Project/main.py:242-260 | The loop runs one branch per selection, up to the first quit. |
| Menu.UntilQuitStops | Project/main.py:242-260 | The loop quits iff some selection is "q"/"Q". The quit is its last branch with none before it, and without one every selection is taken. |
| Menu.UntilQuitPrefix | Project/main.py:242-258 | Selections after the quit are never read. |
| Menu.QuitFound | Project/main.py:242-258 | The loop quits exactly when some selection is "q" or "Q". |
| Menu.QuitLast | Project/main.py:242-258 | A quit is the last branch taken, and no branch before it quits. |
| Menu.QuitStays | Project/main.py:242-258 | A selection read after a quit adds no branch. |
| Menu.MainMenu.constructor | Project/main.py:25-28 | The menu starts unfinished. |
| Menu.MainMenu.Interface | Project/main.py:233-260 | The loop runs the branches of `UntilQuit`, and `finished` is set only by a quit. |
| Menu.PackageParser | Project/main.py:172-198 | Gives `n` iff `int()` reads `n` and `1 <= n <= maximum`; otherwise `None`. |
| Menu.PackageParserAccepts | Project/main.py:185-193 | Every parcel number typed as Python prints it is accepted iff it is in range. |
| Menu.TimeParser | Project/main.py:200-231 | Gives a time only for a five-character text with one ':', and then between 08:00 and 17:59. |
| Menu.TimeParserClock | Project/main.py:214-225 | Every "HH:MM" is accepted iff 8 <= HH <= 17 and MM <= 59, so "17:59" is accepted. |
| Menu.Latest | Project/main.py:149 | `max(a, b, c)` is one of the three and at least each of them. |
| Menu.RouteTruck | Project/main.py:141-146 | One `begin_delivery` from the menu: an empty truck returns `begin`, a returned time is a time of day, and the truck keeps only parcels it started with. |
| Menu.Load | Project/main.py:137-138 | `load_truck_with_packages(id)` reports the first manifest id missing from the index. The truck with that number ends up `Boarded`: its manifest gains, in manifest order, the indexed parcels before that id, as many as its free capacity takes, its capacity drops by as many, and its clock is set to the start of the day when it was empty and gained some. Other trucks keep their parcels, clocks and capacities. |
| Menu.Send | Project/main.py:141-146 | `begin_delivery(trucks[k])`: IndexError past the fleet; `begin` for an empty truck. Otherwise the time returned is `begin` when the truck handed nothing over and its clock after the last hand-over when it did. A truck that set out with parcels ends `AtHub`, keeps only parcels it set out with, and no truck's capacity changes. Other trucks are untouched. |
| Menu.FirstWave | Project/main.py:136-146 | Trucks 1 and 2 are loaded with their manifests and sent from the start of the day. A parcel missing from truck 1's manifest aborts; so does one missing from truck 2's once truck 1 loaded in full. The two times returned are those truck 1 and truck 2 return for what they were loaded with: the start of the day if nothing was handed over, else the truck's clock. An empty manifest finishes at the start, and trucks from the third on stay empty. |
| Menu.ThirdTruck | Project/main.py:157-170 | Truck 3 is loaded and sent iff time is left before the end; otherwise only its clock is set to the end. A parcel missing from its manifest then aborts. When it is sent, it was loaded from its manifest on top of what it held, and the time returned is the one it returns sent from `start`: `start` if nothing was handed over, else its clock. It keeps only loaded parcels and ends `AtHub` when it held any. Other trucks are untouched, and fewer than 3 trucks is an error. |
| Menu.StartDispatcher | Project/main.py:118-170 | Missing parcels abort in truck order (truck 1's manifest, then truck 2's). `first` and `second` are the times trucks 1 and 2 return, each loaded from its manifest into an empty truck of full capacity and sent from the start of the day. Truck 3 may leave at `max(first, second, delayed start)` and is sent iff that leaves time before the end (the stop time given, or the default end). If it is sent, its time is the one it returns for its loaded manifest sent at that moment; if not, its clock is set to that end and it stays empty. Fewer than 3 trucks aborts. |
| CellParser.SanitizeHubNames | Project/src/parser.py:22-44 | Index 1 gives WGU_ADDRESS for "HUB", otherwise the stripped first line (no newline, no edge spaces). Index 2 gives WGU_ZIPCODE for "HUB", otherwise the zip or the IndexError/ValueError. Any other index gives `None`. |
| CellParser.StreetOf | Project/src/parser.py:37-40 | The street is stripped and one line. A stripped cell equal to HUB_TEXT gives WGU_ADDRESS. |
| CellParser.ZipOf | Project/src/parser.py:41-44 | A zip code, the IndexError of a one-line cell, or the ValueError of a non-number. The IndexError happens only without a newline. A stripped cell equal to HUB_TEXT gives WGU_ZIPCODE. |
| CellParser.HubCell | Project/src/parser.py:37-44 | A cell "street\n(zip)" gives the street at index 1 and the zip number at index 2. |
| CellParser.HubCellLines | Project/src/parser.py:40-44 | Such a cell is already stripped and splits into exactly its two lines. |
| CellParser.ParseZip | Project/src/parser.py:44 | `int()` of five digits is their value. |
| CellParser.StripIdempotentAt | Project/src/parser.py:40 | Stripping the first line again changes nothing. |
| CellParser.Slice | Project/src/parser.py:44 | `s[1:6]` has Python's clamped length. |
| CellParser.ValidateDeliveryTime | Project/src/parser.py:46-63 | "EOD" is 17:00; anything else is `strptime(cell, "%I:%M %p")`. |
| CellParser.StrpTime | Project/src/parser.py:63 | A parsed deadline is a time of day, and the text holds a ':'. |
| CellParser.StrpTimeReadsClock12 | Project/src/parser.py:63 | Every time of day written as "h:MM AM/PM" is read back as itself. |
| CellParser.StrpTimeRefusesHour13 | Project/src/parser.py:63 | "13:00 PM" is refused, because `%I` accepts hours 1 to 12 only. |
| CellParser.AfterColon | Project/src/parser.py:63 | The minutes read are below 60. |
| CellParser.AfterColonReads | Project/src/parser.py:63 | "MM AM" and "MM PM" read back their minute and half of the day. |
| CellParser.Hour24 | Project/src/parser.py:63 | `%I` with `%p` gives an hour of the day, in the morning iff AM. |
| CellParser.Hour12 | Project/src/parser.py:63 | Every hour of the day has a 12-hour reading that `Hour24` maps back to it. |
| CellParser.SmallValue | Project/src/parser.py:63 | A one- or two-digit field's value is below 10 or 100. |
| CellParser.SmallValueTwoDigits | Project/src/parser.py:63 | Two digits written for `n` read back as `n`. |
| CellParser.MinuteLength | Project/src/parser.py:63 | `%M` takes at most two characters. |
| PyText.Strip | Project/src/parser.py:38-40 | `str.strip()` is the middle of the text, without whitespace at either end. |
| PyText.StripIdempotent | Project/src/parser.py:40 | Stripping twice is stripping once. |
| PyText.StripUnchanged | Project/src/parser.py:40 | A text without edge whitespace is its own strip. |
| PyText.Split | Project/src/parser.py:40 | `str.split(sep)` gives one more part than separators, none holding `sep`. |
| PyText.JoinSplit | Project/src/parser.py:40 | Joining the parts with the separator gives the text back. |
| PyText.SplitOnce | Project/main.py:216 | "a:b" without other ':' splits into exactly [a, b]. |
| PyText.SplitNone | Project/src/parser.py:44 | A text without the separator splits into itself alone. |
| PyText.ParseInt | Project/main.py:187 | `int(s)` succeeds only on a text holding a digit. |
| PyText.ParseIntDecimal | Project/main.py:187 | `int(str(n)) == n`. |
| PyText.LiteralDigits | Project/main.py:187 | The decimal digits of a natural number are an integer literal of that number. |
| PyText.LiteralNegated | Project/main.py:187 | A minus sign before those digits is a literal of the negated number. |
| PyText.ReadTwoDigits | Project/main.py:217-218 | `int()` of two digits written for `n` is `n`. |
| PyText.BelowIrreflexive | ch4_Trees/01_BSTTraversalFindKeysInARange/main.py:12 | Python's `<` on strings is irreflexive. |
| PyText.BelowTransitive | ch4_Trees/01_BSTTraversalFindKeysInARange/main.py:12 | Python's `<` on strings is transitive. |
| PyText.AtMostTransitive | ch4_Trees/01_BSTTraversalFindKeysInARange/main.py:12 | Python's `<=` on strings is transitive. |
| PyText.BelowTotal | ch4_Trees/01_BSTTraversalFindKeysInARange/main.py:12 | Of two different strings, one is `<` the other. |
| Schedulers.KeysWith | ch3_Dynamic_Programming_Recursion/03_DpImprovingAnApplication/main.py:21-27 | The keys with the value, in item order, are at most one per item. |
| Schedulers.KeysWithExactly | ch3_Dynamic_Programming_Recursion/03_DpImprovingAnApplication/main.py:21-27 | A key is returned iff the item (key, value) is present. |
| Schedulers.GetKeysByValue | ch3_Dynamic_Programming_Recursion/03_DpImprovingAnApplication/main.py:21-27 | The loop over `items()` returns exactly `KeysWith`. |
| Schedulers.Items | ch3_Dynamic_Programming_Recursion/03_DpImprovingAnApplication/main.py:23 | The items of a dict keyed 0..n-1 in insertion order. |
| Schedulers.KeysOfSlots | ch3_Dynamic_Programming_Recursion/03_DpImprovingAnApplication/main.py:37-39 | Some key has the value iff some slot holds it, and the first key returned is the first such slot. |
| Schedulers.MinOf | ch3_Dynamic_Programming_Recursion/03_DpImprovingAnApplication/main.py:40 | `min` is an element and no element is below it. |
| Schedulers.Shift | ch3_Dynamic_Programming_Recursion/03_DpImprovingAnApplication/main.py:46-47 | Every slot loses the same time. |
| Schedulers.Started | ch3_Dynamic_Programming_Recursion/03_DpImprovingAnApplication/main.py:34-36 | An empty dict gets one idle slot per processor; a non-empty one is kept. |
| Schedulers.FcfsIdle | ch3_Dynamic_Programming_Recursion/03_DpImprovingAnApplication/main.py:59-63 | With an idle processor, FCFS runs process 0 on the first idle slot, and only that slot changes, to `processes[0]`. |
| Schedulers.FcfsBusy | ch3_Dynamic_Programming_Recursion/03_DpImprovingAnApplication/main.py:64-70 | With all busy, FCFS runs process 0 on the first slot holding the minimum. Every other slot loses the minimum and stays non-negative. |
| Schedulers.SpfRunsShortest | ch3_Dynamic_Programming_Recursion/03_DpImprovingAnApplication/main.py:37-50 | SPF runs the first shortest process, and the chosen slot holds its time. |
| Schedulers.ShiftFirstZero | ch3_Dynamic_Programming_Recursion/03_DpImprovingAnApplication/main.py:44-48 | Taking off the minimum leaves the first zero where the minimum first stood. |
| Schedulers.BusySchedulersAgree | ch3_Dynamic_Programming_Recursion/03_DpImprovingAnApplication/main.py:43-70 | With every processor busy, both schedulers pick the same processor. |
| Schedulers.SlotsStayNonNegative | ch3_Dynamic_Programming_Recursion/03_DpImprovingAnApplication/main.py:43-70 | With non-negative process times, no slot goes negative under either scheduler. |
| Schedulers.Processors.constructor | ch3_Dynamic_Programming_Recursion/03_DpImprovingAnApplication/main.py:7-8 | The module-level dict starts empty. |
| Schedulers.Processors.Start | ch3_Dynamic_Programming_Recursion/03_DpImprovingAnApplication/main.py:34-36 | The initialisation loop yields `Started`. |
| Schedulers.Processors.TakeOff | ch3_Dynamic_Programming_Recursion/03_DpImprovingAnApplication/main.py:46-47 | The decrement loop yields `Shift`. |
| Schedulers.Processors.FirstComeFirstServed | ch3_Dynamic_Programming_Recursion/03_DpImprovingAnApplication/main.py:55-70 | The pick and the dict left behind are those of `Fcfs`, whose behaviour `FcfsIdle` and `FcfsBusy` state. |
| Schedulers.Processors.ShortestProcessFirst | ch3_Dynamic_Programming_Recursion/03_DpImprovingAnApplication/main.py:32-50 | The pick and the dict left behind are those of `Spf`, whose behaviour `SpfRunsShortest` states. |
| Bfs.Vertex.constructor | ch6_graphs/01_BFS_search/Graph.py:5-8 | A new vertex has its label, distance infinity and `next` None. |
| Bfs.Graph.constructor | ch6_graphs/01_BFS_search/Graph.py:11-17 | An empty adjacency dict, weight dict and edge list. |
| Bfs.Graph.AddVertex | ch6_graphs/01_BFS_search/Graph.py:19-20 | The vertex gets an empty list, overwriting existing neighbours. |
| Bfs.Graph.AddDirectedEdge | ch6_graphs/01_BFS_search/Graph.py:22-25 | The weight is stored for (from, to), last write winning. `to` is appended to `from`'s list, and the label pair is recorded. An unknown `from` raises KeyError after the weight is written. |
| Bfs.Graph.AddUndirectedEdge | ch6_graphs/01_BFS_search/Graph.py:27-29 | Equal weights both ways and mutual adjacency, with other lists unchanged. |
| Bfs.BreadthFirstSearch | ch6_graphs/01_BFS_search/main.py:8-24 | KeyError exactly when some reachable vertex has no adjacency entry. Otherwise the start is first and no vertex is repeated, and the distances along the returned list never decrease. The result is exactly the vertices reachable from the start, each with its fewest-edge distance, and every other vertex keeps its distance. |
| Bfs.Explore | ch6_graphs/01_BFS_search/main.py:17-23 | Visiting the popped vertex `u` keeps the search invariant and settles `u`. Every vertex it discovers is a neighbour of `u` and gets `u`'s distance + 1. |
| Bfs.Visit | ch6_graphs/01_BFS_search/main.py:19-23 | A neighbour already in the list leaves the list and distances as they were. An undiscovered one is appended once, pushed on the queue, and gets the current vertex's distance + 1 in its field. |
| Bfs.Scan | ch6_graphs/01_BFS_search/main.py:19-23 | After the scan every neighbour of `u` is discovered, at most one edge further than `u`, and whatever was added is a neighbour of `u` at `u`'s distance + 1. |
| Bfs.Scanned | ch6_graphs/01_BFS_search/main.py:19-23 | Seeing the next neighbour, appended when new, keeps the search invariant. |
| Bfs.Widened | ch6_graphs/01_BFS_search/main.py:19-23 | Each step adds at most the neighbour it saw, at `u`'s distance + 1. |
| Bfs.OrderedFields | ch6_graphs/01_BFS_search/main.py:8-24 | Distances in non-decreasing order along the list carry over to the vertices' fields. |
| Bfs.Discovered | ch6_graphs/01_BFS_search/main.py:19-23 | Appending a new neighbour at distance + 1 keeps the discovered list sound and in distance order. |
| Bfs.SoundAppend | ch6_graphs/01_BFS_search/main.py:20-23 | A neighbour discovered at distance + 1 is reachable in that many edges. |
| Bfs.OrderedAppend | ch6_graphs/01_BFS_search/main.py:20-23 | The discovered list stays in non-decreasing distance order. |
| Bfs.ExploredAppend | ch6_graphs/01_BFS_search/main.py:20-21 | Appending keeps every explored vertex's neighbours discovered. |
| Bfs.SeenNew | ch6_graphs/01_BFS_search/main.py:19-23 | A newly discovered neighbour is at most one further than the current vertex. |
| Bfs.SeenOneMore | ch6_graphs/01_BFS_search/main.py:19 | An already discovered neighbour is skipped, being at most one further. |
| Bfs.SeenBefore | ch6_graphs/01_BFS_search/main.py:19 | Skipping a discovered neighbour keeps the search invariant. |
| Bfs.SettledNow | ch6_graphs/01_BFS_search/main.py:18-23 | After its neighbour loop, the popped vertex is fully explored. |
| Bfs.Unexplored | ch6_graphs/01_BFS_search/main.py:16-17 | Every vertex in the frontier is reachable from the start. |
| Bfs.DiscoveredReachable | ch6_graphs/01_BFS_search/main.py:16-24 | Every discovered vertex is reachable. |
| Bfs.WithinDiscovered | ch6_graphs/01_BFS_search/main.py:16-24 | At the end, a vertex within `n` edges is discovered, at distance at most `n`. |
| Bfs.Completeness | ch6_graphs/01_BFS_search/main.py:16-24 | With an empty frontier, the discovered list is exactly the reachable vertices, each at its fewest-edge distance. |
| BstRange.Search | ch4_Trees/01_BSTTraversalFindKeysInARange/main.py:20 | The node found holds the key and is a subtree of the tree, and a search tree's subtree is a search tree. |
| BstRange.SearchFinds | ch4_Trees/01_BSTTraversalFindKeysInARange/main.py:20 | In a search tree, the search finds a node iff the tree holds the key. |
| BstRange.Collect | ch4_Trees/01_BSTTraversalFindKeysInARange/main.py:5-14 | The shared list only grows, by at most one key per node. |
| BstRange.CollectContents | ch4_Trees/01_BSTTraversalFindKeysInARange/main.py:5-14 | The list ends holding exactly its old keys and the subtree's keys within [left, right]. |
| BstRange.CollectDistinct | ch4_Trees/01_BSTTraversalFindKeysInARange/main.py:12-13 | No key is appended twice. |
| BstRange.CollectSorted | ch4_Trees/01_BSTTraversalFindKeysInARange/main.py:9-14 | On a search tree, the in-order appends leave an increasing list. |
| BstRange.KeyList.constructor | ch4_Trees/01_BSTTraversalFindKeysInARange/main.py:17 | `keys = []`. |
| BstRange.InOrderTraversal | ch4_Trees/01_BSTTraversalFindKeysInARange/main.py:5-14 | The recursive walk leaves the shared list as `Collect`; a `None` node adds nothing. |
| BstRange.FindInRange | ch4_Trees/01_BSTTraversalFindKeysInARange/main.py:16-23 | [] when the starting key is not found. Otherwise exactly the in-range keys under the found node, each once, and increasing on a search tree. |
| TreeDepth.MaxDepth | ch5_Balanced_Trees/02_avl_tree_vs_bst_tree/main.py:19-33 | -1 exactly for `None`, 0 for a leaf, never below -1. |
| TreeDepth.DepthBelowSize | ch5_Balanced_Trees/02_avl_tree_vs_bst_tree/main.py:19-33 | The depth is at most the node count minus one. |
| TreeDepth.DeepestNode | ch5_Balanced_Trees/02_avl_tree_vs_bst_tree/main.py:26-33 | Some node lies exactly that deep, and none deeper. |
| TreeDepth.SizeBound | ch5_Balanced_Trees/02_avl_tree_vs_bst_tree/main.py:19-33 | A tree of depth d has fewer than 2^(d+1) nodes. |

## Left out

- Console input and output:
  - the `print` calls and ANSI colours;
  - the `_option_one/two/three` flows with their `input()` loops;
  - `end_delivery_report`, `display_package_status`, `print_package`, `print` and `print_all_packages`.
- Spreadsheet loading (`Project/src/data_loader.py` and `_parse_hubs`, `_load_graph`): the loaded hubs, parcels and distance table are model inputs. `graph.get_hub_by_address` is not part of this model; a hub is identified with its address.
- `_add_shortest_paths_to_graph` and `_graph_visualize`: neither is called on the modelled paths, and the visualiser is rendering only.
- The truck class the dispatcher imports (`models.truck`) is not part of this model. `Models.Truck` assumes the following:
  - `load_truck` fills up to the free capacity and sets the clock with the first parcel;
  - `update_truck_clock` adds the whole seconds of the drive, wrapping at midnight;
  - `deliver_package` removes the parcel from the manifest at its first place and stamps it delivered.
- Because of that removal, the `for package in truck.packages` walk skips the parcel that moves into a delivered parcel's place, as a Python list iterator does.
- Dispatch.Dispatcher.BeginDelivery: the route loop need not terminate (a hub whose parcels are always refused is retried without time passing), so the model stops after `fuel` passes. A run out of fuel is `OutOfFuel`, and nothing is claimed about termination.
- Dispatch.Dispatcher.BeginDelivery: a queue that ran out means every manifest parcel was delivered. The model states this only for manifests that list no parcel twice, because the counting of queue places against parcels needs each parcel once.
- Floating point: miles and speeds are exact reals, and `int()` of a drive time truncates an exact quotient. Rounding in `end_delivery_report` is not modelled.
- A truck with speed 0 (after `clear_out_trucks`) divides by zero on its next drive. The route loop models that ZeroDivisionError as the route `Failed(ZeroDivision)`; only the per-hub methods below it (`ServeHub`, `VisitHub`, `Offer`, `Consider`) require a non-zero speed, and the loop calls them only after its speed check.
- Hash maps: Python's `hash` is a constructor parameter and `size` must be positive. `object_key` is modelled as a second hash function of the key. `HashMap.size()` is not modelled, because the `size` attribute shadows the method.
- `HashMap.reset_packages` (Project/src/HashMap.py) is not modelled: it sets `.status` on (key, value) tuples and would raise.
- GraphImpl: a hub's `distance` and `previous_hub` attributes are side tables of the graph. `math.inf` is the `Inf` distance.
- GraphImpl: hubs are compared by value. `Hub` (Project/models/hub.py) defines neither `__eq__` nor `__hash__`, so the source's hash-map lookups (`kvp[0] == key` in Project/src/hash_map.py:72-75) and `get_distance`'s `adj_node == end_hub` compare hub objects by identity. The model matches two hubs with equal name, address and zip code where the source would not.
- GraphImpl.Graph.AddEdge: requires both hubs to be in the graph. In the source a missing hub makes `adjacency_list.get` return `None`, and `.append` raises AttributeError. When only `hub2` is missing, `hub1`'s list has already gained `hub2` at that point. The model does not capture that error or the half-done update, because the half-done list names a hub outside the graph and so breaks the well-formedness invariant that every `Graph` method keeps.
- LegacyGraph: nodes are compared by value where `add_edge` uses `is not`. The `deque` is a sequence, and since nothing but the start is ever queued, the loop is one pass.
- Schedulers: `load_data`, the `simulation` module and the script's statistics are not modelled. The module-level dicts are `Processors` objects, one per scheduler.
- Bfs: the `Queue` module is not shown and is a sequence (FIFO) here. The networkx and matplotlib plotting in the script and in `Graph.__init__` is left out. Edge weights and vertex distances are kept as reals and `Distance` values.
- BstRange: the `BinarySearchTree` class is not part of this model.
  - `tree.search` is taken to be the textbook search of a binary search tree in which duplicates go right.
  - Keys and bounds are compared as strings, since the script passes the text it reads.
  - The unused `starting_node_value` parameter of `in_order_traversal` is dropped.
- TreeDepth: the AVL and plain binary search trees that the script builds and the depths it prints are not modelled. `maxDepth` is modelled on any binary tree.
- Menu.Lower: only the ASCII letters A–Z are lowered. Python's `str.lower()` also lowers every other cased Unicode letter and can lengthen a string (`'İ'.lower()` is two code points). `Menu.Select` is unaffected: only `"Q"` lowers to `"q"`, and a one-character result can only come from a one-character input.
- CellParser: a non-string cell (`isinstance` fails) is not modelled.
- CellParser, Menu.PackageParser and Menu.TimeParser: the non-ASCII Unicode digits that `int()` accepts are not modelled. These parsers read only ASCII digits, together with the surrounding whitespace, sign and single underscores that `int()` allows.
