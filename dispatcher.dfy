/**
 * The dispatcher of Project/dispatch/dispatcher.py: it indexes the parcels,
 * loads the trucks with their manifests and drives each route, choosing the
 * nearest hub still to visit and handing over the parcels whose notes allow
 * it.
 *
 * Hubs are identified by their address: `get_hub_by_address` is taken as
 * the identity on addresses, and the graph's hub-to-hub distance table is a
 * map from pairs of addresses to miles, where a missing pair reads as
 * Python's `None`. The first hub of the graph (the depot) is a constant.
 */
module Dispatch {
  import opened Wrappers
  import opened Models
  import opened DeliveryRules
  import Sorting

  /** The distances `graph.distance` holds between hubs, keyed by their addresses. */
  type Table = map<(string, string), real>

  /** The exceptions the route loop can raise. */
  datatype Failure =
    | ZeroDivision     // a distance divided by a truck speed of 0.0
    | NoneComparison   // a distance compared with `None` while looking for the nearest hub

  /** How a route ends: the time it returns, an exception, or the loop bound running out. */
  datatype Route = Finished(time: int) | Failed(failure: Failure) | OutOfFuel

  /** The hub `next_nearest_hub` chooses: its place in the queue, the distance to drive, and the queue without it. */
  datatype Pick = Pick(index: nat, hub: string, distance: real, rest: seq<string>)

  /** The queue without its element at `k` (`list.pop(k)`). */
  function Without<T>(s: seq<T>, k: nat): (r: seq<T>)
    requires k < |s|
    ensures |r| == |s| - 1
  {
    s[..k] + s[k + 1..]
  }

  /** Popping one element leaves the others: it takes exactly one `s[k]` out of the multiset. */
  lemma WithoutKeeps<T>(s: seq<T>, k: nat)
    requires k < |s|
    ensures multiset(Without(s, k)) + multiset{s[k]} == multiset(s)
    ensures forall x :: x in Without(s, k) ==> x in s
  {
    assert s == s[..k] + [s[k]] + s[k + 1..];
  }

  /** The hub `next_nearest_hub` picks when it raises no exception. */
  ghost predicate IsNearest(table: Table, current: string, queue: seq<string>, p: Pick) {
    p.index < |queue| && p.hub == queue[p.index] && p.rest == Without(queue, p.index) &&
    if (current, p.hub) in table then
      p.distance == table[(current, p.hub)] &&
      (forall j :: 0 <= j < |queue| && (current, queue[j]) in table ==> p.distance <= table[(current, queue[j])]) &&
      (forall j :: 0 <= j < p.index && (current, queue[j]) in table ==> p.distance < table[(current, queue[j])])
    else
      p.index == 0 && p.distance == 0.0 &&
      forall j :: 0 <= j < |queue| ==> (current, queue[j]) !in table
  }

  /** The first place among the first `n` queued hubs of least distance from `current`, when the first hub has one. */
  ghost function FirstLeast(table: Table, current: string, queue: seq<string>, n: nat): (k: nat)
    requires 0 < n <= |queue| && (current, queue[0]) in table
    ensures k < n && (current, queue[k]) in table
  {
    if n == 1 then 0
    else
      var k := FirstLeast(table, current, queue, n - 1);
      if (current, queue[n - 1]) in table && table[(current, queue[n - 1])] < table[(current, queue[k])] then n - 1 else k
  }

  /** `FirstLeast` is no further than any of the first `n` hubs, and strictly nearer than every one before it. */
  lemma {:induction false} FirstLeastIs(table: Table, current: string, queue: seq<string>, n: nat)
    requires 0 < n <= |queue| && (current, queue[0]) in table
    ensures var k := FirstLeast(table, current, queue, n);
      (forall j :: 0 <= j < n && (current, queue[j]) in table ==> table[(current, queue[k])] <= table[(current, queue[j])]) &&
      (forall j :: 0 <= j < k && (current, queue[j]) in table ==> table[(current, queue[k])] < table[(current, queue[j])])
    decreases n
  {
    if n > 1 {
      FirstLeastIs(table, current, queue, n - 1);
    }
  }

  /** What `next_nearest_hub` does with a non-empty queue: `None` when it raises, otherwise the hub it picks. */
  ghost function Nearest(table: Table, current: string, queue: seq<string>): (r: Option<Pick>)
    requires queue != []
  {
    if (current, queue[0]) in table then
      var k := FirstLeast(table, current, queue, |queue|);
      Some(Pick(k, queue[k], table[(current, queue[k])], Without(queue, k)))
    else if exists j :: 1 <= j < |queue| && (current, queue[j]) in table then None
    else Some(Pick(0, queue[0], 0.0, Without(queue, 0)))
  }

  /**
   * `Nearest` raises exactly when the first hub has no entry and a later
   * one has, and otherwise picks a hub `IsNearest` accepts.
   */
  lemma NearestSpec(table: Table, current: string, queue: seq<string>)
    requires queue != []
    ensures var r := Nearest(table, current, queue);
      (r.None? <==> (current, queue[0]) !in table && exists j :: 1 <= j < |queue| && (current, queue[j]) in table) &&
      (r.Some? ==> IsNearest(table, current, queue, r.value))
  {
    if (current, queue[0]) in table {
      FirstLeastIs(table, current, queue, |queue|);
    }
  }

  /** The queue decides the pick: two picks that both qualify as nearest are the same. */
  lemma NearestUnique(table: Table, current: string, queue: seq<string>, p1: Pick, p2: Pick)
    requires IsNearest(table, current, queue, p1) && IsNearest(table, current, queue, p2)
    ensures p1 == p2
  {
    if (current, p1.hub) in table {
      assert (current, queue[p1.index]) in table;
      assert (current, queue[p2.index]) in table;
    }
  }

  /** A sequence whose neighbours are equal has its last element equal to its first. */
  lemma {:induction false} Steady<T>(xs: seq<T>)
    requires xs != [] && forall j, k :: 0 <= j && k == j + 1 && k < |xs| ==> xs[j] == xs[k]
    ensures xs[0] == xs[|xs| - 1]
    decreases |xs|
  {
    if |xs| > 1 {
      var tail := xs[1..];
      forall j, k | 0 <= j && k == j + 1 && k < |tail| ensures tail[j] == tail[k] {
        assert tail[j] == xs[j + 1] && tail[k] == xs[k + 1];
      }
      Steady(tail);
      assert xs[0] == xs[1] == tail[0];
    }
  }

  /**
   * A function of a state and a count of steps left that agrees on each
   * state, with one step more, and on the next, with one step less, agrees
   * on the first and the last.
   */
  lemma Telescope<S, R>(xs: seq<S>, f: (S, nat) -> R, left: nat)
    requires xs != []
    requires forall j, k :: 0 <= j && k == j + 1 && k < |xs| ==> f(xs[j], left + (|xs| - 1 - j)) == f(xs[k], left + (|xs| - 1 - k))
    ensures f(xs[0], left + (|xs| - 1)) == f(xs[|xs| - 1], left)
  {
    var ys := seq(|xs|, j requires 0 <= j < |xs| => f(xs[j], left + (|xs| - 1 - j)));
    assert forall j, k :: 0 <= j && k == j + 1 && k < |ys| ==> ys[j] == ys[k];
    Steady(ys);
  }

  /** A parcel's mutable fields at one moment. */
  datatype Look = Look(address: string, status: PackageStatus)

  /** `snap` records the current address and status of every parcel it covers. */
  ghost predicate Matches(snap: map<Package, Look>)
    reads snap.Keys
  {
    forall p :: p in snap ==> snap[p] == Look(p.address, p.status)
  }

  /**
   * What serving `hub` has done so far, between the snapshots `before` and
   * `after`: the parcels of `P0` are split between the manifest and
   * `shipped`; each shipped parcel was addressed to `hub`, is stamped
   * delivered by truck `truckId` at time `t`, and kept its address or got
   * `right`; every parcel not shipped is as it was.
   */
  ghost predicate Served(P0: seq<Package>, before: map<Package, Look>, after: map<Package, Look>, manifest: seq<Package>,
                         shipped: seq<Package>, hub: string, truckId: int, right: string, t: int)
  {
    after.Keys == before.Keys &&
    multiset(manifest) + multiset(shipped) == multiset(P0) &&
    (forall p :: p in shipped ==>
       p in before && before[p].address == hub && after[p].status == Delivered(truckId, t) &&
       (after[p].address == before[p].address || after[p].address == right)) &&
    (forall p :: p in before && p !in shipped ==> after[p] == before[p])
  }

  /** The place of the first parcel of `ps` that was addressed to `hub`, or `|ps|` if none was. */
  ghost function FirstAt(ps: seq<Package>, before: map<Package, Look>, hub: string): (r: nat)
    requires forall p :: p in ps ==> p in before
    ensures r <= |ps| && (r < |ps| ==> before[ps[r]].address == hub)
    ensures forall k :: 0 <= k < r ==> before[ps[k]].address != hub
  {
    if |ps| == 0 then 0
    else if before[ps[0]].address == hub then 0
    else 1 + FirstAt(ps[1..], before, hub)
  }

  /** Appending one element after two lists. */
  lemma AppendOne<T>(a: seq<T>, b: seq<T>, x: T)
    ensures (a + b) + [x] == a + (b + [x])
  {
  }

  /** A parcel still on the manifest is one of the parcels the manifest started with. */
  lemma OnManifest(P0: seq<Package>, manifest: seq<Package>, shipped: seq<Package>, p: Package)
    requires multiset(manifest) + multiset(shipped) == multiset(P0) && p in manifest
    ensures p in P0
  {
    assert multiset(manifest)[p] > 0;
    assert multiset(P0)[p] > 0;
  }

  /** Handing over one more parcel at `hub` keeps `Served`. */
  lemma ServedStep(P0: seq<Package>, before: map<Package, Look>, after: map<Package, Look>, manifest: seq<Package>,
                   shipped: seq<Package>, hub: string, truckId: int, right: string, t: int,
                   package: Package, manifest': seq<Package>, look: Look, t': int)
    requires Served(P0, before, after, manifest, shipped, hub, truckId, right, t)
    requires package in before && after[package].address == hub
    requires multiset(manifest') + multiset{package} == multiset(manifest)
    requires look.status == Delivered(truckId, t') && (look.address == after[package].address || look.address == right)
    requires shipped != [] ==> t' == t
    ensures Served(P0, before, after[package := look], manifest', shipped + [package], hub, truckId, right, t')
  {
    assert multiset(shipped + [package]) == multiset(shipped) + multiset{package};
  }

  /**
   * Where a hub visit starts: the manifest and the parcels' fields, the
   * parcels already delivered, the distance to the hub, and the odometer,
   * route time, time left and truck clock before it.
   */
  datatype Visit = Visit(P0: seq<Package>, before: map<Package, Look>, delivered: seq<Package>, distance: real,
                         miles: real, now: int, remaining: int, clock: int)

  /**
   * The running totals of a hub visit: before the first hand-over nothing
   * is charged; from then on the distance has been driven once, the route
   * time and the time left have moved by its seconds, and the truck clock
   * shows the new time.
   */
  ghost predicate Charged(any: bool, v: Visit, speed: real, miles: real, now: int, remaining: int, clock: int)
    requires speed != 0.0
  {
    0 <= now < DaySeconds &&
    if any then
      miles == v.miles + v.distance && now == ClockAfter(v.now, v.distance, speed) &&
      remaining == v.remaining - Elapsed(v.distance, speed) && clock == now
    else
      miles == v.miles && now == v.now && remaining == v.remaining && clock == v.clock
  }

  /** A hand-over charges the distance if it is the first at the hub and nothing otherwise. */
  lemma ChargedStep(any: bool, v: Visit, speed: real, miles: real, now: int, remaining: int, clock: int, travel: real)
    requires speed != 0.0 && Charged(any, v, speed, miles, now, remaining, clock)
    requires travel == if any then 0.0 else v.distance
    ensures Charged(true, v, speed, miles + travel, ClockAfter(now, travel, speed), remaining - Elapsed(travel, speed),
                    ClockAfter(now, travel, speed))
  {
  }

  /** No parcel is listed twice. */
  ghost predicate Distinct(ps: seq<Package>) {
    forall p :: p in ps ==> multiset(ps)[p] <= 1
  }

  /** The addresses `snap` records for the parcels of `ps`, in order. */
  ghost function Addrs(ps: seq<Package>, snap: map<Package, Look>): (r: seq<string>)
    requires forall p :: p in ps ==> p in snap
    ensures |r| == |ps| && forall i :: 0 <= i < |ps| ==> r[i] == snap[ps[i]].address
  {
    seq(|ps|, i requires 0 <= i < |ps| => snap[ps[i]].address)
  }

  /** The addresses of two lists one after the other are the addresses of each. */
  lemma AddrsAppend(a: seq<Package>, b: seq<Package>, snap: map<Package, Look>)
    requires forall p :: p in a + b ==> p in snap
    ensures Addrs(a + b, snap) == Addrs(a, snap) + Addrs(b, snap)
  {
    assert forall p :: p in a ==> p in a + b;
    assert forall p :: p in b ==> p in a + b;
  }

  /** Taking the element at `k` out of a list takes one of it out of the list's multiset. */
  lemma RemoveAt<T>(s: seq<T>, k: nat)
    requires k < |s|
    ensures multiset(s) == multiset(s[..k] + s[k + 1..]) + multiset{s[k]}
  {
    assert s == s[..k] + [s[k]] + s[k + 1..];
  }

  /** Taking a parcel out of a list takes its address out of the list's addresses. */
  lemma AddrsRemoveAt(s: seq<Package>, k: nat, snap: map<Package, Look>)
    requires k < |s| && forall p :: p in s ==> p in snap
    ensures forall p :: p in s[..k] + s[k + 1..] ==> p in snap
    ensures multiset(Addrs(s, snap)) == multiset(Addrs(s[..k] + s[k + 1..], snap)) + multiset{snap[s[k]].address}
  {
    var r := s[..k] + s[k + 1..];
    forall p | p in r ensures p in snap {
      var i :| 0 <= i < |r| && r[i] == p;
      assert r[i] == if i < k then s[i] else s[i + 1];
    }
    var t := Addrs(s, snap);
    assert Addrs(r, snap) == t[..k] + t[k + 1..];
    RemoveAt(t, k);
  }

  /** One more of the same element on both sides cancels out. */
  lemma Cancel<T>(m1: multiset<T>, m2: multiset<T>, x: T)
    requires m1 + multiset{x} == m2 + multiset{x}
    ensures m1 == m2
  {
    assert forall y :: m1[y] == m2[y] by {
      forall y ensures m1[y] == m2[y] {
        assert (m1 + multiset{x})[y] == (m2 + multiset{x})[y];
      }
    }
  }

  /** Lists of the same parcels, in any order, have the same addresses, in some order. */
  lemma {:induction false} AddrsPermutation(a: seq<Package>, b: seq<Package>, snap: map<Package, Look>)
    requires multiset(a) == multiset(b)
    requires (forall p :: p in a ==> p in snap) && forall p :: p in b ==> p in snap
    ensures multiset(Addrs(a, snap)) == multiset(Addrs(b, snap))
    decreases |a|
  {
    if |a| > 0 {
      var n := |a| - 1;
      assert a[n] in multiset(b);
      var k := FirstIndex(b, a[n]);
      RemoveAt(a, n);
      RemoveAt(b, k);
      Cancel(multiset(a[..n] + a[n + 1..]), multiset(b[..k] + b[k + 1..]), a[n]);
      AddrsRemoveAt(a, n, snap);
      AddrsRemoveAt(b, k, snap);
      AddrsPermutation(a[..n] + a[n + 1..], b[..k] + b[k + 1..], snap);
    } else {
      assert |multiset(b)| == 0;
    }
  }

  /**
   * What a route has done so far between the snapshots `start` and `now`:
   * the parcels of `P0` are split between the manifest and `shipped`; each
   * shipped parcel is stamped delivered by truck `truckId` and kept its
   * address or got `right`; every parcel not shipped is as it was.
   */
  ghost predicate Handed(P0: seq<Package>, start: map<Package, Look>, now: map<Package, Look>, manifest: seq<Package>,
                         shipped: seq<Package>, truckId: int, right: string)
  {
    now.Keys == start.Keys &&
    multiset(manifest) + multiset(shipped) == multiset(P0) &&
    (forall p :: p in shipped ==>
       p in start && now[p].status.Delivered? && now[p].status.truck == truckId &&
       (now[p].address == start[p].address || now[p].address == right)) &&
    (forall p :: p in start && p !in shipped ==> now[p] == start[p])
  }

  /**
   * The queue still leads to every parcel on the manifest: when the route
   * started with no parcel listed twice, each address on the manifest is
   * owed at least one place in the queue or the retry list for every
   * parcel that still has it.
   */
  ghost predicate Covered(P0: seq<Package>, start: map<Package, Look>, manifest: seq<Package>,
                          queue: seq<string>, retry: seq<string>)
  {
    (forall p :: p in manifest ==> p in start) &&
    (Distinct(P0) ==> multiset(Addrs(manifest, start)) <= multiset(queue) + multiset(retry))
  }

  /** The state the route loop keeps: what was handed over, and a queue that still covers the manifest. */
  ghost predicate OnRoute(P0: seq<Package>, start: map<Package, Look>, now: map<Package, Look>, manifest: seq<Package>,
                          shipped: seq<Package>, queue: seq<string>, retry: seq<string>, truckId: int, right: string)
  {
    Handed(P0, start, now, manifest, shipped, truckId, right) && Covered(P0, start, manifest, queue, retry) &&
    (queue == [] ==> retry == [])
  }

  /** A route of distinct parcels whose queue ran out has nothing left on the manifest. */
  lemma CoveredDone(P0: seq<Package>, start: map<Package, Look>, manifest: seq<Package>, retry: seq<string>)
    requires Covered(P0, start, manifest, [], retry) && retry == [] && Distinct(P0)
    ensures manifest == []
  {
    assert multiset(Addrs(manifest, start)) <= multiset{};
    assert |multiset(Addrs(manifest, start))| == 0;
  }

  /** What a route has handed over and what is left on the manifest together make up the parcels it started with. */
  lemma HandedSplit(P0: seq<Package>, start: map<Package, Look>, now: map<Package, Look>, manifest: seq<Package>,
                    shipped: seq<Package>, truckId: int, right: string)
    requires Handed(P0, start, now, manifest, shipped, truckId, right)
    ensures |manifest| + |shipped| == |P0|
    ensures forall p :: p in manifest ==> p in P0
  {
    assert |multiset(manifest) + multiset(shipped)| == |multiset(P0)|;
    forall p | p in manifest ensures p in P0 {
      assert multiset(P0)[p] >= multiset(manifest)[p] > 0;
    }
  }

  /** A route starts with nothing handed over and a queue of the manifest's addresses, which covers it. */
  lemma RouteStart(P0: seq<Package>, start: map<Package, Look>, manifest: seq<Package>, queue: seq<string>,
                   truckId: int, right: string)
    requires multiset(manifest) == multiset(P0) && forall p :: p in manifest ==> p in start
    requires queue == Addrs(manifest, start)
    ensures OnRoute(P0, start, start, manifest, [], queue, [], truckId, right)
  {
  }

  /** Serving one hub extends what the route has handed over. */
  lemma HandedStep(P0: seq<Package>, start: map<Package, Look>, S1: map<Package, Look>, M1: seq<Package>,
                   sh1: seq<Package>, S2: map<Package, Look>, M2: seq<Package>, sh2: seq<Package>,
                   hub: string, truckId: int, right: string, t: int)
    requires Handed(P0, start, S1, M1, sh1, truckId, right)
    requires Served(M1, S1, S2, M2, sh2, hub, truckId, right, t)
    ensures Handed(P0, start, S2, M2, sh1 + sh2, truckId, right)
  {
    assert multiset(sh1 + sh2) == multiset(sh1) + multiset(sh2);
  }

  /**
   * The counting behind `CoveredStep`: taking `hub` out of the queue keeps
   * the manifest's addresses covered when a parcel for `hub` left the
   * manifest, when none of its parcels was for `hub`, or when `hub` is
   * put back on the retry list.
   */
  lemma CoverShrinks(A1: multiset<string>, A2: multiset<string>, B: multiset<string>, queue: seq<string>,
                     retry: seq<string>, rest: seq<string>, hub: string, passes: bool)
    requires A2 + B == A1 && A1 <= multiset(queue) + multiset(retry)
    requires multiset(rest) + multiset{hub} == multiset(queue)
    requires passes ==> B[hub] > 0 || A1[hub] == 0
    ensures A2 <= multiset(rest) + multiset(if passes then retry else retry + [hub])
  {
    var retry' := if passes then retry else retry + [hub];
    assert multiset(retry') == if passes then multiset(retry) else multiset(retry) + multiset{hub};
    forall x ensures A2[x] <= multiset(rest)[x] + multiset(retry')[x] {
      assert A2[x] + B[x] == A1[x];
      assert A1[x] <= multiset(queue)[x] + multiset(retry)[x];
      assert multiset(rest)[x] + multiset{hub}[x] == multiset(queue)[x];
    }
  }

  /**
   * The addresses of the manifest `M1`, split into the parcels `M2` that
   * stay and the parcels `shipped` that were all for `hub`, stay covered
   * once `hub` leaves the queue.
   */
  lemma CoverAfterHub(start: map<Package, Look>, M1: seq<Package>, M2: seq<Package>, shipped: seq<Package>,
                      hub: string, queue: seq<string>, retry: seq<string>, rest: seq<string>, passes: bool)
    requires multiset(M2) + multiset(shipped) == multiset(M1) && forall p :: p in M1 ==> p in start
    requires forall p :: p in shipped ==> p in start && start[p].address == hub
    requires passes && shipped == [] ==> forall p :: p in M1 ==> start[p].address != hub
    requires forall p :: p in M2 ==> p in start
    requires multiset(Addrs(M1, start)) <= multiset(queue) + multiset(retry)
    requires multiset(rest) + multiset{hub} == multiset(queue)
    ensures multiset(Addrs(M2, start)) <= multiset(rest) + multiset(if passes then retry else retry + [hub])
  {
    AddrsAppend(M2, shipped, start);
    AddrsPermutation(M2 + shipped, M1, start);
    var B := multiset(Addrs(shipped, start));
    if shipped != [] {
      assert Addrs(shipped, start)[0] == hub;
    } else if passes {
      assert hub !in Addrs(M1, start);
    }
    CoverShrinks(multiset(Addrs(M1, start)), multiset(Addrs(M2, start)), B, queue, retry, rest, hub, passes);
  }

  /**
   * Serving the hub taken from the queue keeps the queue covering the
   * manifest: a hub that handed something over used up one parcel of its
   * own, one that had nothing for the truck is owed nothing, and one that
   * refused a parcel goes to the retry list.
   */
  lemma CoveredStep(P0: seq<Package>, start: map<Package, Look>, S1: map<Package, Look>, M1: seq<Package>,
                    sh1: seq<Package>, S2: map<Package, Look>, M2: seq<Package>, sh2: seq<Package>,
                    hub: string, truckId: int, right: string, t: int,
                    queue: seq<string>, retry: seq<string>, rest: seq<string>, passes: bool)
    requires Handed(P0, start, S1, M1, sh1, truckId, right) && Covered(P0, start, M1, queue, retry)
    requires Served(M1, S1, S2, M2, sh2, hub, truckId, right, t)
    requires multiset(rest) + multiset{hub} == multiset(queue)
    requires passes && sh2 == [] ==> forall p :: p in M1 ==> S1[p].address != hub
    ensures Covered(P0, start, M2, rest, if passes then retry else retry + [hub])
  {
    forall p | p in M2 ensures p in start {
      OnManifest(M1, M2, sh2, p);
    }
    if Distinct(P0) {
      forall p | p in M1 ensures S1[p] == start[p] {
        assert multiset(M1)[p] > 0 && multiset(P0)[p] <= 1;
      }
      forall p | p in sh2 ensures p in start && start[p].address == hub {
        assert multiset(sh2)[p] > 0 && multiset(M1)[p] > 0;
        assert S1[p].address == hub;
      }
      CoverAfterHub(start, M1, M2, sh2, hub, queue, retry, rest, passes);
    }
  }

  /**
   * One hub of the route served: the route has handed over what the hub
   * took, and the queue left once the hub is taken out of it (with the hub
   * re-queued when a parcel was refused, and the retry list taken back
   * when the queue ran out) still covers the manifest.
   */
  lemma HubVisited(P0: seq<Package>, start: map<Package, Look>, S1: map<Package, Look>, M1: seq<Package>,
                   sh1: seq<Package>, S2: map<Package, Look>, M2: seq<Package>, sh2: seq<Package>,
                   truckId: int, right: string, t: int, queue: seq<string>, retry: seq<string>, index: nat,
                   passes: bool, queue': seq<string>, retry': seq<string>)
    requires Handed(P0, start, S1, M1, sh1, truckId, right) && Covered(P0, start, M1, queue, retry)
    requires index < |queue| && Served(M1, S1, S2, M2, sh2, queue[index], truckId, right, t)
    requires passes && sh2 == [] ==> forall p :: p in M1 ==> S1[p].address != queue[index]
    requires var r := if passes then retry else retry + [queue[index]];
      var rest := Without(queue, index);
      (queue', retry') == if r != [] && rest == [] then (rest + r, []) else (rest, r)
    ensures Handed(P0, start, S2, M2, sh1 + sh2, truckId, right)
    ensures Covered(P0, start, M2, queue', retry') && (queue' == [] ==> retry' == [])
  {
    var hub := queue[index];
    var rest := Without(queue, index);
    var r := if passes then retry else retry + [hub];
    HandedStep(P0, start, S1, M1, sh1, S2, M2, sh2, hub, truckId, right, t);
    WithoutKeeps(queue, index);
    CoveredStep(P0, start, S1, M1, sh1, S2, M2, sh2, hub, truckId, right, t, queue, retry, rest, passes);
    if r != [] && rest == [] {
      assert multiset(rest + r) == multiset(rest) + multiset(r);
    }
  }

  /** `calculate_remaining_time`: the seconds from `begin` to `end` on the same day, negative when `end` comes first. */
  function RemainingTime(begin: int, end: int): (r: int)
    ensures begin + r == end
  {
    end - begin
  }

  /** The hub addresses of a manifest, in order (`hubs_to_deliver`). */
  function AddressesOf(ps: seq<Package>): (r: seq<string>)
    reads set p | p in ps
    ensures |r| == |ps| && forall i :: 0 <= i < |ps| ==> r[i] == ps[i].address
  {
    if |ps| == 0 then [] else AddressesOf(ps[..|ps| - 1]) + [ps[|ps| - 1].address]
  }

  /** The loop that moves the retry list to the end of the queue, one `pop(0)` at a time. */
  method DrainRetries(queue: seq<string>, retry: seq<string>) returns (queue': seq<string>, retry': seq<string>)
    ensures queue' == queue + retry && retry' == []
  {
    queue', retry' := queue, retry;
    while retry' != []
      invariant queue' + retry' == queue + retry
      decreases |retry'|
    {
      assert queue' + retry' == (queue' + [retry'[0]]) + retry'[1..];
      queue' := queue' + [retry'[0]];
      retry' := retry'[1..];
    }
  }

  /** The parcel ids `load_truck_with_packages` loads on truck `truckId`: its manifest for trucks 1 to 3, none otherwise. */
  function ManifestOf(config: Config, truckId: int): seq<int> {
    if truckId == 1 then config.truckOne
    else if truckId == 2 then config.truckTwo
    else if truckId == 3 then config.truckThree
    else []
  }

  /** How many ids at the front of `ids` the index holds: loading stops at the first one it lacks. */
  function Present(ids: seq<int>, index: map<int, Package>): (k: nat)
    ensures k <= |ids| && (k < |ids| ==> ids[k] !in index)
    ensures forall j :: 0 <= j < k ==> ids[j] in index
  {
    if |ids| == 0 || ids[0] !in index then 0 else 1 + Present(ids[1..], index)
  }

  /** The parcels the index holds under `ids`, in order. */
  function Parcels(ids: seq<int>, index: map<int, Package>): (r: seq<Package>)
    requires forall j :: 0 <= j < |ids| ==> ids[j] in index
    ensures |r| == |ids| && forall j :: 0 <= j < |ids| ==> r[j] == index[ids[j]]
  {
    if |ids| == 0 then [] else Parcels(ids[..|ids| - 1], index) + [index[ids[|ids| - 1]]]
  }

  /** The parcels a truck with `capacity` free places takes from `ps`, loaded one by one: as many as fit. */
  function Fits(ps: seq<Package>, capacity: int): (r: seq<Package>)
    ensures |r| == if capacity <= 0 then 0 else if |ps| < capacity then |ps| else capacity
    ensures r == ps[..|r|]
  {
    if capacity <= 0 then [] else if |ps| < capacity then ps else ps[..capacity]
  }

  /** Offering one more parcel: it is taken exactly when the ones before it left a place free. */
  lemma FitsStep(ps: seq<Package>, p: Package, capacity: int)
    ensures Fits(ps + [p], capacity) == Fits(ps, capacity) + (if |ps| < capacity then [p] else [])
  {
    assert (ps + [p])[..|ps|] == ps;
  }

  /** Whatever a truck takes of the parcels listed under some ids comes from the index. */
  lemma IndexedParcels(ids: seq<int>, index: map<int, Package>, capacity: int)
    requires forall j :: 0 <= j < |ids| ==> ids[j] in index
    ensures forall p :: p in Fits(Parcels(ids, index), capacity) ==> p in index.Values
  {
    var ps := Parcels(ids, index);
    forall p | p in Fits(ps, capacity) ensures p in index.Values {
      var j :| 0 <= j < |Fits(ps, capacity)| && Fits(ps, capacity)[j] == p;
      assert p == ps[j] == index[ids[j]];
    }
  }

  /** The first truck of the fleet with the id `truckId`, as the search loop finds it. */
  function FirstWithId(fleet: seq<Truck>, truckId: int): (r: Option<Truck>)
    ensures r.Some? ==> r.value in fleet && r.value.id == truckId
    ensures r.None? <==> forall t :: t in fleet ==> t.id != truckId
  {
    if |fleet| == 0 then None
    else if fleet[0].id == truckId then Some(fleet[0])
    else FirstWithId(fleet[1..], truckId)
  }

  /** In a fleet numbered upwards from `base`, the truck with an id is the one at that place. */
  lemma {:induction false} FirstWithIdNumbered(fleet: seq<Truck>, id: int, base: int)
    requires forall i :: 0 <= i < |fleet| ==> fleet[i].id == i + base
    ensures FirstWithId(fleet, id) == if base <= id < base + |fleet| then Some(fleet[id - base]) else None
  {
    if |fleet| > 0 && fleet[0].id != id {
      FirstWithIdNumbered(fleet[1..], id, base + 1);
    }
  }

  /** The index `_parse_packages` builds: each parcel added under its id, a later parcel replacing an earlier one with the same id. */
  function IndexOf(parcels: seq<Package>): (r: map<int, Package>)
    ensures r.Keys == set p | p in parcels :: p.id
    ensures forall id :: id in r ==> r[id].id == id && r[id] in parcels
  {
    if |parcels| == 0 then map[]
    else
      var init, last := parcels[..|parcels| - 1], parcels[|parcels| - 1];
      assert parcels == init + [last];
      IndexOf(init)[last.id := last]
  }

  /** A parcel indexed under an id is the last parcel of the list with that id. */
  lemma {:induction false} IndexOfLatest(parcels: seq<Package>, i: nat)
    requires i < |parcels|
    ensures parcels[i].id in IndexOf(parcels)
    ensures (forall j :: i < j < |parcels| ==> parcels[j].id != parcels[i].id) ==> IndexOf(parcels)[parcels[i].id] == parcels[i]
    decreases |parcels|
  {
    var n := |parcels| - 1;
    if i < n {
      assert parcels[..n][i] == parcels[i];
      IndexOfLatest(parcels[..n], i);
    }
  }

  /** One counting loop of the co-delivery rules: how many of `ids` are `a` or `b`. */
  method CountPartnerIds(ids: seq<int>, a: int, b: int) returns (count: nat)
    ensures count == CountPartners(ids, a, b)
  {
    count := 0;
    for i := 0 to |ids|
      invariant count == CountPartners(ids[..i], a, b)
    {
      assert ids[..i + 1][..i] == ids[..i];
      if ids[i] == a || ids[i] == b {
        count := count + 1;
      }
    }
    assert ids[..|ids|] == ids;
  }

  /** The sort key of `begin_delivery`: a parcel's delivery deadline. */
  function Deadline(p: Package): int {
    p.deadline
  }

  /**
   * The manifest walk at one hub so far: the manifest, the parcels'
   * fields, the parcels handed over at the hub, and whether every parcel
   * for the hub has passed its rules.
   */
  datatype Walk = Walk(manifest: seq<Package>, looks: map<Package, Look>, shipped: seq<Package>, passes: bool)

  /**
   * What the walk at one hub depends on: the hub, the truck, the travel
   * seconds the rules are given, the truck's clock before the drive, the
   * time of day on arrival, and the parcels delivered before the hub.
   */
  datatype Stop = Stop(hub: string, truckId: int, eta: int, clock: int, arrival: int, delivered: seq<Package>)

  /**
   * The state of the route loop between passes: where the truck is, the
   * hub queue and the retry list, the route's time of day and the seconds
   * left, the parcels delivered, and the truck's manifest, the parcels'
   * fields, the odometer and the truck's clock.
   */
  datatype Leg = Leg(current: string, queue: seq<string>, retry: seq<string>, now: int, remaining: int,
                     delivered: seq<Package>, manifest: seq<Package>, looks: map<Package, Look>, miles: real, clock: int)

  class Dispatcher {
    /** The hub-to-hub distances of the graph. */
    const table: Table
    /** `next(iter(graph.adjacency_list))`: where every route starts. */
    const depot: string
    /** The constants the dispatcher imports. */
    const config: Config
    /** The note texts of the business rules. */
    const rules: RuleTexts
    /** `business_rules`: each indexed parcel's note, by parcel id. */
    const notes: map<int, string>
    /** `indexed_packages`: the parcels by id. */
    var index: map<int, Package>
    /** The fleet. */
    var trucks: seq<Truck>

    /** The note `business_rules.get(id)` finds; a parcel without one reads as no note. */
    function NoteOf(id: int): string {
      if id in notes then notes[id] else ""
    }

    /**
     * One turn of the manifest walk at `st.hub`, on the parcel `p`: a
     * parcel for the hub is put to its rule, with the truck's clock at
     * arrival once something was handed over here. One that may go is
     * taken off the manifest at its first place, gets the right address if
     * its note said the address was wrong, and is stamped delivered at the
     * arrival time; one that may not clears `passes`. Any other parcel is
     * passed over.
     */
    ghost function Turn(st: Stop, w: Walk, p: Package): (r: Walk)
      ensures |w.manifest| - 1 <= |r.manifest| <= |w.manifest|
      ensures r.looks.Keys == w.looks.Keys
    {
      if p in w.manifest && p in w.looks && w.looks[p].address == st.hub then
        var rule := Classify(NoteOf(p.id), rules);
        var clock := if w.shipped == [] then st.clock else st.arrival;
        var v := Decide(rule, st.truckId, clock, Ids(w.manifest), Ids(st.delivered + w.shipped), st.eta,
                        config.delayedStart, config.newAddressTime);
        if v == Yes then
          var k := FirstIndex(w.manifest, p);
          var address := if rule == WrongAddress then config.rightAddress else w.looks[p].address;
          Walk(Without(w.manifest, k), w.looks[p := Look(address, Delivered(st.truckId, st.arrival))], w.shipped + [p], w.passes)
        else
          w.(passes := false)
      else
        w
    }

    /** A turn of the walk only moves a parcel from the manifest to the handed-over list. */
    lemma TurnKeeps(st: Stop, w: Walk, p: Package)
      ensures var r := Turn(st, w, p);
        multiset(r.manifest) + multiset(r.shipped) == multiset(w.manifest) + multiset(w.shipped)
    {
      TurnCases(st, w, p);
      if p in w.manifest && p in w.looks && w.looks[p].address == st.hub && TurnVerdict(st, w, p) == Yes {
        WithoutKeeps(w.manifest, FirstIndex(w.manifest, p));
        assert multiset(w.shipped + [p]) == multiset(w.shipped) + multiset{p};
      }
    }

    /** The verdict the rules give `p` in a turn of the walk `w` at `st.hub`. */
    ghost function TurnVerdict(st: Stop, w: Walk, p: Package): Verdict {
      Decide(Classify(NoteOf(p.id), rules), st.truckId, if w.shipped == [] then st.clock else st.arrival,
             Ids(w.manifest), Ids(st.delivered + w.shipped), st.eta, config.delayedStart, config.newAddressTime)
    }

    /** The three outcomes of a turn: passed over, refused, or handed over. */
    lemma TurnCases(st: Stop, w: Walk, p: Package)
      ensures !(p in w.manifest && p in w.looks && w.looks[p].address == st.hub) ==> Turn(st, w, p) == w
      ensures p in w.manifest && p in w.looks && w.looks[p].address == st.hub && TurnVerdict(st, w, p) != Yes ==>
        Turn(st, w, p) == w.(passes := false)
      ensures p in w.manifest && p in w.looks && w.looks[p].address == st.hub && TurnVerdict(st, w, p) == Yes ==>
        Turn(st, w, p) == Walk(Without(w.manifest, FirstIndex(w.manifest, p)),
          w.looks[p := Look(if Classify(NoteOf(p.id), rules) == WrongAddress then config.rightAddress else w.looks[p].address,
                            Delivered(st.truckId, st.arrival))], w.shipped + [p], w.passes)
    {
    }

    /** A turn of the walk keeps `Served`, with handed-over parcels stamped at the arrival time. */
    lemma TurnServed(st: Stop, w: Walk, p: Package, P0: seq<Package>, before: map<Package, Look>)
      requires Served(P0, before, w.looks, w.manifest, w.shipped, st.hub, st.truckId, config.rightAddress, st.arrival)
      requires forall q :: q in P0 ==> q in before
      ensures var r := Turn(st, w, p);
        Served(P0, before, r.looks, r.manifest, r.shipped, st.hub, st.truckId, config.rightAddress, st.arrival)
    {
      TurnCases(st, w, p);
      if p in w.manifest && p in w.looks && w.looks[p].address == st.hub && TurnVerdict(st, w, p) == Yes {
        OnManifest(P0, w.manifest, w.shipped, p);
        WithoutKeeps(w.manifest, FirstIndex(w.manifest, p));
        var r := Turn(st, w, p);
        ServedStep(P0, before, w.looks, w.manifest, w.shipped, st.hub, st.truckId, config.rightAddress, st.arrival,
                   p, r.manifest, r.looks[p], st.arrival);
      }
    }

    /** Read `k` of the walk at `st.hub`: the parcel at place `k` was read and made one turn. */
    ghost predicate Read(st: Stop, trace: seq<Walk>, k: nat)
      requires k < |trace| - 1
    {
      k < |trace[k].manifest| && trace[k + 1] == Turn(st, trace[k], trace[k].manifest[k])
    }

    /** `trace` holds the states of the walk at `st.hub`, one after each read so far. */
    ghost predicate Trace(st: Stop, trace: seq<Walk>) {
      forall k :: 0 <= k < |trace| - 1 ==> Read(st, trace, k)
    }

    /** Reading the parcel at the next place extends a trace by one turn. */
    lemma TraceExtend(st: Stop, trace: seq<Walk>, next: Walk)
      requires Trace(st, trace) && trace != []
      requires |trace| - 1 < |trace[|trace| - 1].manifest|
      requires next == Turn(st, trace[|trace| - 1], trace[|trace| - 1].manifest[|trace| - 1])
      ensures Trace(st, trace + [next])
    {
      var t := trace + [next];
      forall k | 0 <= k < |t| - 1
        ensures Read(st, t, k)
      {
        if k < |trace| - 1 {
          assert Read(st, trace, k);
        }
      }
    }

    /**
     * The turn of the parcel at the next place, told by its outcome: a parcel
     * for another hub changes nothing, a refused one clears `passes`, and one
     * the rules let through leaves the manifest, takes its final address and
     * is stamped delivered at the arrival time.
     */
    lemma TraceTurn(st: Stop, trace: seq<Walk>, v: Verdict, next: Walk)
      requires Trace(st, trace) && trace != []
      requires var w := trace[|trace| - 1]; |trace| - 1 < |w.manifest| && w.manifest[|trace| - 1] in w.looks
      requires var w := trace[|trace| - 1]; var p := w.manifest[|trace| - 1];
        (w.looks[p].address != st.hub ==> next == w) &&
        (w.looks[p].address == st.hub ==> v == TurnVerdict(st, w, p)) &&
        (w.looks[p].address == st.hub && v != Yes ==> next == w.(passes := false)) &&
        (w.looks[p].address == st.hub && v == Yes ==>
          next == Walk(Without(w.manifest, FirstIndex(w.manifest, p)),
                       w.looks[p := Look(if Classify(NoteOf(p.id), rules) == WrongAddress then config.rightAddress
                                         else w.looks[p].address, Delivered(st.truckId, st.arrival))],
                       w.shipped + [p], w.passes))
      ensures Trace(st, trace + [next])
    {
      var w := trace[|trace| - 1];
      TurnCases(st, w, w.manifest[|trace| - 1]);
      TraceExtend(st, trace, next);
    }

    /** One read of a trace is one step of the walk. */
    lemma ReadReplay(st: Stop, trace: seq<Walk>, k: nat)
      requires Trace(st, trace) && k < |trace| - 1
      ensures Replay(st, trace[k], k) == Replay(st, trace[k + 1], k + 1)
    {
      assert Read(st, trace, k);
    }

    /** A trace whose last state has read past its manifest is the whole walk from its first state. */
    lemma {:induction false} TraceReplay(st: Stop, trace: seq<Walk>, k: nat)
      requires Trace(st, trace) && k < |trace|
      requires |trace| - 1 >= |trace[|trace| - 1].manifest|
      ensures Replay(st, trace[k], k) == trace[|trace| - 1]
      decreases |trace| - k
    {
      if k < |trace| - 1 {
        ReadReplay(st, trace, k);
        TraceReplay(st, trace, k + 1);
      }
    }

    /**
     * Where the walk at `st.hub` stands after `i` reads: `Served` holds with
     * the arrival time, and while nothing was handed over the manifest is
     * untouched and, if every parcel passed, none read so far was for the hub.
     */
    ghost predicate Progress(st: Stop, P0: seq<Package>, before: map<Package, Look>, w: Walk, i: nat) {
      (forall q :: q in P0 ==> q in before) &&
      Served(P0, before, w.looks, w.manifest, w.shipped, st.hub, st.truckId, config.rightAddress, st.arrival) &&
      (w.shipped == [] ==> w.manifest == P0 && i <= |P0|) &&
      (w.shipped == [] && w.passes ==> i <= FirstAt(P0, before, st.hub))
    }

    /** One read of the walk keeps `Progress`. */
    lemma ProgressStep(st: Stop, P0: seq<Package>, before: map<Package, Look>, w: Walk, i: nat)
      requires Progress(st, P0, before, w, i) && i < |w.manifest|
      ensures Progress(st, P0, before, Turn(st, w, w.manifest[i]), i + 1)
    {
      var p := w.manifest[i];
      OnManifest(P0, w.manifest, w.shipped, p);
      TurnCases(st, w, p);
      TurnServed(st, w, p, P0, before);
      if w.shipped == [] && w.passes && i == FirstAt(P0, before, st.hub) {
        assert w.looks[p] == before[p];
      }
    }

    /**
     * The whole walk at `st.hub` keeps `Served`, with every handed-over
     * parcel stamped at the arrival time; a walk that handed nothing over
     * and cleared nothing met no parcel for the hub.
     */
    lemma {:induction false} ReplayProgress(st: Stop, P0: seq<Package>, before: map<Package, Look>, w: Walk, i: nat)
      requires Progress(st, P0, before, w, i)
      ensures var r := Replay(st, w, i);
        Served(P0, before, r.looks, r.manifest, r.shipped, st.hub, st.truckId, config.rightAddress, st.arrival) &&
        (r.shipped == [] && r.passes ==> FirstAt(P0, before, st.hub) == |P0|)
      decreases |w.manifest| + 1 - i
    {
      if i < |w.manifest| {
        var w' := Turn(st, w, w.manifest[i]);
        ProgressStep(st, P0, before, w, i);
        ReplayProgress(st, P0, before, w', i + 1);
        assert Replay(st, w, i) == Replay(st, w', i + 1);
      }
    }

    /**
     * A finished trace from the untouched manifest `P0` is the whole walk:
     * it keeps `Served`, and a walk that handed nothing over and cleared
     * nothing met no parcel for the hub.
     */
    lemma TraceDone(st: Stop, trace: seq<Walk>, P0: seq<Package>, before: map<Package, Look>)
      requires Trace(st, trace) && trace != [] && |trace| - 1 >= |trace[|trace| - 1].manifest|
      requires trace[0] == Walk(P0, before, [], true) && forall q :: q in P0 ==> q in before
      ensures var r := trace[|trace| - 1];
        r == Replay(st, trace[0], 0) &&
        Served(P0, before, r.looks, r.manifest, r.shipped, st.hub, st.truckId, config.rightAddress, st.arrival) &&
        (r.shipped == [] && r.passes ==> forall p :: p in P0 ==> before[p].address != st.hub)
    {
      TraceReplay(st, trace, 0);
      ReplayProgress(st, P0, before, trace[0], 0);
      var r := trace[|trace| - 1];
      if r.shipped == [] && r.passes {
        forall p | p in P0
          ensures before[p].address != st.hub
        {
          var k :| 0 <= k < |P0| && P0[k] == p;
        }
      }
    }

    /**
     * The walk `for package in truck.packages` from place `i` on. Python's
     * list iterator reads the place after the one it read last, so the
     * parcel that moves into a handed-over parcel's place is not read.
     */
    ghost function Replay(st: Stop, w: Walk, i: nat): (r: Walk)
      ensures r.looks.Keys == w.looks.Keys
      decreases |w.manifest| + 1 - i, 1
    {
      if i >= |w.manifest| then w else ReplayOn(st, w, i)
    }

    /** The walk at `st.hub` going on from place `i` once the parcel there has made its turn. */
    ghost function ReplayOn(st: Stop, w: Walk, i: nat): (r: Walk)
      requires i < |w.manifest|
      ensures r.looks.Keys == w.looks.Keys
      decreases |w.manifest| + 1 - i, 0
    {
      Replay(st, Turn(st, w, w.manifest[i]), i + 1)
    }

    /** The walk only moves parcels from the manifest to the handed-over list. */
    lemma {:induction false} ReplayKeeps(st: Stop, w: Walk, i: nat)
      ensures var r := Replay(st, w, i);
        multiset(r.manifest) + multiset(r.shipped) == multiset(w.manifest) + multiset(w.shipped)
      decreases |w.manifest| + 1 - i
    {
      if i < |w.manifest| {
        TurnKeeps(st, w, w.manifest[i]);
        ReplayKeeps(st, Turn(st, w, w.manifest[i]), i + 1);
      }
    }

    /**
     * Two parcels for the hub one after the other, neither with a note:
     * the first is handed over, and the iterator then passes over the
     * second, which stays on the manifest.
     */
    lemma ReplaySkips(st: Stop, p: Package, q: Package, looks: map<Package, Look>)
      requires p != q && p in looks && q in looks && looks[p].address == st.hub && looks[q].address == st.hub
      requires NoteOf(p.id) == ""
      ensures Replay(st, Walk([p, q], looks, [], true), 0) ==
        Walk([q], looks[p := Look(st.hub, Delivered(st.truckId, st.arrival))], [p], true)
    {
      var w := Walk([p, q], looks, [], true);
      assert Without([p, q], 0) == [q];
      var w' := Turn(st, w, p);
      assert w' == Walk([q], looks[p := Look(st.hub, Delivered(st.truckId, st.arrival))], [p], true);
      assert Replay(st, w, 0) == ReplayOn(st, w, 0) == Replay(st, w', 1);
    }

    /** The walk at the hub `p.hub` for the route leg `s`, by truck `truckId` at `speed`. */
    ghost function HubWalk(s: Leg, p: Pick, truckId: int, speed: real): (w: Walk)
      requires speed != 0.0
    {
      Replay(Stop(p.hub, truckId, Trunc(p.distance / speed), s.clock, ClockAfter(s.now, p.distance, speed), s.delivered),
             Walk(s.manifest, s.looks, [], true), 0)
    }

    /**
     * A pass of the route loop that reaches the hub `p`: the walk there;
     * the first hand-over pays the drive. The truck is then at the hub if
     * every parcel for it passed, and otherwise the hub goes to the retry
     * list. A queue left empty takes the retry list back, in order.
     */
    ghost function Visited(s: Leg, p: Pick, truckId: int, speed: real): (r: Leg)
      requires speed != 0.0
    {
      var w := HubWalk(s, p, truckId, speed);
      var moved := w.shipped != [];
      var arrival := ClockAfter(s.now, p.distance, speed);
      var retry := if w.passes then s.retry else s.retry + [p.hub];
      var drain := retry != [] && p.rest == [];
      Leg(if w.passes then p.hub else s.current,
          if drain then p.rest + retry else p.rest,
          if drain then [] else retry,
          if moved then arrival else s.now,
          if moved then s.remaining - Elapsed(p.distance, speed) else s.remaining,
          s.delivered + w.shipped, w.manifest, w.looks,
          if moved then s.miles + p.distance else s.miles,
          if moved then arrival else s.clock)
    }

    /** A pass that took the walk at `p.hub` to `w` and then moved as `Visited` says ends in `Visited`'s leg. */
    lemma VisitedIs(s: Leg, p: Pick, truckId: int, speed: real, w: Walk, r: Leg)
      requires speed != 0.0 && w == HubWalk(s, p, truckId, speed)
      requires r.current == (if w.passes then p.hub else s.current)
      requires var retry := if w.passes then s.retry else s.retry + [p.hub];
        (r.queue, r.retry) == if retry != [] && p.rest == [] then (p.rest + retry, []) else (p.rest, retry)
      requires r.delivered == s.delivered + w.shipped && r.manifest == w.manifest && r.looks == w.looks
      requires w.shipped != [] ==>
        r.now == ClockAfter(s.now, p.distance, speed) && r.remaining == s.remaining - Elapsed(p.distance, speed) &&
        r.miles == s.miles + p.distance && r.clock == r.now
      requires w.shipped == [] ==> r.now == s.now && r.remaining == s.remaining && r.miles == s.miles && r.clock == s.clock
      ensures r == Visited(s, p, truckId, speed)
    { }

    /**
     * The route loop of `begin_delivery` from the leg `s`, for at most
     * `fuel` passes. It returns the time of day once the queue is empty or
     * no time is left. It raises when `next_nearest_hub` compares with
     * `None` or the speed is zero. It returns the time of day when the
     * nearest hub is further than the time left, and otherwise visits that
     * hub and goes on.
     */
    ghost function Run(s: Leg, truckId: int, speed: real, fuel: nat): (r: (Route, Leg))
      decreases fuel, 0
    {
      if s.queue == [] || s.remaining <= 0 then (Finished(s.now), s)
      else if fuel == 0 then (OutOfFuel, s)
      else
        match Nearest(table, s.current, s.queue)
        case None => (Failed(NoneComparison), s)
        case Some(p) =>
          if speed == 0.0 then (Failed(ZeroDivision), s)
          else if s.remaining as real < p.distance / speed then (Finished(s.now), s)
          else RunOn(s, p, truckId, speed, fuel - 1)
    }

    /** The route loop going on, with `fuel` passes left, once the pass from `s` has visited the hub `p`. */
    ghost function RunOn(s: Leg, p: Pick, truckId: int, speed: real, fuel: nat): (r: (Route, Leg))
      requires speed != 0.0
      decreases fuel, 1
    {
      Run(Visited(s, p, truckId, speed), truckId, speed, fuel)
    }

    /** A pass of the route loop from `s` reaches a hub: one is queued, time is left, and the nearest is in reach. */
    ghost predicate Reaches(s: Leg, speed: real) {
      s.queue != [] && s.remaining > 0 && speed != 0.0 && Nearest(table, s.current, s.queue).Some? &&
      s.remaining as real >= Nearest(table, s.current, s.queue).value.distance / speed
    }

    /** A pass of the route loop that has the nearest hub in reach visits it and goes on with one pass less. */
    lemma RunVisits(s: Leg, truckId: int, speed: real, fuel: nat)
      requires Reaches(s, speed) && fuel > 0
      ensures Run(s, truckId, speed, fuel) ==
        Run(Visited(s, Nearest(table, s.current, s.queue).value, truckId, speed), truckId, speed, fuel - 1)
    {
      assert Run(s, truckId, speed, fuel) == RunOn(s, Nearest(table, s.current, s.queue).value, truckId, speed, fuel - 1);
    }

    /**
     * A route loop that visits no hub from `s` stops there, and a time it
     * returns is the leg's, with the queue empty or out of time.
     */
    lemma RunStays(s: Leg, truckId: int, speed: real, fuel: nat)
      requires !(Reaches(s, speed) && fuel > 0)
      ensures Run(s, truckId, speed, fuel).1 == s
      ensures var r := Run(s, truckId, speed, fuel).0;
        r.Finished? ==> r.time == s.now && (s.queue == [] || OutOfTime(s, speed))
    { }

    /** The leg after one pass of the route loop from `s`: the nearest hub visited when it is in reach, otherwise `s`. */
    ghost function Next(s: Leg, truckId: int, speed: real): Leg {
      if Reaches(s, speed) then Visited(s, Nearest(table, s.current, s.queue).value, truckId, speed) else s
    }

    /** A pass of the route loop with the nearest hub in reach goes on from `Next` with one pass less. */
    lemma RunStep(s: Leg, truckId: int, speed: real, fuel: nat)
      requires Reaches(s, speed) && fuel > 0
      ensures Run(s, truckId, speed, fuel) == Run(Next(s, truckId, speed), truckId, speed, fuel - 1)
    {
      RunVisits(s, truckId, speed, fuel);
    }

    /**
     * Where the route of `begin_delivery` starts for the manifest `P`: at
     * the depot at `begin`, with the manifest sorted by deadline, the queue
     * of its addresses in that order, and the seconds until `end` left.
     */
    ghost function Departure(P: seq<Package>, start: map<Package, Look>, begin: int, end: int, miles: real, clock: int): (r: Leg)
      requires forall p :: p in P ==> p in start
      ensures multiset(r.manifest) == multiset(P) && r.delivered == [] && r.looks == start
    {
      var sorted := Sorting.SortBy(P, Deadline);
      assert forall p :: p in sorted ==> p in multiset(P);
      Leg(depot, Addrs(sorted, start), [], begin, RemainingTime(begin, end), [], sorted, start, miles, clock)
    }

    /** No time for another pass: no seconds are left, or the nearest hub is further than the seconds left. */
    ghost predicate OutOfTime(s: Leg, speed: real) {
      s.remaining <= 0 ||
      (s.queue != [] && speed != 0.0 && Nearest(table, s.current, s.queue).Some? &&
       s.remaining as real < Nearest(table, s.current, s.queue).value.distance / speed)
    }

    /** The route's time is `begin` until a parcel is delivered, and from then on the truck's clock. */
    ghost predicate Clocked(s: Leg, begin: int) {
      0 <= s.now < DaySeconds && if s.delivered == [] then s.now == begin else s.clock == s.now
    }

    /** A finished route returns its time of day: `begin` if nothing was delivered, otherwise the truck's clock. */
    lemma {:induction false} RunClock(s: Leg, truckId: int, speed: real, fuel: nat, begin: int)
      requires Clocked(s, begin)
      ensures Clocked(Run(s, truckId, speed, fuel).1, begin)
      ensures Run(s, truckId, speed, fuel).0.Finished? ==> Run(s, truckId, speed, fuel).0.time == Run(s, truckId, speed, fuel).1.now
      decreases fuel
    {
      if Reaches(s, speed) && fuel > 0 {
        var next := Next(s, truckId, speed);
        assert Clocked(next, begin) by {
          NextClocked(s, truckId, speed, begin);
        }
        RunClock(next, truckId, speed, fuel - 1, begin);
        assert Run(s, truckId, speed, fuel) == Run(next, truckId, speed, fuel - 1) by {
          RunStep(s, truckId, speed, fuel);
        }
      } else {
        RunStays(s, truckId, speed, fuel);
      }
    }

    /** Pass `k` of the route loop in `legs`: the nearest hub was in reach and was visited. */
    ghost predicate Stepped(legs: seq<Leg>, k: nat, truckId: int, speed: real)
      requires k < |legs| - 1
    {
      Reaches(legs[k], speed) &&
      legs[k + 1] == Visited(legs[k], Nearest(table, legs[k].current, legs[k].queue).value, truckId, speed)
    }

    /** `legs` holds the states of the route loop, one after each pass so far. */
    ghost predicate Legs(legs: seq<Leg>, truckId: int, speed: real) {
      forall k :: 0 <= k < |legs| - 1 ==> Stepped(legs, k, truckId, speed)
    }

    /**
     * The legs of the route loop from the start of a route: passes of the
     * loop, with the route's time as `Clocked` says and, in the last leg,
     * the hand-over and the queue as `OnRoute` says.
     */
    ghost predicate Along(legs: seq<Leg>, P0: seq<Package>, start: map<Package, Look>, begin: int, truckId: int, speed: real) {
      legs != [] && Legs(legs, truckId, speed) &&
      var s := legs[|legs| - 1];
      Clocked(s, begin) && OnRoute(P0, start, s.looks, s.manifest, s.delivered, s.queue, s.retry, truckId, config.rightAddress)
    }

    /** A pass that visits the nearest hub extends the legs by one. */
    lemma LegsExtend(legs: seq<Leg>, next: Leg, truckId: int, speed: real)
      requires Legs(legs, truckId, speed) && legs != []
      requires var s := legs[|legs| - 1];
        s.queue != [] && s.remaining > 0 && speed != 0.0 &&
        var n := Nearest(table, s.current, s.queue);
        n.Some? && s.remaining as real >= n.value.distance / speed && next == Visited(s, n.value, truckId, speed)
      ensures Legs(legs + [next], truckId, speed)
    {
      var t := legs + [next];
      forall k | 0 <= k < |t| - 1
        ensures Stepped(t, k, truckId, speed)
      {
        if k < |legs| - 1 {
          assert Stepped(legs, k, truckId, speed);
        }
      }
    }

    /**
     * How a pass of the route loop from `s` ends the route with `stop`,
     * when `fuel` passes are left: no fuel, or as `Ended` says.
     */
    ghost predicate Halted(s: Leg, stop: Route, fuel: nat, speed: real) {
      s.queue != [] && s.remaining > 0 &&
      if fuel == 0 then stop == OutOfFuel else Ended(s, stop, speed)
    }

    /**
     * How a pass of the route loop from `s`, with a hub in its queue, ends
     * the route with `stop`: a `None` comparison, a zero speed, or a
     * nearest hub further than the time left.
     */
    ghost predicate Ended(s: Leg, stop: Route, speed: real)
      requires s.queue != []
    {
      var n := Nearest(table, s.current, s.queue);
      if n.None? then stop == Failed(NoneComparison)
      else if speed == 0.0 then stop == Failed(ZeroDivision)
      else s.remaining as real < n.value.distance / speed && stop == Finished(s.now)
    }

    /** Each pass in the legs of the route loop is a step of `Run`, `left` passes from the end. */
    lemma LegsChain(legs: seq<Leg>, truckId: int, speed: real, left: nat)
      requires Legs(legs, truckId, speed)
      ensures forall j, k :: 0 <= j && k == j + 1 && k < |legs| ==>
        Run(legs[j], truckId, speed, left + (|legs| - 1 - j)) == Run(legs[k], truckId, speed, left + (|legs| - 1 - k))
    {
      forall j, k | 0 <= j && k == j + 1 && k < |legs|
        ensures Run(legs[j], truckId, speed, left + (|legs| - 1 - j)) == Run(legs[k], truckId, speed, left + (|legs| - 1 - k))
      {
        StepRun(legs, truckId, speed, left + (|legs| - 1 - j), j);
      }
    }

    /** The legs of the route loop are passes of `Run`: from the first leg it runs on as from the last. */
    lemma LegsRun(legs: seq<Leg>, truckId: int, speed: real, left: nat)
      requires Legs(legs, truckId, speed) && legs != []
      ensures Run(legs[0], truckId, speed, left + (|legs| - 1)) == Run(legs[|legs| - 1], truckId, speed, left)
    {
      var run := (s: Leg, n: nat) => Run(s, truckId, speed, n);
      assert forall j, k :: 0 <= j && k == j + 1 && k < |legs| ==>
        run(legs[j], left + (|legs| - 1 - j)) == run(legs[k], left + (|legs| - 1 - k)) by {
        LegsChain(legs, truckId, speed, left);
      }
      Telescope(legs, run, left);
    }

    /**
     * How the route loop ends in `s` with the route `r` when `fuel` passes
     * are left: a pass halted it, or the queue or the time ran out.
     */
    ghost predicate Over(s: Leg, r: Route, fuel: nat, speed: real) {
      Halted(s, r, fuel, speed) || (r == Finished(s.now) && (s.queue == [] || s.remaining <= 0))
    }

    /** A route loop that ended with a time of day ended at its last leg's time, with the queue empty or out of time. */
    lemma OverTime(s: Leg, r: Route, fuel: nat, speed: real)
      requires Over(s, r, fuel, speed)
      ensures r.Finished? ==> r.time == s.now && (s.queue == [] || OutOfTime(s, speed))
    { }

    /** A pass that ends the route, or no fuel left, is how the route loop ends. */
    lemma HaltOver(s: Leg, r: Route, fuel: nat, speed: real)
      requires s.queue != [] && s.remaining > 0
      requires if fuel == 0 then r == OutOfFuel else Ended(s, r, speed)
      ensures Over(s, r, fuel, speed)
    { }

    /**
     * The legs of the route loop, with how it ended, are the route `Run`
     * computes: the route `r` and the last leg.
     */
    lemma LegsEnd(legs: seq<Leg>, r: Route, truckId: int, speed: real, fuel: nat, left: nat)
      requires Legs(legs, truckId, speed) && legs != [] && fuel == left + (|legs| - 1)
      requires Over(legs[|legs| - 1], r, left, speed)
      ensures Run(legs[0], truckId, speed, fuel) == (r, legs[|legs| - 1])
    {
      var last := legs[|legs| - 1];
      assert Run(legs[0], truckId, speed, fuel) == Run(last, truckId, speed, left) by {
        LegsRun(legs, truckId, speed, left);
      }
      assert Run(last, truckId, speed, left) == (r, last) by {
        HaltRun(last, r, truckId, speed, left);
      }
    }

    /** A pass that visits the nearest hub is one step of `Run`. */
    lemma StepRun(legs: seq<Leg>, truckId: int, speed: real, fuel: nat, k: nat)
      requires k < |legs| - 1 && Stepped(legs, k, truckId, speed) && fuel > 0
      ensures Run(legs[k], truckId, speed, fuel) == Run(legs[k + 1], truckId, speed, fuel - 1)
    {
      RunVisits(legs[k], truckId, speed, fuel);
    }

    /** A route that halts, or whose queue or time ran out, is where `Run` stops. */
    lemma HaltRun(s: Leg, r: Route, truckId: int, speed: real, fuel: nat)
      requires Over(s, r, fuel, speed)
      ensures Run(s, truckId, speed, fuel) == (r, s)
    { }

    /** A pass that visits a hub keeps the route's time as `Clocked` says. */
    lemma VisitedClocked(s: Leg, p: Pick, truckId: int, speed: real, begin: int)
      requires speed != 0.0 && Clocked(s, begin)
      ensures Clocked(Visited(s, p, truckId, speed), begin)
    {
      var w := HubWalk(s, p, truckId, speed);
      if w.shipped == [] {
        assert s.delivered + w.shipped == s.delivered;
      }
    }

    /** A pass of the route loop keeps the route's time as `Clocked` says. */
    lemma NextClocked(s: Leg, truckId: int, speed: real, begin: int)
      requires Clocked(s, begin)
      ensures Clocked(Next(s, truckId, speed), begin)
    {
      if Reaches(s, speed) {
        VisitedClocked(s, Nearest(table, s.current, s.queue).value, truckId, speed, begin);
      }
    }

    /** A route result that is a time of day was reached with the queue empty or out of time. */
    ghost predicate Exited(r: (Route, Leg), speed: real) {
      r.0.Finished? ==> r.1.queue == [] || OutOfTime(r.1, speed)
    }

    /** A route that returns a time ended with its queue empty or out of time. */
    lemma {:induction false} RunExit(s: Leg, truckId: int, speed: real, fuel: nat)
      ensures Exited(Run(s, truckId, speed, fuel), speed)
      decreases fuel
    {
      if Reaches(s, speed) && fuel > 0 {
        var next := Next(s, truckId, speed);
        RunExit(next, truckId, speed, fuel - 1);
        assert Run(s, truckId, speed, fuel) == Run(next, truckId, speed, fuel - 1) by {
          RunStep(s, truckId, speed, fuel);
        }
      } else {
        RunStays(s, truckId, speed, fuel);
      }
    }

    /**
     * `next_nearest_hub`: scans the queue for the hub nearest `current`,
     * keeping the first of equally near ones. A hub with no table entry
     * counts as `None`; once the first hub has none, the first later hub
     * that has one is compared with `None`, which raises. If the chosen hub
     * has no entry it is driven to at distance 0.
     */
    method NextNearestHub(current: string, queue: seq<string>) returns (r: Option<Pick>)
      requires |queue| > 0
      ensures r.None? <==>
        (current, queue[0]) !in table && exists j :: 1 <= j < |queue| && (current, queue[j]) in table
      ensures r.Some? ==> IsNearest(table, current, queue, r.value)
      ensures r == Nearest(table, current, queue)
    {
      var k := 0;
      var best: Option<real> := if (current, queue[0]) in table then Some(table[(current, queue[0])]) else None;
      var i := 1;
      while i < |queue|
        invariant 1 <= i <= |queue| && k < i
        invariant best.None? <==> (current, queue[0]) !in table
        invariant best.None? ==> k == 0
        invariant best.None? ==> forall j :: 1 <= j < i ==> (current, queue[j]) !in table
        invariant best.Some? ==> (current, queue[k]) in table && best.value == table[(current, queue[k])]
        invariant best.Some? ==> forall j :: 0 <= j < i && (current, queue[j]) in table ==> best.value <= table[(current, queue[j])]
        invariant best.Some? ==> forall j :: 0 <= j < k && (current, queue[j]) in table ==> best.value < table[(current, queue[j])]
      {
        if (current, queue[i]) in table {
          var next := table[(current, queue[i])];
          if best.None? {
            assert 1 <= i < |queue| && (current, queue[i]) in table;
            return None;
          }
          if next < best.value {
            best := Some(next);
            k := i;
          }
        }
        i := i + 1;
      }
      var distance := if (current, queue[k]) in table then table[(current, queue[k])] else 0.0;
      r := Some(Pick(k, queue[k], distance, Without(queue, k)));
      NearestSpec(table, current, queue);
      NearestUnique(table, current, queue, r.value, Nearest(table, current, queue).value);
    }

    /**
     * `_is_package_deliverable`: the verdict of the parcel's note for this
     * truck, `eta` whole seconds away. A wrong-address parcel that may go
     * gets the right address.
     */
    method IsPackageDeliverable(package: Package, truck: Truck, delivered: seq<Package>, eta: int) returns (v: Verdict)
      modifies package`address
      ensures var rule := Classify(NoteOf(package.id), rules);
        v == Decide(rule, truck.id, truck.clock, Ids(truck.packages), Ids(delivered), eta,
                    config.delayedStart, config.newAddressTime) &&
        package.address == if rule == WrongAddress && v == Yes then config.rightAddress else old(package.address)
    {
      var rule := Classify(NoteOf(package.id), rules);
      match rule {
        case NoRule => v := Yes;
        case DelayedStart => v := if truck.clock >= config.delayedStart then Yes else No;
        case WrongAddress =>
          if Arrival(truck.clock, eta) >= config.newAddressTime {
            package.address := config.rightAddress;
            v := Yes;
          } else {
            v := No;
          }
        case TruckTwoOnly => v := if truck.id == 2 then Yes else No;
        case Unrecognised => v := Undecided;
        case _ =>
          var (a, b) := Partners(rule);
          var onBoard := CountPartnerIds(Ids(truck.packages), a, b);
          var handed := CountPartnerIds(Ids(delivered), a, b);
          CountPartnersAppend(Ids(truck.packages), Ids(delivered), a, b);
          v := if onBoard + handed == 2 then Yes else No;
      }
    }

    /**
     * One parcel at the hub being served: if the rules let it go, the truck
     * drives `travel` miles, its clock and the time left move on, and the
     * parcel is handed over; otherwise nothing changes.
     */
    method Offer(truck: Truck, package: Package, eta: int, travel: real, now: int, remaining: int, delivered: seq<Package>)
      returns (v: Verdict, now': int, remaining': int, delivered': seq<Package>)
      requires truck.speed != 0.0 && 0 <= now < DaySeconds && package in truck.packages
      modifies truck`packages, truck`miles, truck`clock, package`status, package`address
      ensures v == Decide(Classify(NoteOf(package.id), rules), truck.id, old(truck.clock), Ids(old(truck.packages)), Ids(delivered),
                          eta, config.delayedStart, config.newAddressTime)
      ensures v == Yes ==>
        truck.packages == Without(old(truck.packages), FirstIndex(old(truck.packages), package)) &&
        package.status == Delivered(truck.id, now') && delivered' == delivered + [package] &&
        package.address == (if Classify(NoteOf(package.id), rules) == WrongAddress then config.rightAddress else old(package.address)) &&
        truck.miles == old(truck.miles) + travel && truck.clock == now' &&
        now' == ClockAfter(now, travel, truck.speed) &&
        remaining' == remaining - Elapsed(travel, truck.speed)
      ensures v != Yes ==>
        truck.packages == old(truck.packages) && package.status == old(package.status) &&
        package.address == old(package.address) && truck.miles == old(truck.miles) &&
        truck.clock == old(truck.clock) && now' == now && remaining' == remaining && delivered' == delivered
    {
      v := IsPackageDeliverable(package, truck, delivered, eta);
      now', remaining', delivered' := now, remaining, delivered;
      if v == Yes {
        truck.UpdateMilesDriven(travel);
        var elapsed;
        now', elapsed := truck.UpdateTruckClock(travel, now);
        remaining' := remaining - elapsed;
        delivered' := truck.DeliverPackage(package, delivered);
      }
    }

    /**
     * One step of the manifest walk in `begin_delivery`: a parcel addressed
     * to `hub` is offered to the rules; one that may go is handed over,
     * paying `travel`, and one that may not clears `passes`.
     */
    method Consider(truck: Truck, package: Package, hub: string, eta: int, travel: real, now: int, remaining: int,
                    delivered: seq<Package>, passes: bool,
                    ghost visit: Visit, ghost trace: seq<Walk>, ghost shipped: seq<Package>, ghost after: map<Package, Look>)
      returns (travel': real, now': int, remaining': int, delivered': seq<Package>, passes': bool,
               ghost shipped': seq<Package>, ghost after': map<Package, Look>)
      requires truck.speed != 0.0 && package in after
      requires trace != [] && |trace| - 1 < |truck.packages| && package == truck.packages[|trace| - 1]
      requires trace[|trace| - 1] == Walk(truck.packages, after, shipped, passes)
      requires Trace(Stop(hub, truck.id, eta, visit.clock, ClockAfter(visit.now, visit.distance, truck.speed), visit.delivered), trace)
      requires Matches(after) && delivered == visit.delivered + shipped
      requires Charged(shipped != [], visit, truck.speed, truck.miles, now, remaining, truck.clock)
      requires travel == if shipped == [] then visit.distance else 0.0
      modifies truck`packages, truck`miles, truck`clock, package`status, package`address
      ensures Trace(Stop(hub, truck.id, eta, visit.clock, ClockAfter(visit.now, visit.distance, truck.speed), visit.delivered),
                    trace + [Walk(truck.packages, after', shipped', passes')])
      ensures Matches(after') && delivered' == visit.delivered + shipped'
      ensures Charged(shipped' != [], visit, truck.speed, truck.miles, now', remaining', truck.clock)
      ensures travel' == if shipped' == [] then visit.distance else 0.0
      ensures after'.Keys == after.Keys && |old(truck.packages)| - 1 <= |truck.packages| <= |old(truck.packages)|
      ensures forall q :: q in truck.packages ==> q in old(truck.packages)
    {
      travel', now', remaining', delivered', passes', shipped', after' := travel, now, remaining, delivered, passes, shipped, after;
      ghost var st := Stop(hub, truck.id, eta, visit.clock, ClockAfter(visit.now, visit.distance, truck.speed), visit.delivered);
      ghost var w := Walk(truck.packages, after, shipped, passes);
      var v: Verdict := No;
      if package.address == hub {
        v, now', remaining', delivered' := Offer(truck, package, eta, travel, now, remaining, delivered);
        if v == Yes {
          ChargedStep(shipped != [], visit, truck.speed, old(truck.miles), now, remaining, old(truck.clock), travel);
          after' := after[package := Look(package.address, package.status)];
          shipped' := shipped + [package];
          travel' := 0.0;
          AppendOne(visit.delivered, shipped, package);
          forall q | q in after' ensures after'[q] == Look(q.address, q.status) {
            if q != package {
              assert after'[q] == after[q];
            }
          }
        } else {
          passes' := false;
        }
      }
      TraceTurn(st, trace, v, Walk(truck.packages, after', shipped', passes'));
    }

    /**
     * The hand-over at one hub inside `begin_delivery`: walks the manifest
     * with Python's list iterator and offers every parcel addressed to `hub`
     * to the business rules. A parcel that may go is driven to, handed over
     * and taken off the manifest; the iterator then skips the parcel that
     * moved into its place. Only the first hand-over pays the distance. A
     * parcel that may not go clears `passes`, which re-queues the hub.
     * `before` and `after` are snapshots of the parcels' fields.
     */
    method ServeHub(truck: Truck, hub: string, distance: real, now: int, remaining: int, delivered: seq<Package>,
                    ghost before: map<Package, Look>)
      returns (now': int, remaining': int, delivered': seq<Package>, passes: bool,
               ghost shipped: seq<Package>, ghost after: map<Package, Look>)
      requires truck.speed != 0.0 && 0 <= now < DaySeconds
      requires Matches(before) && forall p :: p in truck.packages ==> p in before
      modifies truck`packages, truck`miles, truck`clock, before.Keys
      ensures Matches(after) && delivered' == delivered + shipped
      ensures Walk(truck.packages, after, shipped, passes) ==
        Replay(Stop(hub, truck.id, Trunc(distance / truck.speed), old(truck.clock), ClockAfter(now, distance, truck.speed), delivered),
               Walk(old(truck.packages), before, [], true), 0)
      ensures Served(old(truck.packages), before, after, truck.packages, shipped, hub, truck.id, config.rightAddress,
                     ClockAfter(now, distance, truck.speed))
      ensures Charged(shipped != [], Visit(old(truck.packages), before, delivered, distance, old(truck.miles), now, remaining, old(truck.clock)),
                      truck.speed, truck.miles, now', remaining', truck.clock)
      ensures passes && shipped == [] ==> forall p :: p in old(truck.packages) ==> before[p].address != hub
    {
      ghost var visit := Visit(truck.packages, before, delivered, distance, truck.miles, now, remaining, truck.clock);
      var eta := Trunc(distance / truck.speed);
      var travel := distance;
      now', remaining', delivered', passes, shipped, after := now, remaining, delivered, true, [], before;
      ghost var st := Stop(hub, truck.id, eta, truck.clock, ClockAfter(now, distance, truck.speed), delivered);
      ghost var trace := [Walk(truck.packages, before, [], true)];
      var i := 0;
      while i < |truck.packages|
        invariant 0 <= i <= |truck.packages| + 1 && |trace| == i + 1
        invariant trace[0] == Walk(visit.P0, before, [], true) && Trace(st, trace)
        invariant trace[i] == Walk(truck.packages, after, shipped, passes)
        invariant Matches(after) && delivered' == visit.delivered + shipped
        invariant after.Keys == before.Keys && forall q :: q in truck.packages ==> q in before
        invariant Charged(shipped != [], visit, truck.speed, truck.miles, now', remaining', truck.clock)
        invariant travel == if shipped == [] then distance else 0.0
        decreases |truck.packages| + 1 - i
      {
        var package := truck.packages[i];
        travel, now', remaining', delivered', passes, shipped, after :=
          Consider(truck, package, hub, eta, travel, now', remaining', delivered', passes, visit, trace, shipped, after);
        trace := trace + [Walk(truck.packages, after, shipped, passes)];
        i := i + 1;
      }
      TraceDone(st, trace, visit.P0, before);
    }

    /**
     * One pass of the route loop of `begin_delivery` once the nearest hub
     * `p` is chosen and there is time to reach it: the hub is served; if
     * every parcel for it passed its rules the truck is now there,
     * otherwise the hub goes to the retry list; an exhausted queue takes
     * the retry list back. `P0`, `start` and `after` track the route so
     * far.
     */
    method VisitHub(truck: Truck, current: string, queue: seq<string>, p: Pick, retry: seq<string>,
                    now: int, remaining: int, delivered: seq<Package>,
                    ghost P0: seq<Package>, ghost start: map<Package, Look>, ghost after: map<Package, Look>)
      returns (passes: bool, current': string, queue': seq<string>, retry': seq<string>, now': int, remaining': int,
               delivered': seq<Package>, ghost after': map<Package, Look>)
      requires truck.speed != 0.0 && 0 <= now < DaySeconds
      requires p.index < |queue| && p.hub == queue[p.index] && p.rest == Without(queue, p.index)
      requires Matches(after) && Handed(P0, start, after, truck.packages, delivered, truck.id, config.rightAddress)
      requires Covered(P0, start, truck.packages, queue, retry)
      modifies truck`packages, truck`miles, truck`clock, after.Keys
      ensures current' == if passes then p.hub else current
      ensures var r := if passes then retry else retry + [p.hub];
        (queue', retry') == if r != [] && p.rest == [] then (p.rest + r, []) else (p.rest, r)
      ensures Leg(current', queue', retry', now', remaining', delivered', truck.packages, after', truck.miles, truck.clock) ==
        Visited(Leg(current, queue, retry, now, remaining, delivered, old(truck.packages), after, old(truck.miles), old(truck.clock)),
                p, truck.id, truck.speed)
      ensures passes == HubWalk(Leg(current, queue, retry, now, remaining, delivered, old(truck.packages), after,
                                    old(truck.miles), old(truck.clock)), p, truck.id, truck.speed).passes
      ensures 0 <= now' < DaySeconds
      ensures Matches(after') && Handed(P0, start, after', truck.packages, delivered', truck.id, config.rightAddress)
      ensures Covered(P0, start, truck.packages, queue', retry') && (queue' == [] ==> retry' == [])
    {
      ghost var served, S2;
      now', remaining', delivered', passes, served, S2 := ServeHub(truck, p.hub, p.distance, now, remaining, delivered, after);
      after' := S2;
      queue' := p.rest;
      if passes {
        current', retry' := p.hub, retry;
      } else {
        current', retry' := current, retry + [p.hub];
      }
      if retry' != [] && queue' == [] {
        queue', retry' := DrainRetries(queue', retry');
      }
      HubVisited(P0, start, after, old(truck.packages), delivered, S2, truck.packages, served, truck.id, config.rightAddress,
                 ClockAfter(now, p.distance, truck.speed), queue, retry, p.index, passes, queue', retry');
      VisitedIs(Leg(current, queue, retry, now, remaining, delivered, old(truck.packages), after, old(truck.miles), old(truck.clock)),
                p, truck.id, truck.speed, Walk(truck.packages, after', served, passes),
                Leg(current', queue', retry', now', remaining', delivered', truck.packages, after', truck.miles, truck.clock));
    }

    /** Builds the dispatcher over loaded parcels: they are indexed by id, their notes become the business rules, and the fleet is prepared. */
    constructor (table: Table, depot: string, config: Config, rules: RuleTexts, parcels: seq<Package>)
      ensures this.table == table && this.depot == depot && this.config == config && this.rules == rules
      ensures index == IndexOf(parcels) && notes == map id | id in index :: index[id].notes
      ensures |trucks| == if config.truckCount > 0 then config.truckCount else 0
      ensures forall i :: 0 <= i < |trucks| ==>
        fresh(trucks[i]) && trucks[i].id == i + 1 && trucks[i].packages == [] && trucks[i].capacity == config.capacity
    {
      this.table := table;
      this.depot := depot;
      this.config := config;
      this.rules := rules;
      var index := IndexOf(parcels);
      this.index := index;
      this.notes := map id | id in index :: index[id].notes;
      new;
      trucks := PrepTrucksForDispatch(config.truckCount);
    }

    /**
     * `prep_trucks_for_dispatch`: new trucks numbered 1 to `count`, each
     * empty, at the hub, with the configured speed, capacity and start
     * clock.
     */
    method PrepTrucksForDispatch(count: int) returns (fleet: seq<Truck>)
      ensures |fleet| == if count > 0 then count else 0
      ensures forall i :: 0 <= i < |fleet| ==>
        fresh(fleet[i]) && fleet[i].id == i + 1 && fleet[i].packages == [] && fleet[i].speed == config.speed &&
        fleet[i].miles == 0.0 && fleet[i].capacity == config.capacity && fleet[i].status == AtHub &&
        fleet[i].clock == config.startTime
      ensures forall i, j :: 0 <= i < j < |fleet| ==> fleet[i] != fleet[j]
    {
      fleet := [];
      var id := 1;
      while id <= count
        invariant 1 <= id <= (if count > 0 then count else 0) + 1 && |fleet| == id - 1
        invariant forall i :: 0 <= i < |fleet| ==>
          fresh(fleet[i]) && fleet[i].id == i + 1 && fleet[i].packages == [] && fleet[i].speed == config.speed &&
          fleet[i].miles == 0.0 && fleet[i].capacity == config.capacity && fleet[i].status == AtHub &&
          fleet[i].clock == config.startTime
        invariant forall i, j :: 0 <= i < j < |fleet| ==> fleet[i] != fleet[j]
      {
        var truck := new Truck(id, config.speed, config.capacity, config.startTime);
        fleet := fleet + [truck];
        id := id + 1;
      }
    }

    /** The search loop of `load_truck_with_packages`: the first truck of the fleet with the id. */
    method FindTruck(truckId: int) returns (r: Option<Truck>)
      ensures r == FirstWithId(trucks, truckId)
    {
      var i := 0;
      while i < |trucks|
        invariant 0 <= i <= |trucks|
        invariant FirstWithId(trucks, truckId) == FirstWithId(trucks[i..], truckId)
      {
        assert trucks[i..][1..] == trucks[i + 1..];
        if trucks[i].id == truckId {
          return Some(trucks[i]);
        }
        i := i + 1;
      }
      return None;
    }

    /**
     * `load_truck_with_packages`: finds the first truck with the id and
     * loads its manifest parcel by parcel, marking each parcel en route on
     * that truck before offering it to the truck, which takes it while it
     * has room. An id the index lacks reads as `None`, whose status
     * cannot be set: loading stops there, and `missing` names the id.
     */
    method LoadTruckWithPackages(truckId: int) returns (missing: Option<int>)
      modifies (set t | t in trucks)`packages, (set t | t in trucks)`capacity, (set t | t in trucks)`clock, index.Values`status
      ensures var ids := ManifestOf(config, truckId);
        var k := Present(ids, index);
        missing == (if FirstWithId(trucks, truckId).None? || k == |ids| then None else Some(ids[k]))
      ensures forall t :: t in trucks && FirstWithId(trucks, truckId) != Some(t) ==>
        t.packages == old(t.packages) && t.capacity == old(t.capacity) && t.clock == old(t.clock)
      ensures FirstWithId(trucks, truckId).Some? ==>
        var truck, ids := FirstWithId(trucks, truckId).value, ManifestOf(config, truckId);
        Boarded(truck, Parcels(ids[..Present(ids, index)], index), old(truck.packages), old(truck.capacity), old(truck.clock), config.startTime) &&
        forall j :: 0 <= j < Present(ids, index) ==> index[ids[j]].status == EnRoute(truckId)
      ensures forall t :: t in trucks ==> t.speed == old(t.speed) && t.miles == old(t.miles) && t.status == old(t.status)
      ensures forall t, p :: t in trucks && p in t.packages ==> p in old(t.packages) || p in index.Values
      ensures forall p :: p in index.Values ==> p.address == old(p.address)
    {
      var ids := ManifestOf(config, truckId);
      var found := FindTruck(truckId);
      if found.None? {
        return None;
      }
      missing := LoadParcels(found.value, ids);
      IndexedParcels(ids[..Present(ids, index)], index, old(found.value.capacity));
    }

    /**
     * The loading loop of `load_truck_with_packages` on the truck it found:
     * the parcels the index holds under `ids`, up to the first id it lacks,
     * are marked en route on the truck and offered to it in order.
     */
    method LoadParcels(truck: Truck, ids: seq<int>) returns (missing: Option<int>)
      modifies truck`packages, truck`capacity, truck`clock, index.Values`status
      ensures var k := Present(ids, index);
        missing == (if k == |ids| then None else Some(ids[k]))
      ensures Boarded(truck, Parcels(ids[..Present(ids, index)], index), old(truck.packages), old(truck.capacity), old(truck.clock), config.startTime)
      ensures forall j :: 0 <= j < Present(ids, index) ==> index[ids[j]].status == EnRoute(truck.id)
    {
      var parcels := index;
      ghost var packages0, capacity0, clock0 := truck.packages, truck.capacity, truck.clock;
      ghost var offered: seq<Package> := [];
      var i := 0;
      while i < |ids| && ids[i] in parcels
        invariant i <= Present(ids, parcels) && |offered| == i
        invariant forall j :: 0 <= j < i ==> offered[j] == parcels[ids[j]]
        invariant forall j :: 0 <= j < i ==> parcels[ids[j]].status == EnRoute(truck.id)
        invariant Boarded(truck, offered, packages0, capacity0, clock0, config.startTime)
      {
        var package := parcels[ids[i]];
        Board(truck, package, offered, packages0, capacity0, clock0);
        offered := offered + [package];
        i := i + 1;
      }
      assert i == Present(ids, index) && parcels == index;
      assert offered == Parcels(ids[..i], parcels);
      assert packages0 == old(truck.packages) && capacity0 == old(truck.capacity) && clock0 == old(truck.clock);
      missing := if i == |ids| then None else Some(ids[i]);
    }

    /**
     * What a truck holds after being offered `offered`, starting from the
     * manifest `packages0`, free capacity `capacity0` and clock `clock0`.
     */
    ghost predicate Boarded(truck: Truck, offered: seq<Package>, packages0: seq<Package>, capacity0: int, clock0: int,
                            startTime: int)
      reads truck
    {
      var taken := Fits(offered, capacity0);
      truck.packages == packages0 + taken &&
      truck.capacity == capacity0 - |taken| &&
      truck.clock == (if packages0 == [] && taken != [] then startTime else clock0)
    }

    /** One parcel of the loading loop: marked en route on the truck, then offered to it. */
    method Board(truck: Truck, package: Package, ghost offered: seq<Package>,
                 ghost packages0: seq<Package>, ghost capacity0: int, ghost clock0: int)
      requires Boarded(truck, offered, packages0, capacity0, clock0, config.startTime)
      modifies truck`packages, truck`capacity, truck`clock, package`status
      ensures Boarded(truck, offered + [package], packages0, capacity0, clock0, config.startTime)
      ensures package.status == EnRoute(truck.id)
    {
      package.status := EnRoute(truck.id);
      FitsStep(offered, package, capacity0);
      truck.LoadTruck(package, config.startTime);
    }

    /**
     * `clear_out_trucks`: every truck of the fleet is emptied and sent back
     * to the hub with speed 0, no miles and full capacity; its clock is
     * left as it was.
     */
    method ClearOutTrucks()
      modifies set t | t in trucks
      ensures forall t :: t in trucks ==>
        t.packages == [] && t.status == AtHub && t.speed == 0.0 && t.miles == 0.0 &&
        t.capacity == config.capacity && t.clock == old(t.clock)
    {
      for i := 0 to |trucks|
        invariant forall j :: 0 <= j < i ==>
          trucks[j].packages == [] && trucks[j].status == AtHub && trucks[j].speed == 0.0 &&
          trucks[j].miles == 0.0 && trucks[j].capacity == config.capacity
        invariant forall t :: t in trucks ==> t.clock == old(t.clock)
      {
        var truck := trucks[i];
        truck.packages := [];
        truck.status := AtHub;
        truck.speed := 0.0;
        truck.miles := 0.0;
        truck.capacity := config.capacity;
      }
    }

    /** `clear_package_warehouse`: the index forgets every parcel. */
    method ClearPackageWarehouse()
      modifies this`index
      ensures index == map[]
    {
      index := map[];
    }

    /**
     * One pass of the route loop of `begin_delivery`: the nearest hub in
     * the queue is chosen and, if the truck can reach it in the time left,
     * served. `stop` is the route's end when the pass ends it: an
     * exception, or the time of day when the next hub is too far; the
     * state is then as it was, and `Ended` says which end it is. `legs`
     * holds the states of the loop so far, the last of them the state the
     * pass starts from; a pass that visits a hub extends them by its new
     * state, as `Stepped` says.
     */
    method RoutePass(truck: Truck, current: string, queue: seq<string>, retry: seq<string>,
                     now: int, remaining: int, delivered: seq<Package>,
                     ghost P0: seq<Package>, ghost start: map<Package, Look>, ghost after: map<Package, Look>,
                     ghost legs: seq<Leg>, ghost begin: int)
      returns (stop: Option<Route>, current': string, queue': seq<string>, retry': seq<string>, now': int,
               remaining': int, delivered': seq<Package>, ghost after': map<Package, Look>)
      requires queue != [] && remaining > 0 && Along(legs, P0, start, begin, truck.id, truck.speed)
      requires legs[|legs| - 1] ==
        Leg(current, queue, retry, now, remaining, delivered, truck.packages, after, truck.miles, truck.clock)
      requires Matches(after)
      modifies truck`packages, truck`miles, truck`clock, after.Keys
      ensures stop.Some? ==> Ended(legs[|legs| - 1], stop.value, truck.speed)
      ensures stop.Some? ==>
        Leg(current', queue', retry', now', remaining', delivered', truck.packages, after', truck.miles, truck.clock) == legs[|legs| - 1]
      ensures stop.None? ==>
        Along(legs + [Leg(current', queue', retry', now', remaining', delivered', truck.packages, after', truck.miles, truck.clock)],
              P0, start, begin, truck.id, truck.speed)
      ensures Matches(after') && after'.Keys == after.Keys
    {
      stop, current', queue', retry', now', remaining', delivered', after' :=
        None, current, queue, retry, now, remaining, delivered, after;
      var pick := NextNearestHub(current, queue);
      if pick.None? {
        stop := Some(Failed(NoneComparison));
      } else if truck.speed == 0.0 {
        stop := Some(Failed(ZeroDivision));
      } else if remaining as real >= pick.value.distance / truck.speed {
        ghost var s := legs[|legs| - 1];
        var passes;
        passes, current', queue', retry', now', remaining', delivered', after' :=
          VisitHub(truck, current, queue, pick.value, retry, now, remaining, delivered, P0, start, after);
        ghost var next := Leg(current', queue', retry', now', remaining', delivered', truck.packages, after', truck.miles, truck.clock);
        assert Along(legs + [next], P0, start, begin, truck.id, truck.speed) by {
          VisitedClocked(s, pick.value, truck.id, truck.speed, begin);
          LegsExtend(legs, next, truck.id, truck.speed);
        }
      } else {
        stop := Some(Finished(now));
      }
    }

    /**
     * The passes of the route loop of `begin_delivery` from the leg `s0`,
     * at most `fuel` of them: `legs` holds the state after each, from `s0`
     * on, with `left` passes to spare, and `r` is how the loop ended. As
     * in the source, a pass that ends the route returns from inside the
     * loop.
     */
    method RoutePasses(truck: Truck, queue: seq<string>, begin: int, end: int, fuel: nat,
                       ghost P0: seq<Package>, ghost start: map<Package, Look>)
      returns (r: Route, ghost legs: seq<Leg>, ghost left: nat, ghost after: map<Package, Look>)
      requires 0 <= begin < DaySeconds
      requires Matches(start) && OnRoute(P0, start, start, truck.packages, [], queue, [], truck.id, config.rightAddress)
      modifies truck`packages, truck`miles, truck`clock, start.Keys
      ensures Along(legs, P0, start, begin, truck.id, truck.speed) && fuel == left + (|legs| - 1)
      ensures legs[0] == Leg(depot, queue, [], begin, RemainingTime(begin, end), [], old(truck.packages), start,
                             old(truck.miles), old(truck.clock))
      ensures var last := legs[|legs| - 1];
        last.manifest == truck.packages && last.looks == after && last.miles == truck.miles && last.clock == truck.clock &&
        Over(last, r, left, truck.speed)
      ensures Matches(after)
    {
      ghost var s0 := Leg(depot, queue, [], begin, RemainingTime(begin, end), [], truck.packages, start, truck.miles, truck.clock);
      var current, queue, now := depot, queue, begin;
      var retry: seq<string> := [];
      var delivered: seq<Package> := [];
      var remaining := RemainingTime(begin, end);
      after := start;
      var steps := 0;
      legs := [s0];
      while queue != [] && remaining > 0
        invariant steps <= fuel && |legs| == steps + 1 && legs[0] == s0 && Along(legs, P0, start, begin, truck.id, truck.speed)
        invariant legs[steps] == Leg(current, queue, retry, now, remaining, delivered, truck.packages, after, truck.miles, truck.clock)
        invariant Matches(after) && after.Keys == start.Keys
        decreases fuel - steps
      {
        if steps == fuel {
          assert Over(legs[|legs| - 1], OutOfFuel, 0, truck.speed) by {
            HaltOver(legs[steps], OutOfFuel, 0, truck.speed);
          }
          return OutOfFuel, legs, 0, after;
        }
        var stop;
        stop, current, queue, retry, now, remaining, delivered, after :=
          RoutePass(truck, current, queue, retry, now, remaining, delivered, P0, start, after, legs, begin);
        if stop.Some? {
          assert Over(legs[|legs| - 1], stop.value, fuel - steps, truck.speed) by {
            HaltOver(legs[steps], stop.value, fuel - steps, truck.speed);
          }
          return stop.value, legs, fuel - steps, after;
        }
        legs := legs + [Leg(current, queue, retry, now, remaining, delivered, truck.packages, after, truck.miles, truck.clock)];
        steps := steps + 1;
      }
      r := Finished(now);
      left := fuel - steps;
    }

    /**
     * The route loop of `begin_delivery`, from the depot at `begin`, with
     * `queue` holding the addresses of the manifest, for at most `fuel`
     * passes. `last` is the state the loop ends in.
     */
    method RouteLoop(truck: Truck, queue: seq<string>, begin: int, end: int, fuel: nat,
                     ghost P0: seq<Package>, ghost start: map<Package, Look>)
      returns (r: Route, ghost last: Leg)
      requires 0 <= begin < DaySeconds
      requires Matches(start) && OnRoute(P0, start, start, truck.packages, [], queue, [], truck.id, config.rightAddress)
      modifies truck`packages, truck`miles, truck`clock, start.Keys
      ensures (r, last) == Run(Leg(depot, queue, [], begin, RemainingTime(begin, end), [], old(truck.packages), start,
                                   old(truck.miles), old(truck.clock)), truck.id, truck.speed, fuel)
      ensures last.manifest == truck.packages && last.miles == truck.miles && last.clock == truck.clock
      ensures r.Finished? ==> r.time == (if last.delivered == [] then begin else truck.clock) && 0 <= r.time < DaySeconds
      ensures r.Finished? ==> last.queue == [] || OutOfTime(last, truck.speed)
      ensures Matches(last.looks) && Handed(P0, start, last.looks, truck.packages, last.delivered, truck.id, config.rightAddress)
      ensures last.queue == [] && Distinct(P0) ==> truck.packages == []
    {
      ghost var legs, left;
      ghost var after;
      r, legs, left, after := RoutePasses(truck, queue, begin, end, fuel, P0, start);
      last := legs[|legs| - 1];
      LegsEnd(legs, r, truck.id, truck.speed, fuel, left);
      OverTime(last, r, left, truck.speed);
      if last.queue == [] && Distinct(P0) {
        CoveredDone(P0, start, truck.packages, last.retry);
      }
    }

    /**
     * The route of `begin_delivery` for a truck with parcels: the manifest
     * is sorted by deadline, the queue holds each parcel's address, and the
     * route loop runs from the departure.
     */
    method DriveRoute(truck: Truck, begin: int, end: int, fuel: nat, ghost start: map<Package, Look>)
      returns (r: Route, ghost last: Leg)
      requires 0 <= begin < DaySeconds
      requires Matches(start) && forall p :: p in truck.packages ==> p in start
      modifies truck`packages, truck`miles, truck`clock, start.Keys
      ensures (r, last) == Run(Departure(old(truck.packages), start, begin, end, old(truck.miles), old(truck.clock)),
                               truck.id, truck.speed, fuel)
      ensures last.manifest == truck.packages && last.miles == truck.miles && last.clock == truck.clock
      ensures r.Finished? ==> r.time == (if last.delivered == [] then begin else truck.clock) && 0 <= r.time < DaySeconds
      ensures r.Finished? ==> last.queue == [] || OutOfTime(last, truck.speed)
      ensures Matches(last.looks) &&
        Handed(old(truck.packages), start, last.looks, truck.packages, last.delivered, truck.id, config.rightAddress)
      ensures last.queue == [] && Distinct(old(truck.packages)) ==> truck.packages == []
    {
      ghost var P0 := truck.packages;
      var queue := StartRoute(truck, start);
      r, last := RouteLoop(truck, queue, begin, end, fuel, P0, start);
    }

    /**
     * The manifest sorted by deadline and the hub queue of its addresses,
     * in that order: the route starts with every parcel owed a stop.
     */
    method StartRoute(truck: Truck, ghost start: map<Package, Look>) returns (queue: seq<string>)
      requires Matches(start) && forall p :: p in truck.packages ==> p in start
      modifies truck`packages
      ensures truck.packages == Sorting.SortBy(old(truck.packages), Deadline)
      ensures forall p :: p in truck.packages ==> p in start
      ensures queue == Addrs(truck.packages, start)
      ensures OnRoute(old(truck.packages), start, start, truck.packages, [], queue, [], truck.id, config.rightAddress)
    {
      var sorted := Sorting.SortBy(truck.packages, Deadline);
      forall p | p in sorted ensures p in start {
        assert multiset(sorted)[p] > 0;
      }
      queue := AddressesOf(sorted);
      assert queue == Addrs(sorted, start);
      RouteStart(truck.packages, start, sorted, queue, truck.id, config.rightAddress);
      truck.packages := sorted;
    }

    /**
     * `begin_delivery`: the truck sets out; an empty manifest ends the
     * route at once at `begin`. Otherwise the route runs from the
     * departure, and when it returns a time the truck is back at the hub.
     *
     * The source loop need not end (a hub whose parcels are always refused
     * is retried without the clock moving), so the model stops after
     * `fuel` passes. `last` is the state the route ends in.
     */
    method BeginDelivery(truck: Truck, begin: int, end: int, fuel: nat, ghost start: map<Package, Look>)
      returns (r: Route, ghost last: Leg)
      requires 0 <= begin < DaySeconds
      requires Matches(start) && forall p :: p in truck.packages ==> p in start
      modifies truck`packages, truck`miles, truck`clock, truck`status, start.Keys
      ensures old(truck.packages) == [] ==> r == Finished(begin) && last.delivered == [] && truck.packages == []
      ensures old(truck.packages) != [] ==>
        (r, last) == Run(Departure(old(truck.packages), start, begin, end, old(truck.miles), old(truck.clock)),
                         truck.id, truck.speed, fuel)
      ensures last.manifest == truck.packages && last.miles == truck.miles && last.clock == truck.clock
      ensures truck.status == if r.Finished? && old(truck.packages) != [] then AtHub else OutOnDeliveries
      ensures r.Finished? ==> r.time == (if last.delivered == [] then begin else truck.clock) && 0 <= r.time < DaySeconds
      ensures r.Finished? ==> last.queue == [] || OutOfTime(last, truck.speed)
      ensures Matches(last.looks) &&
        Handed(old(truck.packages), start, last.looks, truck.packages, last.delivered, truck.id, config.rightAddress)
      ensures last.queue == [] && Distinct(old(truck.packages)) ==> truck.packages == []
    {
      truck.status := OutOnDeliveries;
      if |truck.packages| == 0 {
        return Finished(begin), Leg(depot, [], [], begin, RemainingTime(begin, end), [], [], start, truck.miles, truck.clock);
      }
      r, last := DriveRoute(truck, begin, end, fuel, start);
      if r.Finished? {
        truck.status := AtHub;
      }
    }
  }
}
