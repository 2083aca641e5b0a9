/**
 * The records the dispatcher works on (Project/models/Package.py,
 * Project/models/hub.py) and the truck it drives.
 *
 * The dispatcher imports its truck from a module that is not part of this
 * model: `models.truck` with `load_truck`, `update_miles_driven`,
 * `update_truck_clock`, `deliver_package` and `truck_clock`. The `Truck`
 * class below gives those members the behaviour the system description
 * states for a vehicle; they are assumptions, not the source's code.
 *
 * Times of day are whole seconds after midnight.
 */
module Models {

  /** Seconds in a day; a `datetime` wraps to the next day past midnight. */
  const DaySeconds := 86400

  /** What the status text of a package says. */
  datatype PackageStatus =
    | Loaded(text: string)   // the status text the loader gave it
    | EnRoute(truck: int)    // "En route for delivery on truck no. <truck>"
    | Delivered(truck: int, time: int)

  /**
   * A parcel. The same object sits in the dispatcher's index and on a
   * truck's manifest, so a write to its status or address is seen through
   * both. The fields the dispatcher never writes are constants; the
   * deadline is a time of day and the empty note is no note.
   */
  class Package {
    const id: int
    var address: string
    const deadline: int
    var status: PackageStatus
    const notes: string

    constructor (id: int, address: string, deadline: int, status: PackageStatus, notes: string)
      ensures this.id == id && this.address == address && this.deadline == deadline
      ensures this.status == status && this.notes == notes
    {
      this.id := id;
      this.address := address;
      this.deadline := deadline;
      this.status := status;
      this.notes := notes;
    }
  }

  /** The ids of a list of parcels, in order. */
  function Ids(ps: seq<Package>): (r: seq<int>)
    ensures |r| == |ps|
  {
    if |ps| == 0 then [] else Ids(ps[..|ps| - 1]) + [ps[|ps| - 1].id]
  }

  /** The id list holds each parcel's id at the parcel's place. */
  lemma {:induction false} IdsAt(ps: seq<Package>)
    ensures forall i :: 0 <= i < |ps| ==> Ids(ps)[i] == ps[i].id
    decreases |ps|
  {
    if |ps| > 0 {
      IdsAt(ps[..|ps| - 1]);
    }
  }

  /** The position of the first occurrence of `x` in `s`. */
  function FirstIndex<T(==)>(s: seq<T>, x: T): (i: nat)
    requires x in s
    ensures i < |s| && s[i] == x && x !in s[..i]
  {
    if s[0] == x then 0 else FirstIndex(s[1..], x) + 1
  }

  /** A truck's status text: "Out on deliveries" or AT_HUB_TEXT ("AT HUB"). */
  datatype TruckStatus = OutOnDeliveries | AtHub

  /**
   * The constants the dispatcher and the menu import that Project/constants.py
   * does not define, taken as parameters of the model.
   */
  datatype Config = Config(
    startTime: int,             // DEFAULT_DELIVERY_START_TIME
    endTime: int,               // DEFAULT_DELIVERY_END_TIME
    delayedStart: int,          // DELAYED_START_TIME
    newAddressTime: int,        // BR_TIME_FOR_NEW_ADDRESS_FOR_PACKAGE_NINE
    rightAddress: string,       // BR_RIGHT_ADDRESS
    truckOne: seq<int>,         // TRUCK_ONE_PACKAGES
    truckTwo: seq<int>,         // TRUCK_TWO_PACKAGES
    truckThree: seq<int>,       // TRUCK_THREE_PACKAGES
    truckCount: nat,            // MAX_NUMBER_OF_TRUCKS_TO_DISPATCH
    capacity: int,              // MAX_TRUCK_CAPACITY
    speed: real,                // a new truck's speed, in miles per second
    maxPackages: int            // DEFAULT_MAXIMUM_NUMBER_OF_PACKAGES
  )

  /** The seconds after midnight of `hours:minutes`. */
  function TimeOfDay(hours: int, minutes: int): int {
    hours * 3600 + minutes * 60
  }

  /** Python's `int(x)` on a float: the integer part, rounding toward zero. */
  function Trunc(x: real): (r: int)
    ensures x >= 0.0 ==> r as real <= x < r as real + 1.0
    ensures x < 0.0 ==> r as real - 1.0 < x <= r as real
  {
    if x >= 0.0 then x.Floor else -((-x).Floor)
  }

  /** The whole seconds a truck needs for `distance` miles at `speed` miles per second. */
  function Elapsed(distance: real, speed: real): (r: int)
    requires speed != 0.0
    ensures distance == 0.0 ==> r == 0
  {
    Trunc(distance / speed)
  }

  /**
   * The time of day `distance` miles after `current` at `speed`: the whole
   * seconds of the drive added, wrapping at midnight.
   */
  function ClockAfter(current: int, distance: real, speed: real): (r: int)
    requires speed != 0.0
    ensures 0 <= r < DaySeconds
    ensures r == (current + Elapsed(distance, speed)) % DaySeconds
    ensures distance == 0.0 && 0 <= current < DaySeconds ==> r == current
  {
    (current + Elapsed(distance, speed)) % DaySeconds
  }

  /**
   * A truck: its manifest of parcels, speed in miles per second, odometer,
   * free capacity, status and clock (a time of day).
   */
  class Truck {
    const id: int
    var packages: seq<Package>
    var speed: real
    var miles: real
    var capacity: int
    var status: TruckStatus
    var clock: int

    /** A new truck: no parcels, no miles, full capacity, at the hub. */
    constructor (id: int, speed: real, capacity: int, clock: int)
      ensures this.id == id && packages == [] && this.speed == speed && miles == 0.0
      ensures this.capacity == capacity && status == AtHub && this.clock == clock
    {
      this.id := id;
      this.speed := speed;
      this.capacity := capacity;
      this.clock := clock;
      packages := [];
      miles := 0.0;
      status := AtHub;
    }

    /**
     * `load_truck`: appends the parcel and uses one unit of capacity; a full
     * truck takes nothing. The first parcel sets the clock to `startTime`.
     */
    method LoadTruck(package: Package, startTime: int)
      modifies this`packages, this`capacity, this`clock
      ensures |packages| + capacity == |old(packages)| + old(capacity)
      ensures old(capacity) >= 0 ==> capacity >= 0
      ensures old(capacity) > 0 ==> packages == old(packages) + [package] && capacity == old(capacity) - 1
      ensures old(capacity) <= 0 ==> packages == old(packages) && capacity == old(capacity)
      ensures clock == if old(capacity) > 0 && |old(packages)| == 0 then startTime else old(clock)
    {
      if capacity > 0 {
        if |packages| == 0 {
          clock := startTime;
        }
        packages := packages + [package];
        capacity := capacity - 1;
      }
    }

    /** `update_miles_driven`: adds to the odometer. */
    method UpdateMilesDriven(distance: real)
      modifies this`miles
      ensures miles == old(miles) + distance
    {
      miles := miles + distance;
    }

    /**
     * `update_truck_clock`: the whole seconds `distance` takes at the truck's
     * speed, added to `current` and wrapped at midnight; the truck's clock
     * becomes that time.
     */
    method UpdateTruckClock(distance: real, current: int) returns (now: int, elapsed: int)
      requires speed != 0.0
      modifies this`clock
      ensures elapsed == Elapsed(distance, speed)
      ensures now == ClockAfter(current, distance, speed) && clock == now
    {
      elapsed := Trunc(distance / speed);
      now := (current + elapsed) % DaySeconds;
      clock := now;
    }

    /**
     * `deliver_package`: takes the parcel off the manifest (the first place
     * it is listed, as `list.remove` does), stamps it delivered by this
     * truck at the truck's clock, and appends it to `delivered`.
     */
    method DeliverPackage(package: Package, delivered: seq<Package>) returns (delivered': seq<Package>)
      requires package in packages
      modifies this`packages, package`status
      ensures var k := FirstIndex(old(packages), package);
        packages == old(packages[..k] + packages[k + 1..])
      ensures multiset(packages) + multiset{package} == multiset(old(packages))
      ensures |packages| == |old(packages)| - 1
      ensures package.status == Delivered(id, clock)
      ensures delivered' == delivered + [package]
    {
      var k := FirstIndex(packages, package);
      assert packages == packages[..k] + [package] + packages[k + 1..];
      packages := packages[..k] + packages[k + 1..];
      package.status := Delivered(id, clock);
      delivered' := delivered + [package];
    }
  }
}
