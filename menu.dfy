/**
 * The console front end of Project/main.py: the selection loop of
 * `interface`, the input validators `_package_parser` and `_time_parser`,
 * and `_start_dispatcher`, which runs trucks 1 and 2 and then truck 3 when
 * time is left. Times are whole seconds after midnight.
 */
module Menu {
  import opened Wrappers
  import opened Models
  import opened PyText
  import opened DeliveryRules
  import opened Dispatch

  /** What a menu selection runs. */
  datatype Choice = FullReport | TimedReport | PackageReport | Quit | Invalid

  /** `c.lower()` on an ASCII letter A–Z; every other character is kept. */
  function LowerChar(c: char): char {
    if 'A' <= c <= 'Z' then (c as int + 32) as char else c
  }

  /** `s.lower()`, one character at a time. */
  function Lower(s: string): (r: string)
    ensures |r| == |s| && forall i :: 0 <= i < |s| ==> r[i] == LowerChar(s[i])
  {
    seq(|s|, i requires 0 <= i < |s| => LowerChar(s[i]))
  }

  /**
   * The branch `interface` takes for a selection, compared after
   * lowering: "1", "2" and "3" run the reports, "q" or "Q" quits, and
   * anything else is invalid.
   */
  function Select(selection: string): (c: Choice)
    ensures c == Quit <==> selection == "q" || selection == "Q"
    ensures c == FullReport <==> selection == "1"
    ensures c == TimedReport <==> selection == "2"
    ensures c == PackageReport <==> selection == "3"
  {
    var s := Lower(selection);
    if |s| == 1 then
      assert s == [LowerChar(selection[0])] && selection == [selection[0]];
      if s == "1" then FullReport
      else if s == "2" then TimedReport
      else if s == "3" then PackageReport
      else if s == "q" then Quit
      else Invalid
    else Invalid
  }

  /**
   * The branches the menu loop takes for a run of selections: one per
   * selection, up to and including the first that quits.
   */
  function UntilQuit(selections: seq<string>): (r: seq<Choice>)
    ensures |r| <= |selections| && (Quit !in r ==> |r| == |selections|)
    ensures forall i :: 0 <= i < |r| ==> r[i] == Select(selections[i])
  {
    if |selections| == 0 then []
    else
      var r := UntilQuit(selections[..|selections| - 1]);
      assert forall i :: 0 <= i < |r| ==> selections[..|selections| - 1][i] == selections[i];
      if Quit in r then r else r + [Select(selections[|selections| - 1])]
  }

  /** A selection that quits: "q" or "Q". */
  predicate Quits(selection: string) {
    selection == "q" || selection == "Q"
  }

  /** The menu loop quits exactly when some selection is "q" or "Q". */
  lemma {:induction false} QuitFound(selections: seq<string>)
    ensures Quit in UntilQuit(selections) <==> exists i :: 0 <= i < |selections| && Quits(selections[i])
  {
    if |selections| > 0 {
      var init := selections[..|selections| - 1];
      QuitFound(init);
      if Quit in UntilQuit(init) {
        var i :| 0 <= i < |init| && Quits(init[i]);
        assert selections[i] == init[i];
      } else if exists i :: 0 <= i < |selections| && Quits(selections[i]) {
        var i :| 0 <= i < |selections| && Quits(selections[i]);
        if i < |init| {
          assert false;
        }
      }
    }
  }

  /** A quit is the last branch the menu loop takes, and no branch before it quits. */
  lemma {:induction false} QuitLast(selections: seq<string>)
    ensures var r := UntilQuit(selections);
      Quit in r ==> r[|r| - 1] == Quit && Quit !in r[..|r| - 1]
  {
    if |selections| > 0 {
      var init := selections[..|selections| - 1];
      QuitLast(init);
      var r0 := UntilQuit(init);
      if Quit in r0 {
        assert UntilQuit(selections) == r0;
      } else {
        var r := r0 + [Select(selections[|selections| - 1])];
        assert UntilQuit(selections) == r;
        assert r[..|r| - 1] == r0;
      }
    }
  }

  /**
   * The loop stops at the first "q": it quits exactly when some selection
   * is "q" or "Q", the quit is its last branch and no branch before it
   * quits, and without a quit every selection is taken.
   */
  lemma UntilQuitStops(selections: seq<string>)
    ensures var r := UntilQuit(selections);
      (Quit in r <==> exists i :: 0 <= i < |selections| && (selections[i] == "q" || selections[i] == "Q")) &&
      (Quit in r ==> r[|r| - 1] == Quit && Quit !in r[..|r| - 1]) &&
      (Quit !in r ==> |r| == |selections|)
  {
    QuitFound(selections);
    QuitLast(selections);
  }

  /** One selection after a quit adds no branch. */
  lemma QuitStays(selections: seq<string>, init: seq<string>)
    requires |selections| > 0 && init == selections[..|selections| - 1] && Quit in UntilQuit(init)
    ensures UntilQuit(selections) == UntilQuit(init)
  {
  }

  /** Once the loop has quit, later selections are never read. */
  lemma {:induction false} UntilQuitPrefix(selections: seq<string>, n: nat)
    requires n <= |selections| && Quit in UntilQuit(selections[..n])
    ensures UntilQuit(selections) == UntilQuit(selections[..n])
  {
    if n < |selections| {
      var init := selections[..|selections| - 1];
      assert init[..n] == selections[..n];
      UntilQuitPrefix(init, n);
      QuitStays(selections, init);
    } else {
      assert selections[..n] == selections;
    }
  }

  /** `MainMenu`: the flag that ends the menu loop. */
  class MainMenu {
    var finished: bool

    constructor ()
      ensures !finished
    {
      finished := false;
    }

    /**
     * `interface`: while not finished, reads the next selection and runs
     * its branch; only a quit sets `finished`. The selections stand for
     * the lines the user types; the branches returned are the ones run.
     */
    method Interface(selections: seq<string>) returns (choices: seq<Choice>)
      modifies this
      ensures old(finished) ==> choices == [] && finished
      ensures !old(finished) ==> choices == UntilQuit(selections) && (finished <==> Quit in choices)
    {
      choices := [];
      var i := 0;
      while !finished && i < |selections|
        invariant 0 <= i <= |selections|
        invariant old(finished) ==> choices == [] && finished
        invariant !old(finished) ==> choices == UntilQuit(selections[..i]) && (finished <==> Quit in choices)
      {
        assert selections[..i + 1][..i] == selections[..i];
        var choice := Select(selections[i]);
        choices := choices + [choice];
        if choice == Quit {
          finished := true;
        }
        i := i + 1;
      }
      if !old(finished) {
        if finished {
          UntilQuitPrefix(selections, i);
        } else {
          assert selections[..i] == selections;
        }
      }
    }
  }

  /**
   * `_package_parser`: the parcel number the text gives, when `int()`
   * reads one between 1 and `maxPackages`; otherwise `None`.
   */
  function PackageParser(text: string, maxPackages: int): (r: Option<int>)
    ensures r.Some? ==> 1 <= r.value <= maxPackages && ParseInt(text) == r
    ensures r.None? ==> ParseInt(text).None? || ParseInt(text).value < 1 || ParseInt(text).value > maxPackages
  {
    match ParseInt(text)
    case None => None
    case Some(n) => if n > maxPackages || n < 1 then None else Some(n)
  }

  /** Every parcel number from 1 to the maximum, typed as Python prints it, is accepted as itself. */
  lemma PackageParserAccepts(n: int, maxPackages: int)
    ensures PackageParser(Decimal(n), maxPackages) == if 1 <= n <= maxPackages then Some(n) else None
  {
    ParseIntDecimal(n);
  }

  /**
   * `_time_parser`: a text of exactly five characters that splits on ':'
   * into exactly two parts, each read by `int()`, is the time of day
   * `hours:minutes` when the hour is from 8 to 17 and the minute from 0 to
   * 59; every other text gives `None`.
   */
  function TimeParser(text: string): (r: Option<int>)
    ensures r.Some? ==> |text| == 5 && Count(text, ':') == 1
    ensures r.Some? ==> TimeOfDay(8, 0) <= r.value <= TimeOfDay(17, 59)
  {
    if |text| != 5 then None
    else
      var parts := Split(text, ':');
      if |parts| != 2 then None
      else
        var hours, minutes := ParseInt(parts[0]), ParseInt(parts[1]);
        if hours.None? || minutes.None? then None
        else if hours.value < 8 || hours.value > 17 || minutes.value > 59 || minutes.value < 0 then None
        else Some(TimeOfDay(hours.value, minutes.value))
  }

  /**
   * Every "HH:MM" from 08:00 to 17:59 is accepted as that time of day, and
   * every other "HH:MM" is refused: the last accepted time is 17:59, not
   * the 17:00 the prompt names.
   */
  lemma TimeParserClock(hours: nat, minutes: nat)
    requires hours < 100 && minutes < 100
    ensures TimeParser(TwoDigits(hours) + ":" + TwoDigits(minutes)) ==
      if 8 <= hours <= 17 && minutes <= 59 then Some(TimeOfDay(hours, minutes)) else None
  {
    var text := TwoDigits(hours) + ":" + TwoDigits(minutes);
    SplitOnce(TwoDigits(hours), TwoDigits(minutes), ':');
    ReadTwoDigits(hours);
    ReadTwoDigits(minutes);
    assert |text| == 5 && Split(text, ':') == [TwoDigits(hours), TwoDigits(minutes)];
  }

  /** The end of the working day `_start_dispatcher` uses: the stop time given, or the default end. */
  function EndTime(stop: Option<int>, config: Config): int {
    stop.GetOr(config.endTime)
  }

  /** `max(a, b, c)`: the largest of three times. */
  function Latest(a: int, b: int, c: int): (r: int)
    ensures r >= a && r >= b && r >= c
    ensures r == a || r == b || r == c
  {
    if a >= b && a >= c then a else if b >= c then b else c
  }

  /** Why `_start_dispatcher` stops before the end: the exception it raises. */
  datatype Abort =
    | MissingParcel(id: int)   // a manifest id the index lacks: `None.status` raises AttributeError
    | NoTruck(index: nat)      // `trucks[index]` past the end of the fleet raises IndexError
    | RouteError(failure: Failure)
    | FuelSpent                // the route loop ran out of fuel

  /**
   * What `_start_dispatcher` did: the finishing times of trucks 1 and 2,
   * when truck 3 may leave and, when it was loaded and sent, the time its
   * `begin_delivery` returned (which `_start_dispatcher` discards).
   */
  datatype Outcome = Dispatched(first: int, second: int, thirdStart: int, third: Option<int>) | Aborted(abort: Abort)

  /** A `begin_delivery` route outcome turned into a finishing time or the exception it stands for. */
  function Finish(r: Route): Result<int>
  {
    match r
    case Finished(t) => Ok(t)
    case Failed(f) => Err(RouteError(f))
    case OutOfFuel => Err(FuelSpent)
  }

  /** The result of a step: a value, or the exception that ends `_start_dispatcher`. */
  datatype Result<T> = Ok(value: T) | Err(abort: Abort)

  /**
   * One call of `begin_delivery` from the menu: the truck's route from
   * `begin` to `end`, of which the menu keeps only the time returned: the
   * start time if no parcel was handed over, otherwise the truck's clock.
   * The truck ends with none but parcels it started with.
   */
  method RouteTruck(d: Dispatcher, truck: Truck, begin: int, end: int, fuel: nat) returns (r: Route)
    requires 0 <= begin < DaySeconds
    modifies truck`packages, truck`miles, truck`clock, truck`status, set p | p in truck.packages
    ensures old(truck.packages) == [] ==> r == Finished(begin)
    ensures r.Finished? ==> 0 <= r.time < DaySeconds
    ensures r.Finished? ==> r.time == if |truck.packages| == |old(truck.packages)| then begin else truck.clock
    ensures truck.status == if r.Finished? && old(truck.packages) != [] then AtHub else OutOnDeliveries
    ensures forall p :: p in truck.packages ==> p in old(truck.packages)
  {
    ghost var start := map p | p in truck.packages :: Look(p.address, p.status);
    ghost var manifest := truck.packages;
    ghost var last: Leg;
    r, last := d.BeginDelivery(truck, begin, end, fuel, start);
    HandedSplit(manifest, start, last.looks, truck.packages, last.delivered, truck.id, d.config.rightAddress);
  }

  /**
   * The time `begin_delivery` returns for `truck`, sent at `begin` holding
   * `loaded`: `begin` when it handed nothing over, otherwise its clock.
   */
  ghost function Returned(truck: Truck, loaded: seq<Package>, begin: int): int
    reads truck
  {
    if |truck.packages| == |loaded| then begin else truck.clock
  }

  /**
   * What the truck numbered `truckId` holds after `load_truck_with_packages`,
   * from the manifest `packages0` with `capacity0` free places: the indexed
   * parcels of its manifest up to the first id the index lacks, as many as
   * fit.
   */
  ghost function Loaded(d: Dispatcher, truckId: int, packages0: seq<Package>, capacity0: int): seq<Package>
    reads d
  {
    var ids := ManifestOf(d.config, truckId);
    packages0 + Fits(Parcels(ids[..Present(ids, d.index)], d.index), capacity0)
  }

  /**
   * The state the menu keeps the dispatcher in: trucks numbered 1, 2, ...
   * in order, and every parcel indexed or on a truck one of `parcels`.
   */
  ghost predicate Ready(d: Dispatcher, parcels: seq<Package>)
    reads d, set t | t in d.trucks
  {
    (forall i :: 0 <= i < |d.trucks| ==> d.trucks[i].id == i + 1) &&
    (forall p :: p in d.index.Values ==> p in parcels) &&
    (forall t, p :: t in d.trucks && p in t.packages ==> p in parcels)
  }

  /**
   * `load_truck_with_packages(truck_id)` as the menu calls it: the truck
   * numbered `truckId` takes its manifest as `Boarded` says, or loading
   * stops at the first id the index lacks; the other trucks keep their
   * parcels, capacity and clocks.
   */
  method Load(d: Dispatcher, truckId: int, ghost parcels: seq<Package>) returns (missing: Option<int>)
    requires Ready(d, parcels)
    modifies (set t | t in d.trucks), set p | p in parcels
    ensures Ready(d, parcels)
    ensures var ids := ManifestOf(d.config, truckId);
      missing == if 1 <= truckId <= |d.trucks| && Present(ids, d.index) < |ids| then Some(ids[Present(ids, d.index)]) else None
    ensures 1 <= truckId <= |d.trucks| ==>
      var truck, ids := d.trucks[truckId - 1], ManifestOf(d.config, truckId);
      d.Boarded(truck, Parcels(ids[..Present(ids, d.index)], d.index), old(truck.packages), old(truck.capacity), old(truck.clock),
                d.config.startTime)
    ensures forall i :: 0 <= i < |d.trucks| && i != truckId - 1 ==>
      d.trucks[i].packages == old(d.trucks[i].packages) && d.trucks[i].clock == old(d.trucks[i].clock) &&
      d.trucks[i].capacity == old(d.trucks[i].capacity)
  {
    FirstWithIdNumbered(d.trucks, truckId, 1);
    missing := d.LoadTruckWithPackages(truckId);
  }

  /**
   * `begin_delivery` on `trucks[k]` as the menu calls it: the time it
   * returns, `begin` when the truck hands nothing over and otherwise its
   * clock, or the exception it raises, `IndexError` when the fleet has no
   * truck at `k`. The truck keeps only parcels it set out with, and the
   * other trucks keep their parcels and clocks.
   */
  method Send(d: Dispatcher, k: nat, begin: int, end: int, fuel: nat, ghost parcels: seq<Package>) returns (r: Result<int>)
    requires Ready(d, parcels) && 0 <= begin < DaySeconds
    modifies (set t | t in d.trucks), set p | p in parcels
    ensures Ready(d, parcels)
    ensures k >= |d.trucks| ==> r == Err(NoTruck(k))
    ensures k < |d.trucks| && old(d.trucks[k].packages) == [] ==> r == Ok(begin)
    ensures k < |d.trucks| && r.Ok? ==>
      0 <= r.value < DaySeconds && r.value == Returned(d.trucks[k], old(d.trucks[k].packages), begin) &&
      d.trucks[k].status == if old(d.trucks[k].packages) != [] then AtHub else OutOnDeliveries
    ensures k < |d.trucks| ==> forall p :: p in d.trucks[k].packages ==> p in old(d.trucks[k].packages)
    ensures forall i :: 0 <= i < |d.trucks| ==> d.trucks[i].capacity == old(d.trucks[i].capacity)
    ensures forall i :: 0 <= i < |d.trucks| && i != k ==>
      d.trucks[i].packages == old(d.trucks[i].packages) && d.trucks[i].clock == old(d.trucks[i].clock)
  {
    if k >= |d.trucks| {
      return Err(NoTruck(k));
    }
    var route := RouteTruck(d, d.trucks[k], begin, end, fuel);
    r := Finish(route);
  }

  /**
   * The first part of `_start_dispatcher`: trucks 1 and 2 are loaded with
   * their manifests and sent from the start of the day; their finishing
   * times, or the first exception. Each finishing time is what
   * `begin_delivery` returned for that truck, from what it was loaded
   * with.
   */
  method FirstWave(d: Dispatcher, end: int, fuel: nat, ghost parcels: seq<Package>) returns (r: Result<(int, int)>)
    requires Ready(d, parcels) && 0 <= d.config.startTime < DaySeconds
    requires forall i :: 0 <= i < |d.trucks| ==> d.trucks[i].packages == []
    modifies (set t | t in d.trucks), set p | p in parcels
    ensures Ready(d, parcels)
    ensures var ids := d.config.truckOne;
      |d.trucks| >= 1 && Present(ids, d.index) < |ids| ==> r == Err(MissingParcel(ids[Present(ids, d.index)]))
    ensures var one, ids := d.config.truckOne, d.config.truckTwo;
      |d.trucks| >= 2 && Present(one, d.index) == |one| && Present(ids, d.index) < |ids| ==>
      r == Err(MissingParcel(ids[Present(ids, d.index)]))
    ensures r.Ok? ==> |d.trucks| >= 2 && 0 <= r.value.0 < DaySeconds && 0 <= r.value.1 < DaySeconds
    ensures r.Ok? && |d.trucks| >= 2 ==>
      r.value.0 == Returned(d.trucks[0], Loaded(d, 1, [], old(d.trucks[0].capacity)), d.config.startTime) &&
      r.value.1 == Returned(d.trucks[1], Loaded(d, 2, [], old(d.trucks[1].capacity)), d.config.startTime)
    ensures r.Ok? && d.config.truckOne == [] ==> r.value.0 == d.config.startTime
    ensures r.Ok? && d.config.truckTwo == [] ==> r.value.1 == d.config.startTime
    ensures forall i :: 2 <= i < |d.trucks| ==> d.trucks[i].packages == [] && d.trucks[i].capacity == old(d.trucks[i].capacity)
  {
    var missing := Load(d, 1, parcels);
    if missing.Some? {
      return Err(MissingParcel(missing.value));
    }
    missing := Load(d, 2, parcels);
    if missing.Some? {
      return Err(MissingParcel(missing.value));
    }
    var first := Send(d, 0, d.config.startTime, end, fuel, parcels);
    if first.Err? {
      return Err(first.abort);
    }
    var second := Send(d, 1, d.config.startTime, end, fuel, parcels);
    if second.Err? {
      return Err(second.abort);
    }
    r := Ok((first.value, second.value));
  }

  /**
   * The second part of `_start_dispatcher`: truck 3 is loaded and sent at
   * `start` only when time is left before `end`, and the result holds the
   * time its `begin_delivery` returned; otherwise its clock is set to
   * `end` and it stays as it was. `trucks[2]` past the end of the fleet
   * raises `IndexError` either way.
   */
  method ThirdTruck(d: Dispatcher, start: int, end: int, fuel: nat, ghost parcels: seq<Package>) returns (r: Result<Option<int>>)
    requires Ready(d, parcels) && 0 <= start < DaySeconds
    modifies (set t | t in d.trucks), set p | p in parcels
    ensures Ready(d, parcels)
    ensures r.Ok? ==> |d.trucks| >= 3 && (r.value.Some? <==> RemainingTime(start, end) > 0)
    ensures r.Ok? && r.value.None? && |d.trucks| >= 3 ==>
      d.trucks[2].clock == end && d.trucks[2].packages == old(d.trucks[2].packages)
    ensures var ids := d.config.truckThree;
      RemainingTime(start, end) > 0 && |d.trucks| >= 3 && Present(ids, d.index) < |ids| ==>
      r == Err(MissingParcel(ids[Present(ids, d.index)]))
    ensures r.Ok? && r.value.Some? && |d.trucks| >= 3 ==>
      var loaded := Loaded(d, 3, old(d.trucks[2].packages), old(d.trucks[2].capacity));
      r.value.value == Returned(d.trucks[2], loaded, start) && (forall p :: p in d.trucks[2].packages ==> p in loaded) &&
      d.trucks[2].status == if loaded != [] then AtHub else OutOnDeliveries
    ensures |d.trucks| < 3 ==> r.Err?
    ensures forall i :: 0 <= i < |d.trucks| && i != 2 ==>
      d.trucks[i].packages == old(d.trucks[i].packages) && d.trucks[i].clock == old(d.trucks[i].clock)
  {
    if RemainingTime(start, end) > 0 {
      var missing := Load(d, 3, parcels);
      if missing.Some? {
        return Err(MissingParcel(missing.value));
      }
      var third := Send(d, 2, start, end, fuel, parcels);
      if third.Err? {
        return Err(third.abort);
      }
      r := Ok(Some(third.value));
    } else {
      if |d.trucks| < 3 {
        return Err(NoTruck(2));
      }
      d.trucks[2].clock := end;
      r := Ok(None);
    }
  }

  /**
   * `_start_dispatcher` on the dispatcher the menu has just built: trucks
   * 1 and 2 are loaded and sent from the start of the day; truck 3 may
   * leave at the latest of their finishing times and the delayed start,
   * and is loaded and sent only when that leaves time before the end,
   * otherwise only its clock is moved to the end of the day.
   */
  method StartDispatcher(table: Table, depot: string, config: Config, rules: RuleTexts, parcels: seq<Package>,
                         stop: Option<int>, fuel: nat) returns (d: Dispatcher, r: Outcome)
    requires 0 <= config.startTime < DaySeconds && 0 <= config.delayedStart < DaySeconds
    modifies set p | p in parcels
    ensures fresh(d) && d.index == IndexOf(parcels) && d.config == config
    ensures config.truckCount >= 1 && Present(config.truckOne, d.index) < |config.truckOne| ==>
      r == Aborted(MissingParcel(config.truckOne[Present(config.truckOne, d.index)]))
    ensures var one, two := config.truckOne, config.truckTwo;
      config.truckCount >= 2 && Present(one, d.index) == |one| && Present(two, d.index) < |two| ==>
      r == Aborted(MissingParcel(two[Present(two, d.index)]))
    ensures r.Dispatched? ==>
      |d.trucks| >= 3 && 0 <= r.first < DaySeconds && 0 <= r.second < DaySeconds &&
      r.first == Returned(d.trucks[0], Loaded(d, 1, [], config.capacity), config.startTime) &&
      r.second == Returned(d.trucks[1], Loaded(d, 2, [], config.capacity), config.startTime) &&
      r.thirdStart == Latest(r.first, r.second, config.delayedStart) &&
      (r.third.Some? <==> RemainingTime(r.thirdStart, EndTime(stop, config)) > 0) &&
      (r.third.None? ==> d.trucks[2].clock == EndTime(stop, config) && d.trucks[2].packages == [])
    ensures r.Dispatched? && r.third.Some? && |d.trucks| >= 3 ==>
      r.third.value == Returned(d.trucks[2], Loaded(d, 3, [], config.capacity), r.thirdStart) &&
      forall p :: p in d.trucks[2].packages ==> p in Loaded(d, 3, [], config.capacity)
    ensures r.Dispatched? && config.truckOne == [] ==> r.first == config.startTime
    ensures r.Dispatched? && config.truckTwo == [] ==> r.second == config.startTime
    ensures config.truckCount < 3 ==> r.Aborted?
  {
    var end := EndTime(stop, config);
    d := new Dispatcher(table, depot, config, rules, parcels);
    var times := FirstWave(d, end, fuel, parcels);
    if times.Err? {
      return d, Aborted(times.abort);
    }
    var start := Latest(times.value.0, times.value.1, config.delayedStart);
    var third := ThirdTruck(d, start, end, fuel, parcels);
    if third.Err? {
      return d, Aborted(third.abort);
    }
    r := Dispatched(times.value.0, times.value.1, start, third.value);
  }
}
