/**
 * The business rules of `_is_package_deliverable`
 * (Project/dispatch/dispatcher.py): a parcel's note decides whether the
 * truck may hand it over now. The rule texts (BR_* constants) are not
 * defined in Project/constants.py, so they are parameters here.
 */
module DeliveryRules {

  /** The BR_* note texts the rules compare a note against. */
  datatype RuleTexts = RuleTexts(
    delayed: string,               // BR_DELAYED_UNTIL_NINE_FIVE
    wrongAddress: string,          // BR_WRONG_ADDRESS
    truckTwoOnly: string,          // BR_ONLY_IN_TRUCK_TWO
    mustBeDelivered: set<string>,  // BR_MUST_BE_DELIVERED
    withOne: string,               // BR_MUST_BE_DELIVERED_WITH_ONE
    withTwo: string,               // BR_MUST_BE_DELIVERED_WITH_TWO
    withThree: string              // BR_MUST_BE_DELIVERED_WITH_THREE
  )

  /** The rule a note selects. */
  datatype Rule = NoRule | DelayedStart | WrongAddress | TruckTwoOnly | WithOne | WithTwo | WithThree | Unrecognised

  /**
   * Python's answer: True, False, or the None a function returns when it
   * falls off its end. Only True lets a parcel go.
   */
  datatype Verdict = Yes | No | Undecided

  /**
   * The rule for a note, found by the comparisons of the source in their
   * order: the empty note first, then the single rules, then the
   * co-delivery family; a note of that family that is none of its three
   * texts, and any other note, is unrecognised.
   */
  function Classify(note: string, t: RuleTexts): (r: Rule)
    ensures r == NoRule <==> note == ""
    ensures r == Unrecognised <==>
      note != "" && note != t.delayed && note != t.wrongAddress && note != t.truckTwoOnly &&
      (note !in t.mustBeDelivered || (note != t.withOne && note != t.withTwo && note != t.withThree))
  {
    if note == "" then NoRule
    else if note == t.delayed then DelayedStart
    else if note == t.wrongAddress then WrongAddress
    else if note == t.truckTwoOnly then TruckTwoOnly
    else if note in t.mustBeDelivered then
      if note == t.withOne then WithOne
      else if note == t.withTwo then WithTwo
      else if note == t.withThree then WithThree
      else Unrecognised
    else Unrecognised
  }

  /** The two parcel ids a co-delivery rule asks for: 13 and 15, 13 and 19, or 19 and 15. */
  function Partners(rule: Rule): (int, int)
    requires rule in {WithOne, WithTwo, WithThree}
  {
    match rule
    case WithOne => (13, 15)
    case WithTwo => (13, 19)
    case WithThree => (19, 15)
  }

  /** How many of `ids` are `a` or `b`. */
  function CountPartners(ids: seq<int>, a: int, b: int): (n: nat)
    ensures n <= |ids|
    ensures n == 0 <==> a !in ids && b !in ids
  {
    if |ids| == 0 then 0
    else CountPartners(ids[..|ids| - 1], a, b) + (if ids[|ids| - 1] == a || ids[|ids| - 1] == b then 1 else 0)
  }

  /** Counting over two lists one after the other adds the counts. */
  lemma {:induction false} CountPartnersAppend(xs: seq<int>, ys: seq<int>, a: int, b: int)
    ensures CountPartners(xs + ys, a, b) == CountPartners(xs, a, b) + CountPartners(ys, a, b)
    decreases |ys|
  {
    if |ys| > 0 {
      assert (xs + ys)[..|xs + ys| - 1] == xs + ys[..|ys| - 1];
      CountPartnersAppend(xs, ys[..|ys| - 1], a, b);
    } else {
      assert xs + ys == xs;
    }
  }

  /**
   * Among distinct ids, the count of `a` and `b` is the number of the two
   * that are present.
   */
  lemma {:induction false} CountPartnersDistinct(ids: seq<int>, a: int, b: int)
    requires a != b && forall i, j :: 0 <= i < j < |ids| ==> ids[i] != ids[j]
    ensures CountPartners(ids, a, b) == (if a in ids then 1 else 0) + (if b in ids then 1 else 0)
    decreases |ids|
  {
    if |ids| > 0 {
      var init, last := ids[..|ids| - 1], ids[|ids| - 1];
      CountPartnersDistinct(init, a, b);
      assert ids == init + [last];
      assert forall i :: 0 <= i < |init| ==> init[i] == ids[i] && ids[i] != ids[|ids| - 1];
    }
  }

  /**
   * The estimated arrival of the wrong-address rule: the travel seconds cut
   * to minutes and seconds (`(t // 60) % 60` minutes and `t % 60` seconds),
   * added to the truck's time of day, wrapping at midnight.
   */
  function Arrival(clock: int, eta: int): int {
    (clock + ((eta / 60) % 60) * 60 + eta % 60) % 86400
  }

  /** Whole minutes within the hour and leftover seconds make up the seconds past the hour. */
  lemma MinutesAndSeconds(e: int)
    ensures ((e / 60) % 60) * 60 + e % 60 == e % 3600
  {
    var q, r := e / 60, e % 60;
    var h, m := q / 60, q % 60;
    assert e == 3600 * h + (60 * m + r);
    HourRemainder(e, h, 60 * m + r);
  }

  /** The remainder modulo an hour, from any split into whole hours and a rest below an hour. */
  lemma HourRemainder(e: int, h: int, rest: int)
    requires e == 3600 * h + rest && 0 <= rest < 3600
    ensures e % 3600 == rest
  {
  }

  /** The arrival estimate keeps only the travel time modulo an hour: whole hours of driving are lost. */
  lemma ArrivalDropsHours(clock: int, eta: int)
    ensures Arrival(clock, eta) == (clock + eta % 3600) % 86400
    ensures Arrival(clock, eta + 3600) == Arrival(clock, eta)
  {
    MinutesAndSeconds(eta);
    MinutesAndSeconds(eta + 3600);
    HourRemainder(eta + 3600, eta / 3600 + 1, eta % 3600);
  }

  /**
   * The verdict on a parcel whose note selects `rule`, carried by truck
   * `truckId` whose clock reads `clock`, with `manifest` on board and
   * `delivered` already handed over, `eta` seconds of travel away.
   */
  function Decide(rule: Rule, truckId: int, clock: int, manifest: seq<int>, delivered: seq<int>, eta: int,
                  delayedStart: int, newAddressTime: int): (v: Verdict)
    ensures v == Undecided <==> rule == Unrecognised
    ensures rule == NoRule ==> v == Yes
    ensures rule == DelayedStart ==> (v == Yes <==> clock >= delayedStart)
    ensures rule == TruckTwoOnly ==> (v == Yes <==> truckId == 2)
    ensures rule == WrongAddress ==> (v == Yes <==> (clock + eta % 3600) % 86400 >= newAddressTime)
    ensures rule in {WithOne, WithTwo, WithThree} ==>
      (v == Yes <==> CountPartners(manifest + delivered, Partners(rule).0, Partners(rule).1) == 2)
  {
    match rule
    case NoRule => Yes
    case DelayedStart => if clock >= delayedStart then Yes else No
    case WrongAddress =>
      ArrivalDropsHours(clock, eta);
      if Arrival(clock, eta) >= newAddressTime then Yes else No
    case TruckTwoOnly => if truckId == 2 then Yes else No
    case Unrecognised => Undecided
    case _ =>
      var (a, b) := Partners(rule);
      CountPartnersAppend(manifest, delivered, a, b);
      if CountPartners(manifest, a, b) + CountPartners(delivered, a, b) == 2 then Yes else No
  }

  /**
   * A co-delivery parcel goes only with both partners on board or already
   * delivered; when no id is listed twice, having both is also enough.
   */
  lemma CoDeliveryNeedsBoth(rule: Rule, truckId: int, clock: int, manifest: seq<int>, delivered: seq<int>, eta: int,
                            delayedStart: int, newAddressTime: int)
    requires rule in {WithOne, WithTwo, WithThree}
    requires forall i, j :: 0 <= i < j < |manifest + delivered| ==> (manifest + delivered)[i] != (manifest + delivered)[j]
    ensures var (a, b) := Partners(rule);
      Decide(rule, truckId, clock, manifest, delivered, eta, delayedStart, newAddressTime) == Yes <==>
      (a in manifest || a in delivered) && (b in manifest || b in delivered)
  {
    var (a, b) := Partners(rule);
    CountPartnersDistinct(manifest + delivered, a, b);
  }

  /** A parcel held back for its delayed start goes once the clock reaches the start, and stays deliverable later. */
  lemma DelayedStartMonotone(truckId: int, c1: int, c2: int, manifest: seq<int>, delivered: seq<int>, eta: int,
                             delayedStart: int, newAddressTime: int)
    requires c1 <= c2 && Decide(DelayedStart, truckId, c1, manifest, delivered, eta, delayedStart, newAddressTime) == Yes
    ensures Decide(DelayedStart, truckId, c2, manifest, delivered, eta, delayedStart, newAddressTime) == Yes
  {
  }
}
