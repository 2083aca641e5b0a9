/**
 * The processor schedulers of
 * ch3_Dynamic_Programming_Recursion/03_DpImprovingAnApplication/main.py.
 *
 * Each scheduler keeps a module-level dict from processor number to the
 * time its running process still needs; a slot holding 0 is idle. The
 * dict's keys are always 0 .. n-1 inserted in order, so it is a sequence
 * here, slot `i` at index `i`, and its items in iteration order are
 * `Items(slots)`. A call picks the next process and the processor it
 * runs on; the exceptions the source raises (`min` of an empty sequence,
 * `processes[0]` of an empty list) are `None`.
 */
module Schedulers {
  import opened Wrappers
  import opened Models

  /** The keys whose value is `value`, in the order of `items`. */
  function KeysWith<K, V(==)>(items: seq<(K, V)>, value: V): (r: seq<K>)
    ensures |r| <= |items|
  {
    if |items| == 0 then []
    else KeysWith(items[..|items| - 1], value) + (if items[|items| - 1].1 == value then [items[|items| - 1].0] else [])
  }

  /** Every key `KeysWith` returns has the value, and every key with the value is returned. */
  lemma {:induction false} KeysWithExactly<K, V>(items: seq<(K, V)>, value: V, key: K)
    ensures key in KeysWith(items, value) <==> (key, value) in items
  {
    if |items| > 0 {
      var init := items[..|items| - 1];
      KeysWithExactly(init, value, key);
      assert items == init + [items[|items| - 1]];
    }
  }

  /**
   * `get_keys_by_value`: walks the items in order and collects the key of
   * every item whose value is `value`.
   */
  method GetKeysByValue<K, V(==)>(items: seq<(K, V)>, value: V) returns (keys: seq<K>)
    ensures keys == KeysWith(items, value)
  {
    keys := [];
    for i := 0 to |items|
      invariant keys == KeysWith(items[..i], value)
    {
      assert items[..i + 1][..i] == items[..i];
      if items[i].1 == value {
        keys := keys + [items[i].0];
      }
    }
    assert items[..|items|] == items;
  }

  /** The items of a dict keyed 0 .. n-1 in insertion order. */
  function Items(slots: seq<int>): (r: seq<(int, int)>)
    ensures |r| == |slots| && forall i :: 0 <= i < |slots| ==> r[i] == (i, slots[i])
  {
    seq(|slots|, i requires 0 <= i < |slots| => (i, slots[i]))
  }

  /** `FirstIndex` characterised: the one index holding `x` with no `x` before it. */
  lemma FirstIndexIs<T>(s: seq<T>, x: T, i: nat)
    requires i < |s| && s[i] == x && x !in s[..i]
    ensures FirstIndex(s, x) == i
  {
  }

  /** Over a processor dict, the first key with a value is the first slot holding it; there is one iff some slot does. */
  lemma {:induction false} KeysOfSlots(slots: seq<int>, value: int)
    ensures |KeysWith(Items(slots), value)| > 0 <==> value in slots
    ensures value in slots ==> KeysWith(Items(slots), value)[0] == FirstIndex(slots, value)
  {
    if |slots| > 0 {
      var n := |slots| - 1;
      var init := slots[..n];
      assert Items(slots)[..n] == Items(init);
      KeysOfSlots(init, value);
      assert slots == init + [slots[n]];
      if value in init {
        var k := FirstIndex(init, value);
        assert init[..k] == slots[..k];
        FirstIndexIs(slots, value, k);
      } else if slots[n] == value {
        assert slots[..n] == init;
        FirstIndexIs(slots, value, n);
      }
    }
  }

  /** `min` of a non-empty sequence: a member no member is below. */
  function MinOf(s: seq<int>): (m: int)
    requires |s| > 0
    ensures m in s && forall i :: 0 <= i < |s| ==> m <= s[i]
  {
    if |s| == 1 then s[0]
    else
      var m := MinOf(s[..|s| - 1]);
      assert forall i :: 0 <= i < |s| - 1 ==> s[..|s| - 1][i] == s[i];
      if s[|s| - 1] < m then s[|s| - 1] else m
  }

  /** Every slot with `d` taken off. */
  function Shift(slots: seq<int>, d: int): (r: seq<int>)
    ensures |r| == |slots| && forall i :: 0 <= i < |slots| ==> r[i] == slots[i] - d
  {
    seq(|slots|, i requires 0 <= i < |slots| => slots[i] - d)
  }

  /** The dict a scheduler works on: one idle slot per processor when it was empty, else as it was. */
  function Started(slots: seq<int>, processorCount: nat): (r: seq<int>)
    ensures |slots| > 0 ==> r == slots
    ensures |slots| == 0 ==> |r| == processorCount && forall i :: 0 <= i < processorCount ==> r[i] == 0
  {
    if |slots| == 0 then seq(processorCount, _ => 0) else slots
  }

  /** A scheduling decision: the index of the process to run and the processor it goes to. */
  datatype Pick = Pick(process: nat, processor: nat)

  /** What one call gives back and the dict it leaves. */
  datatype Step = Step(pick: Option<Pick>, slots: seq<int>)

  /**
   * `first_come_first_served_scheduler`: the first process goes to the
   * first idle processor; when all are busy, time moves on until the first
   * one finishes (every slot loses the smallest remaining time) and the
   * process goes to the first processor that held that smallest time.
   */
  function Fcfs(slots: seq<int>, processes: seq<int>, processorCount: nat): Step {
    var s := Started(slots, processorCount);
    if 0 in s then
      var k := FirstIndex(s, 0);
      if |processes| == 0 then Step(None, s) else Step(Some(Pick(0, k)), s[k := processes[0]])
    else if |s| == 0 then Step(None, s)
    else
      var m := MinOf(s);
      var k := FirstIndex(s, m);
      var t := Shift(s, m);
      if |processes| == 0 then Step(None, t) else Step(Some(Pick(0, k)), t[k := processes[0]])
  }

  /**
   * `shortest_process_first_scheduler`: the shortest process (its first
   * index) goes to the first idle processor; when all are busy, every slot
   * loses the smallest remaining time and the process goes to the first
   * processor that reached 0.
   */
  function Spf(slots: seq<int>, processes: seq<int>, processorCount: nat): Step {
    var s := Started(slots, processorCount);
    if 0 in s then
      var k := FirstIndex(s, 0);
      if |processes| == 0 then Step(None, s)
      else
        var shortest := MinOf(processes);
        Step(Some(Pick(FirstIndex(processes, shortest), k)), s[k := shortest])
    else if |s| == 0 || |processes| == 0 then Step(None, s)
    else
      var t := Shift(s, MinOf(s));
      var k := FirstIndex(t, 0);
      var p := FirstIndex(processes, MinOf(processes));
      Step(Some(Pick(p, k)), t[k := processes[p]])
  }

  /**
   * First come first served always runs process 0; with an idle processor
   * it takes the first idle one, and only that slot changes, to the
   * process's time.
   */
  lemma FcfsIdle(slots: seq<int>, processes: seq<int>, processorCount: nat)
    requires 0 in Started(slots, processorCount) && |processes| > 0
    ensures var s, r := Started(slots, processorCount), Fcfs(slots, processes, processorCount);
      r.pick.Some? && r.pick.value.process == 0 && r.pick.value.processor < |s| &&
      s[r.pick.value.processor] == 0 && 0 !in s[..r.pick.value.processor] &&
      r.slots == s[r.pick.value.processor := processes[0]]
  {
  }

  /**
   * With every processor busy, first come first served takes the first
   * processor holding the smallest remaining time; every other slot loses
   * that time and stays non-negative, and the chosen slot gets process 0.
   */
  lemma FcfsBusy(slots: seq<int>, processes: seq<int>, processorCount: nat)
    requires var s := Started(slots, processorCount); 0 !in s && |s| > 0 && |processes| > 0
    ensures var s, r := Started(slots, processorCount), Fcfs(slots, processes, processorCount);
      r.pick.Some? && r.pick.value.process == 0 && r.pick.value.processor < |s| &&
      (forall i :: 0 <= i < |s| ==> s[r.pick.value.processor] <= s[i]) &&
      (forall i :: 0 <= i < r.pick.value.processor ==> s[r.pick.value.processor] < s[i]) &&
      |r.slots| == |s| && r.slots[r.pick.value.processor] == processes[0] &&
      forall i :: 0 <= i < |s| && i != r.pick.value.processor ==>
        r.slots[i] == s[i] - s[r.pick.value.processor] && r.slots[i] >= 0
  {
    var s := Started(slots, processorCount);
    var k := FirstIndex(s, MinOf(s));
    forall i | 0 <= i < k ensures s[k] < s[i] {
      assert s[..k][i] == s[i];
    }
  }

  /**
   * Shortest process first runs the first of the shortest processes, and
   * the slot it chooses then holds that process's time.
   */
  lemma SpfRunsShortest(slots: seq<int>, processes: seq<int>, processorCount: nat)
    requires |Started(slots, processorCount)| > 0 && |processes| > 0
    ensures var r := Spf(slots, processes, processorCount);
      r.pick.Some? && r.pick.value.process < |processes| &&
      (forall j :: 0 <= j < |processes| ==> processes[r.pick.value.process] <= processes[j]) &&
      (forall j :: 0 <= j < r.pick.value.process ==> processes[r.pick.value.process] < processes[j]) &&
      r.pick.value.processor < |r.slots| && r.slots[r.pick.value.processor] == processes[r.pick.value.process]
  {
    var p := FirstIndex(processes, MinOf(processes));
    forall j | 0 <= j < p ensures processes[p] < processes[j] {
      assert processes[..p][j] == processes[j];
    }
    var s := Started(slots, processorCount);
    if 0 !in s {
      ShiftFirstZero(s);
    }
  }

  /**
   * Taking the smallest remaining time off every slot leaves the first
   * zero exactly where the smallest time first stood.
   */
  lemma ShiftFirstZero(s: seq<int>)
    requires |s| > 0
    ensures 0 in Shift(s, MinOf(s)) && FirstIndex(Shift(s, MinOf(s)), 0) == FirstIndex(s, MinOf(s))
  {
    var m := MinOf(s);
    var k := FirstIndex(s, m);
    ZeroWhereMinimum(s, m, k);
  }

  /** Taking `m` off every slot puts the first zero where `m` first stood. */
  lemma ZeroWhereMinimum(s: seq<int>, m: int, k: nat)
    requires k < |s| && s[k] == m && m !in s[..k]
    ensures 0 in Shift(s, m) && FirstIndex(Shift(s, m), 0) == k
  {
    var t := Shift(s, m);
    assert t[k] == 0;
    assert 0 !in t[..k] by {
      forall i | 0 <= i < k ensures t[..k][i] != 0 {
        assert s[..k][i] == s[i];
      }
    }
    FirstIndexIs(t, 0, k);
  }

  /** With every processor busy, both schedulers hand the next process to the same processor. */
  lemma BusySchedulersAgree(slots: seq<int>, processes: seq<int>, processorCount: nat)
    requires var s := Started(slots, processorCount); 0 !in s && |s| > 0 && |processes| > 0
    ensures Fcfs(slots, processes, processorCount).pick.value.processor ==
      Spf(slots, processes, processorCount).pick.value.processor
  {
    ShiftFirstZero(Started(slots, processorCount));
  }

  /** Remaining times never go negative while every process time is non-negative, under either scheduler. */
  lemma SlotsStayNonNegative(slots: seq<int>, processes: seq<int>, processorCount: nat)
    requires forall i :: 0 <= i < |slots| ==> slots[i] >= 0
    requires forall j :: 0 <= j < |processes| ==> processes[j] >= 0
    ensures var r := Fcfs(slots, processes, processorCount); forall i :: 0 <= i < |r.slots| ==> r.slots[i] >= 0
    ensures var r := Spf(slots, processes, processorCount); forall i :: 0 <= i < |r.slots| ==> r.slots[i] >= 0
  {
  }

  /**
   * The dict of one scheduler (`dict_of_process` for first come first
   * served, `dict_of_prioritized_process` for shortest process first).
   */
  class Processors {
    var slots: seq<int>

    /** The module starts with an empty dict. */
    constructor ()
      ensures slots == []
    {
      slots := [];
    }

    /** When the dict is empty, one idle slot per processor, keys in order. */
    method Start(processorCount: nat)
      modifies this
      ensures slots == Started(old(slots), processorCount)
    {
      if |slots| == 0 {
        for i := 0 to processorCount
          invariant |slots| == i && forall j :: 0 <= j < i ==> slots[j] == 0
        {
          slots := slots + [0];
        }
      }
    }

    /** `for i in range(len(d)): d[i] -= d_min`. */
    method TakeOff(d: int)
      modifies this
      ensures slots == Shift(old(slots), d)
    {
      ghost var before := slots;
      for i := 0 to |slots|
        invariant |slots| == |before|
        invariant forall j :: 0 <= j < i ==> slots[j] == before[j] - d
        invariant forall j :: i <= j < |slots| ==> slots[j] == before[j]
      {
        slots := slots[i := slots[i] - d];
      }
    }

    /** `first_come_first_served_scheduler(processes, processors)` with `processorCount == len(processors)`. */
    method FirstComeFirstServed(processes: seq<int>, processorCount: nat) returns (pick: Option<Pick>)
      modifies this
      ensures Step(pick, slots) == Fcfs(old(slots), processes, processorCount)
    {
      Start(processorCount);
      var idle := GetKeysByValue(Items(slots), 0);
      KeysOfSlots(slots, 0);
      if |idle| > 0 {
        if |processes| == 0 {
          return None;
        }
        slots := slots[idle[0] := processes[0]];
        return Some(Pick(0, idle[0]));
      }
      if |slots| == 0 {
        return None;
      }
      var first := MinOf(slots);
      var finishing := GetKeysByValue(Items(slots), first);
      KeysOfSlots(slots, first);
      TakeOff(first);
      if |processes| == 0 {
        return None;
      }
      slots := slots[finishing[0] := processes[0]];
      pick := Some(Pick(0, finishing[0]));
    }

    /** `shortest_process_first_scheduler(processes, processors)` with `processorCount == len(processors)`. */
    method ShortestProcessFirst(processes: seq<int>, processorCount: nat) returns (pick: Option<Pick>)
      modifies this
      ensures Step(pick, slots) == Spf(old(slots), processes, processorCount)
    {
      Start(processorCount);
      var idle := GetKeysByValue(Items(slots), 0);
      KeysOfSlots(slots, 0);
      if |idle| > 0 {
        if |processes| == 0 {
          return None;
        }
        var shortest := MinOf(processes);
        slots := slots[idle[0] := shortest];
        return Some(Pick(FirstIndex(processes, shortest), idle[0]));
      }
      if |slots| == 0 || |processes| == 0 {
        return None;
      }
      var first := MinOf(slots);
      var p := FirstIndex(processes, MinOf(processes));
      TakeOff(first);
      var finished := GetKeysByValue(Items(slots), 0);
      ShiftFirstZero(old(Started(slots, processorCount)));
      KeysOfSlots(slots, 0);
      slots := slots[finished[0] := processes[p]];
      pick := Some(Pick(p, finished[0]));
    }
  }
}
