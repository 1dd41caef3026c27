/** The block profiler: a table of sixteen named timers filled in order of
    first use. Starting a timer subtracts the clock reading from its running
    sum and stopping it adds the reading back, so each start/stop pair adds
    the elapsed ticks. The clock is a parameter of every operation that reads
    it. */
module Profiler {
  import opened Results
  import opened Int64

  /** A named timer; `sumDelta` is the elapsed ticks of every finished
      start/stop pair, minus the start reading of a pair still running. */
  datatype Timer = Timer(name: string, sumDelta: int)
  {
    /** Start a measurement at the unsigned clock reading `now`, cast to
        `i64` as the code does. */
    function Start(now: nat): Timer
      requires now < TWO_64
    {
      Timer(name, sumDelta - AsI64(now))
    }

    /** Stop a measurement at the unsigned clock reading `now`. */
    function Stop(now: nat): Timer
      requires now < TWO_64
    {
      Timer(name, sumDelta + AsI64(now))
    }
  }

  /** A timer that has measured nothing. */
  function NewTimer(name: string): (t: Timer)
    ensures t.name == name && t.sumDelta == 0
  {
    Timer(name, 0)
  }

  /** The number of timer slots. */
  const SLOTS := 16

  /** The profiler's state: the slots and how many of them are in use. */
  datatype Table = Table(slots: seq<Option<Timer>>, timers: nat)

  predicate Named(slot: Option<Timer>, name: string)
  {
    slot.Some? && slot.value.name == name
  }

  /** The slots in use are exactly the first `timers`, and no two timers
      share a name. */
  predicate WellFormed(t: Table)
  {
    && |t.slots| == SLOTS
    && t.timers <= SLOTS
    && (forall i :: 0 <= i < |t.slots| ==> (t.slots[i].Some? <==> i < t.timers))
    && (forall i, j :: 0 <= i < j < |t.slots| && t.slots[i].Some? && t.slots[j].Some? ==>
          t.slots[i].value.name != t.slots[j].value.name)
  }

  /** The first slot holding the timer called `name`. */
  function Lookup(slots: seq<Option<Timer>>, name: string): (r: Option<nat>)
    ensures r.Some? ==> r.value < |slots| && Named(slots[r.value], name)
    ensures r.Some? ==> forall k :: 0 <= k < r.value ==> !Named(slots[k], name)
    ensures r.None? <==> forall k :: 0 <= k < |slots| ==> !Named(slots[k], name)
  {
    if |slots| == 0 then None
    else if Named(slots[0], name) then Some(0)
    else match Lookup(slots[1..], name)
      case None => None
      case Some(j) => Some(j + 1)
  }

  /** `start(name)`: start the timer called `name`, taking the next free
      slot for a name not seen before; there is no slot after the last. */
  function StartSpec(t: Table, name: string, now: nat): Result<Table>
    requires now < TWO_64
  {
    match Lookup(t.slots, name)
    case Some(i) => Ok(Table(t.slots[i := Some(t.slots[i].value.Start(now))], t.timers))
    case None =>
      if t.timers >= |t.slots| then Panic("index out of bounds")
      else Ok(Table(t.slots[t.timers := Some(NewTimer(name).Start(now))], t.timers + 1))
  }

  /** `stop(name)`: stop the timer called `name`, which must exist. */
  function StopSpec(t: Table, name: string, now: nat): Result<Table>
    requires now < TWO_64
  {
    match Lookup(t.slots, name)
    case Some(i) => Ok(Table(t.slots[i := Some(t.slots[i].value.Stop(now))], t.timers))
    case None => Panic("Could not find sub timer")
  }

  /** The ticks of the slots in use, summed. */
  function Sum(slots: seq<Option<Timer>>): int
  {
    if |slots| == 0 then 0
    else Sum(slots[..|slots| - 1]) + (if slots[|slots| - 1].Some? then slots[|slots| - 1].value.sumDelta else 0)
  }

  /** The total in `report`: every timer's sum read as unsigned, added up. */
  function ReportedTotal(slots: seq<Option<Timer>>): int
  {
    if |slots| == 0 then 0
    else ReportedTotal(slots[..|slots| - 1]) + (if slots[|slots| - 1].Some? then AsU64(slots[|slots| - 1].value.sumDelta) else 0)
  }

  /** `start` keeps the table well formed. */
  lemma StartKeepsWellFormed(t: Table, name: string, now: nat)
    requires now < TWO_64 && WellFormed(t) && StartSpec(t, name, now).Ok?
    ensures WellFormed(StartSpec(t, name, now).value)
  {
  }

  /** `stop` keeps the table well formed. */
  lemma StopKeepsWellFormed(t: Table, name: string, now: nat)
    requires now < TWO_64 && WellFormed(t) && StopSpec(t, name, now).Ok?
    ensures WellFormed(StopSpec(t, name, now).value)
  {
  }

  /** `start` either finds the timer or puts a new one in the next free slot;
      it panics only when the name is new and all sixteen slots are taken,
      and it changes no other slot. */
  lemma StartFindsOrInserts(t: Table, name: string, now: nat)
    requires now < TWO_64 && WellFormed(t)
    ensures StartSpec(t, name, now).Panic? <==> Lookup(t.slots, name).None? && t.timers == SLOTS
    ensures StartSpec(t, name, now).Ok? ==>
      var u := StartSpec(t, name, now).value;
      var i := if Lookup(t.slots, name).Some? then Lookup(t.slots, name).value else t.timers;
      var before := if Lookup(t.slots, name).Some? then t.slots[i].value.sumDelta else 0;
      && u.timers == (if Lookup(t.slots, name).Some? then t.timers else t.timers + 1)
      && Lookup(u.slots, name) == Some(i)
      && u.slots[i] == Some(Timer(name, before - AsI64(now)))
      && forall k :: 0 <= k < |t.slots| && k != i ==> u.slots[k] == t.slots[k]
  {
    match Lookup(t.slots, name)
    case Some(i) =>
      var x := Some(Timer(name, t.slots[i].value.sumDelta - AsI64(now)));
      assert StartSpec(t, name, now) == Ok(Table(t.slots[i := x], t.timers));
      LookupAfterSet(t.slots, name, i, x);
      SetKeepsOthers(t.slots, i, x);
    case None =>
      if t.timers < |t.slots| {
        var x := Some(Timer(name, 0 - AsI64(now)));
        assert StartSpec(t, name, now) == Ok(Table(t.slots[t.timers := x], t.timers + 1));
        LookupAfterSet(t.slots, name, t.timers, x);
        SetKeepsOthers(t.slots, t.timers, x);
      }
  }

  lemma SetKeepsOthers(slots: seq<Option<Timer>>, i: nat, x: Option<Timer>)
    requires i < |slots|
    ensures slots[i := x][i] == x
    ensures forall k :: 0 <= k < |slots| && k != i ==> slots[i := x][k] == slots[k]
  {
  }

  /** Putting a timer called `name` at `i`, when no slot before `i` has that
      name, makes `i` the slot `Lookup` finds. */
  lemma LookupAfterSet(slots: seq<Option<Timer>>, name: string, i: nat, x: Option<Timer>)
    requires i < |slots| && Named(x, name) && forall k :: 0 <= k < i ==> !Named(slots[k], name)
    ensures Lookup(slots[i := x], name) == Some(i)
  {
    var u := slots[i := x];
    assert Named(u[i], name);
    assert forall k :: 0 <= k < i ==> !Named(u[k], name);
  }

  /** `stop` panics exactly on a name that was never started; otherwise it
      changes only that timer. */
  lemma StopChangesOne(t: Table, name: string, now: nat)
    requires now < TWO_64 && WellFormed(t)
    ensures StopSpec(t, name, now).Panic? <==> forall k :: 0 <= k < |t.slots| ==> !Named(t.slots[k], name)
    ensures StopSpec(t, name, now).Ok? ==>
      var u := StopSpec(t, name, now).value;
      var i := Lookup(t.slots, name).value;
      && u.timers == t.timers
      && u.slots[i] == Some(Timer(name, t.slots[i].value.sumDelta + AsI64(now)))
      && forall k :: 0 <= k < |t.slots| && k != i ==> u.slots[k] == t.slots[k]
  {
  }

  /** A start at `t1` followed by a stop at `t2` adds the difference of the
      two readings cast to `i64` (plainly `t2 - t1` while both are below
      2^63) to the timer called `name` and leaves every other slot as it
      was. */
  lemma StartThenStop(t: Table, name: string, t1: nat, t2: nat)
    requires t1 < TWO_64 && t2 < TWO_64 && WellFormed(t) && StartSpec(t, name, t1).Ok?
    ensures StopSpec(StartSpec(t, name, t1).value, name, t2).Ok?
    ensures
      var u := StopSpec(StartSpec(t, name, t1).value, name, t2).value;
      var i := if Lookup(t.slots, name).Some? then Lookup(t.slots, name).value else t.timers;
      var before := if Lookup(t.slots, name).Some? then t.slots[i].value.sumDelta else 0;
      && u.slots[i] == Some(Timer(name, before + (AsI64(t2) - AsI64(t1))))
      && forall k :: 0 <= k < |t.slots| && k != i ==> u.slots[k] == t.slots[k]
  {
    StartFindsOrInserts(t, name, t1);
    StartKeepsWellFormed(t, name, t1);
    StopChangesOne(StartSpec(t, name, t1).value, name, t2);
  }

  /** Replacing one slot moves the sum by the difference of the two timers. */
  lemma {:induction false} SumUpdate(slots: seq<Option<Timer>>, i: nat, x: Timer)
    requires i < |slots| && slots[i].Some?
    ensures Sum(slots[i := Some(x)]) == Sum(slots) - slots[i].value.sumDelta + x.sumDelta
    decreases |slots|
  {
    var n := |slots| - 1;
    var u := slots[i := Some(x)];
    if i < n {
      assert u[..n] == slots[..n][i := Some(x)];
      SumUpdate(slots[..n], i, x);
    } else {
      assert u[..n] == slots[..n];
    }
  }

  /** Filling an empty slot adds the new timer's ticks to the sum. */
  lemma {:induction false} SumFill(slots: seq<Option<Timer>>, i: nat, x: Timer)
    requires i < |slots| && slots[i].None?
    ensures Sum(slots[i := Some(x)]) == Sum(slots) + x.sumDelta
    decreases |slots|
  {
    var n := |slots| - 1;
    var u := slots[i := Some(x)];
    if i < n {
      assert u[..n] == slots[..n][i := Some(x)];
      SumFill(slots[..n], i, x);
    } else {
      assert u[..n] == slots[..n];
    }
  }

  /** A start at `t1` and a stop at `t2` add the same difference to the
      total. */
  lemma TotalOfStartStop(t: Table, name: string, t1: nat, t2: nat)
    requires t1 < TWO_64 && t2 < TWO_64 && WellFormed(t) && StartSpec(t, name, t1).Ok?
    ensures StopSpec(StartSpec(t, name, t1).value, name, t2).Ok?
    ensures Sum(StopSpec(StartSpec(t, name, t1).value, name, t2).value.slots) == Sum(t.slots) + (AsI64(t2) - AsI64(t1))
  {
    var u := StartSpec(t, name, t1).value;
    StartKeepsWellFormed(t, name, t1);
    StartFindsOrInserts(t, name, t1);
    match Lookup(t.slots, name) {
      case Some(i) =>
        SumUpdate(t.slots, i, t.slots[i].value.Start(t1));
      case None =>
        SumFill(t.slots, t.timers, NewTimer(name).Start(t1));
    }
    var j := Lookup(u.slots, name).value;
    SumUpdate(u.slots, j, u.slots[j].value.Stop(t2));
  }

  /** The total of a prefix of the slots is at most the total of all of
      them, so the `u64` sum overflows on the way iff the whole total does. */
  lemma {:induction false} ReportedTotalGrows(slots: seq<Option<Timer>>, i: nat)
    requires i <= |slots|
    ensures ReportedTotal(slots[..i]) <= ReportedTotal(slots)
    decreases |slots|
  {
    if i < |slots| {
      var n := |slots| - 1;
      assert slots[..n][..i] == slots[..i];
      ReportedTotalGrows(slots[..n], i);
    } else {
      assert slots[..i] == slots;
    }
  }

  /** When no timer is running (every sum fits an unsigned 64-bit count),
      the reported total is the plain sum of the timers. */
  lemma {:induction false} ReportedIsSum(slots: seq<Option<Timer>>)
    requires forall k :: 0 <= k < |slots| && slots[k].Some? ==> 0 <= slots[k].value.sumDelta < 0x1_0000_0000_0000_0000
    ensures ReportedTotal(slots) == Sum(slots)
    decreases |slots|
  {
    if |slots| > 0 {
      ReportedIsSum(slots[..|slots| - 1]);
    }
  }

  /** The profiler itself: the slot array is updated in place. */
  class Profiler {
    const subTimers: array<Option<Timer>>
    var timers: nat

    ghost function Snapshot(): Table
      reads this, subTimers
    {
      Table(subTimers[..], timers)
    }

    ghost predicate Valid()
      reads this, subTimers
    {
      WellFormed(Snapshot())
    }

    /** `Profiler::new`: sixteen empty slots. */
    constructor()
      ensures Valid() && fresh(subTimers)
      ensures timers == 0 && subTimers.Length == SLOTS
      ensures forall k :: 0 <= k < subTimers.Length ==> subTimers[k].None?
    {
      subTimers := new Option<Timer>[SLOTS](_ => None);
      timers := 0;
    }

    /** `get_timer_mut`: the first slot holding the timer called `name`. */
    method GetTimer(name: string) returns (r: Option<nat>)
      ensures r == Lookup(subTimers[..], name)
    {
      var i := 0;
      while i < subTimers.Length
        invariant 0 <= i <= subTimers.Length
        invariant forall k :: 0 <= k < i ==> !Named(subTimers[k], name)
      {
        if Named(subTimers[i], name) {
          LookupIs(subTimers[..], name, i);
          return Some(i);
        }
        i := i + 1;
      }
      r := None;
    }

    /** `start(name)` at clock reading `now`. */
    method Start(name: string, now: nat) returns (r: Result<()>)
      requires now < TWO_64 && Valid()
      modifies this, subTimers
      ensures Valid()
      ensures r.Ok? <==> StartSpec(old(Snapshot()), name, now).Ok?
      ensures r.Ok? ==> Snapshot() == StartSpec(old(Snapshot()), name, now).value
      ensures r.Panic? ==> Snapshot() == old(Snapshot())
    {
      ghost var before := Snapshot();
      var found := GetTimer(name);
      if found.Some? {
        var i := found.value;
        subTimers[i] := Some(subTimers[i].value.Start(now));
      } else {
        if timers >= subTimers.Length {
          return Panic("index out of bounds");
        }
        subTimers[timers] := Some(NewTimer(name));
        timers := timers + 1;
        subTimers[timers - 1] := Some(subTimers[timers - 1].value.Start(now));
      }
      StartKeepsWellFormed(before, name, now);
      r := Ok(());
    }

    /** `stop(name)` at clock reading `now`. */
    method Stop(name: string, now: nat) returns (r: Result<()>)
      requires now < TWO_64 && Valid()
      modifies subTimers
      ensures Valid()
      ensures r.Ok? <==> StopSpec(old(Snapshot()), name, now).Ok?
      ensures r.Ok? ==> Snapshot() == StopSpec(old(Snapshot()), name, now).value
      ensures r.Panic? ==> Snapshot() == old(Snapshot())
    {
      ghost var before := Snapshot();
      var found := GetTimer(name);
      if found.None? {
        return Panic("Could not find sub timer");
      }
      var i := found.value;
      subTimers[i] := Some(subTimers[i].value.Stop(now));
      StopKeepsWellFormed(before, name, now);
      r := Ok(());
    }

    /** The total printed by `report`: the `u64` sum, which panics once
        the total reaches 2^64. */
    method ReportTotal() returns (r: Result<nat>)
      ensures r.Panic? <==> ReportedTotal(subTimers[..]) >= TWO_64
      ensures r.Ok? ==> r.value == ReportedTotal(subTimers[..])
    {
      var total: nat := 0;
      var i := 0;
      while i < subTimers.Length
        invariant 0 <= i <= subTimers.Length
        invariant total == ReportedTotal(subTimers[..i]) < TWO_64
      {
        assert subTimers[..i + 1][..i] == subTimers[..i];
        if subTimers[i].Some? {
          if total + AsU64(subTimers[i].value.sumDelta) >= TWO_64 {
            ReportedTotalGrows(subTimers[..], i + 1);
            return Panic("attempt to add with overflow");
          }
          total := total + AsU64(subTimers[i].value.sumDelta);
        }
        i := i + 1;
      }
      assert subTimers[..i] == subTimers[..];
      r := Ok(total);
    }
  }

  /** A slot holding `name` with none before it is the one `Lookup` finds. */
  lemma LookupIs(slots: seq<Option<Timer>>, name: string, i: nat)
    requires i < |slots| && Named(slots[i], name)
    requires forall k :: 0 <= k < i ==> !Named(slots[k], name)
    ensures Lookup(slots, name) == Some(i)
  {
  }
}
