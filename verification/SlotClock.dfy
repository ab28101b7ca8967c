/** The slot counter and its clock: hw_api/lnx/src/hwapi_linux_time.c and syncTslot of
    hw_api/lnx/src/hwapi_backd_exec.c. */
module SlotClock {
  import opened Arithmetic

  const SECOND := 1000000

  datatype Time = Time(sec: int, usec: int)

  /** A time of day in the range that timeradd and timersub work on. */
  predicate Normal(t: Time) {
    0 <= t.usec < SECOND
  }

  function Micros(t: Time): int {
    t.sec * SECOND + t.usec
  }

  predicate Before(a: Time, b: Time) {
    a.sec < b.sec || (a.sec == b.sec && a.usec < b.usec)
  }

  lemma {:induction false} BeforeIsLess(a: Time, b: Time)
    requires Normal(a) && Normal(b)
    ensures Before(a, b) <==> Micros(a) < Micros(b)
    ensures Micros(a) == Micros(b) ==> a == b
  {}

  /** time_to_tstamp: the slot that contains a time. */
  function TimeToTstamp(t: Time, tslen: nat): int
    requires tslen >= 1
  {
    Micros(t) / tslen
  }

  /** tstamp_to_time: the instant at which a slot begins. */
  function TstampToTime(tstamp: nat, tslen: nat): Time {
    var x := tstamp * tslen;
    var sec := x / SECOND;
    Time(sec, x - sec * SECOND)
  }

  lemma {:induction false} SlotBegin(tstamp: nat, tslen: nat)
    ensures var t := TstampToTime(tstamp, tslen);
            Normal(t) && t.sec >= 0 && Micros(t) == tstamp * tslen
  {
    MulLeft(tslen, 0, tstamp);
  }

  /** A time lies in slot k exactly when it is not before its begin and before the next. */
  lemma {:induction false} InSlotIff(t: Time, k: nat, tslen: nat)
    requires tslen >= 1 && Normal(t) && t.sec >= 0
    ensures TimeToTstamp(t, tslen) == k
       <==> !Before(t, TstampToTime(k, tslen)) && Before(t, TstampToTime(k + 1, tslen))
  {
    var x: nat := Micros(t);
    var begin, next := TstampToTime(k, tslen), TstampToTime(k + 1, tslen);
    assert TimeToTstamp(t, tslen) == x / tslen;
    SlotBegin(k, tslen);
    SlotBegin(k + 1, tslen);
    BeforeIsLess(t, begin);
    BeforeIsLess(t, next);
    hide *;
    WholeUnits(k, tslen, x);
    WholeUnits(k + 1, tslen, x);
    assert k * tslen == tslen * k && (k + 1) * tslen == tslen * (k + 1);
  }

  /** The conversions are inverse on slot begins. */
  lemma {:induction false} SlotBeginRoundTrip(k: nat, tslen: nat)
    requires tslen >= 1
    ensures TimeToTstamp(TstampToTime(k, tslen), tslen) == k
  {
    SlotBegin(k, tslen);
    DivModUnique(k * tslen, tslen, k, 0);
  }

  /** get_time_interval: element 0 becomes the time from element 1 to element 2. */
  method GetTimeInterval(tdata: array<Time>)
    requires tdata.Length >= 3 && Normal(tdata[1]) && Normal(tdata[2])
    modifies tdata
    ensures Normal(tdata[0]) && Micros(tdata[0]) == Micros(tdata[2]) - Micros(tdata[1])
    ensures tdata[1..] == old(tdata[1..])
  {
    var sec := tdata[2].sec - tdata[1].sec;
    var usec := tdata[2].usec - tdata[1].usec;
    if usec < 0 {
      sec := sec - 1;
      usec := usec + SECOND;
    }
    tdata[0] := Time(sec, usec);
  }

  /** The slot that a step of the clock leads to. */
  function NextSlot(tslot: nat, newTstamp: nat, nextTs: int, lastOffset: bool): nat {
    if newTstamp != 0 && nextTs == 0 then newTstamp + (if lastOffset then 2 else 1) else tslot + 1
  }

  // ----- histories

  datatype Action = Sync(tstamp: nat, usec: int) | Tick

  /** Slot, slot number asked for, timer correction waiting, and whether one was negative. */
  datatype ClockState = ClockState(tslot: nat, newTstamp: nat, nextTs: int, lastOffset: bool)

  function Act(s: ClockState, a: Action): ClockState {
    match a
    case Sync(t, u) => s.(newTstamp := t, nextTs := u)
    case Tick =>
      ClockState(NextSlot(s.tslot, s.newTstamp, s.nextTs, s.lastOffset),
                 if s.newTstamp != 0 && s.nextTs == 0 then 0 else s.newTstamp,
                 0, s.lastOffset || s.nextTs < 0)
  }

  /** From the start of the system. */
  function ActAll(acts: seq<Action>): ClockState {
    if acts == [] then ClockState(0, 0, 0, false)
    else Act(ActAll(acts[..|acts| - 1]), acts[|acts| - 1])
  }

  /** The correction that waits for the next tick: that of the last synchronisation since
      the last tick. */
  function Pending(acts: seq<Action>): int {
    if acts == [] then 0
    else match acts[|acts| - 1] case Sync(_, u) => u case Tick => 0
  }

  /** Step i of a history is a tick that takes up a negative correction. */
  predicate Shortened(acts: seq<Action>, i: nat)
    requires i < |acts|
  {
    acts[i] == Tick && Pending(acts[..i]) < 0
  }

  /** Over every history: the flag that makes a synchronisation count an extra slot is set
      if and only if some tick has taken up a negative correction. */
  lemma {:induction false} OffsetIff(acts: seq<Action>)
    ensures ActAll(acts).nextTs == Pending(acts)
    ensures ActAll(acts).lastOffset <==> exists i :: 0 <= i < |acts| && Shortened(acts, i)
  {
    if acts != [] {
      var k := |acts| - 1;
      var before := acts[..k];
      OffsetIff(before);
      assert acts[k] == Tick && Pending(before) < 0 <==> Shortened(acts, k);
      forall i | 0 <= i < k ensures Shortened(before, i) <==> Shortened(acts, i) { assert before[..i] == acts[..i]; }
    }
  }

  /** n ticks in a row. */
  function Ticks(n: nat): (t: seq<Action>)
    ensures |t| == n
  {
    seq(n, i => Tick)
  }

  lemma {:induction false} OneMoreTick(acts: seq<Action>, n: nat)
    ensures ActAll(acts + Ticks(n + 1)) == Act(ActAll(acts + Ticks(n)), Tick)
  {
    var l := acts + Ticks(n + 1);
    assert l[..|l| - 1] == acts + Ticks(n) && l[|l| - 1] == Tick;
  }

  /** A synchronisation after any history, and then ticks. Slots are counted on until it
      takes effect: with a correction at the second tick, without one at the first, without
      a slot number never. Then the slot is one behind the number asked for, or two when a
      correction has ever been negative, and slots are counted on from there. */
  lemma {:induction false} SyncThenTicks(acts: seq<Action>, t: nat, u: int, n: nat)
    ensures var late := u < 0 || exists i :: 0 <= i < |acts| && Shortened(acts, i);
            var first := if u == 0 then 1 else 2;
            var s := ActAll(acts + [Sync(t, u)] + Ticks(n));
            if t == 0 || n < first then
              s.tslot == ActAll(acts).tslot + n && s.newTstamp == t
            else
              s == ClockState(t + (if late then 2 else 1) + (n - first), 0, 0, late)
    decreases n
  {
    var synced := acts + [Sync(t, u)];
    OffsetIff(acts);
    assert synced[..|synced| - 1] == acts && synced + Ticks(0) == synced;
    if n > 0 {
      SyncThenTicks(acts, t, u, n - 1);
      OneMoreTick(synced, n - 1);
      if n == 2 { OneMoreTick(synced, 0); }
    }
  }

  /** Without any synchronisation the slots are those counted from the start. */
  lemma {:induction false} TicksCount(n: nat)
    ensures ActAll(Ticks(n)) == ClockState(n, 0, 0, false)
  {
    if n > 0 {
      TicksCount(n - 1);
      assert Ticks(n)[..n - 1] == Ticks(n - 1);
    }
  }

  class Clock {
    const tslen: nat
    var tslot: nat
    var slotinit: Time
    var newTstamp: nat
    var nextTs: int
    var lastOffset: bool

    ghost function State(): ClockState
      reads this
    {
      ClockState(tslot, newTstamp, nextTs, lastOffset)
    }

    /** slotinit is always the begin of slot tslot. */
    ghost predicate Valid()
      reads this
    {
      tslen >= 1 && slotinit == TstampToTime(tslot, tslen)
    }

    constructor (len: nat)
      requires len >= 1
      ensures Valid() && tslen == len && State() == ActAll([])
    {
      tslen := len;
      tslot, slotinit := 0, Time(0, 0);
      newTstamp, nextTs, lastOffset := 0, 0, false;
    }

    /** time_sync: ask for a new slot number, and for a timer correction. */
    method TimeSync(tstamp: nat, usec: int)
      requires Valid()
      modifies this`newTstamp, this`nextTs
      ensures Valid() && State() == Act(old(State()), Sync(tstamp, usec))
    {
      newTstamp := tstamp;
      nextTs := usec;
    }

    /** One tick. The counter advances by one or jumps to the slot asked for, the clock
        follows it, and a pending timer correction is handed out once. */
    method SyncTslot() returns (timer: int)
      requires Valid()
      modifies this
      ensures Valid()
      ensures State() == Act(old(State()), Tick)
      ensures Normal(slotinit) && TimeToTstamp(slotinit, tslen) == tslot
      ensures timer == if old(nextTs) < 0 then tslen + old(nextTs) else old(nextTs)
    {
      if newTstamp != 0 && nextTs == 0 {
        tslot := if lastOffset then newTstamp + 2 else newTstamp + 1;
        slotinit := TstampToTime(tslot, tslen);
        newTstamp := 0;
      } else {
        SlotBegin(tslot, tslen);
        SlotBegin(tslot + 1, tslen);
        assert (tslot + 1) * tslen == tslot * tslen + tslen;
        tslot := tslot + 1;
        slotinit := slotinit.(usec := slotinit.usec + tslen);
        Carry();
        BeforeIsLess(slotinit, TstampToTime(tslot, tslen));
      }
      timer := 0;
      if nextTs != 0 {
        if nextTs < 0 {
          nextTs := tslen + nextTs;
          lastOffset := true;
        }
        timer := nextTs;
        nextTs := 0;
      }
      SlotBegin(tslot, tslen);
      SlotBeginRoundTrip(tslot, tslen);
    }

    /** Moves whole seconds out of the microseconds. */
    method Carry()
      requires slotinit.usec >= 0
      modifies this`slotinit
      ensures Normal(slotinit) && Micros(slotinit) == old(Micros(slotinit))
    {
      while slotinit.usec >= SECOND
        invariant slotinit.usec >= 0 && Micros(slotinit) == old(Micros(slotinit))
        decreases slotinit.usec
      {
        slotinit := Time(slotinit.sec + 1, slotinit.usec - SECOND);
      }
    }

    /** Any history of synchronisations and ticks of a new clock. */
    method Replay(acts: seq<Action>)
      requires Valid() && State() == ActAll([])
      modifies this
      ensures Valid() && State() == ActAll(acts)
    {
      hide Act, TstampToTime;
      var i := 0;
      while i < |acts|
        invariant 0 <= i <= |acts| && Valid() && State() == ActAll(acts[..i])
      {
        assert acts[..i + 1][..i] == acts[..i];
        match acts[i] {
          case Sync(t, u) => TimeSync(t, u);
          case Tick => var timer := SyncTslot();
        }
        i := i + 1;
      }
      assert acts[..i] == acts;
    }

    /** A synchronisation with a timer correction takes effect at the second tick: the
        first only corrects the timer. A negative correction makes it count one slot more,
        and so does any negative correction made before. */
    method SyncedTicks(tstamp: nat, usec: int, ghost acts: seq<Action>)
      requires Valid() && tstamp != 0 && usec != 0 && State() == ActAll(acts)
      modifies this
      ensures Valid() && tslot == tstamp + if usec < 0 || exists i :: 0 <= i < |acts| && Shortened(acts, i) then 2 else 1
    {
      OffsetIff(acts);
      TimeSync(tstamp, usec);
      var t := SyncTslot();
      t := SyncTslot();
    }
  }
}
