/** The status-change handshake between an object and its controller:
    hw_api/lnx/src/hwapi_linux_proc.c and Status() of sw_api/src/phal_services.c. */
module Handshake {
  import opened Wrappers

  const PHAL_STATUS_INIT := 2
  const PHAL_STATUS_RUN := 3
  const PHAL_STATUS_PAUSE := 4
  const PHAL_STATUS_STEP := 5
  const PHAL_STATUS_STOP := 6
  const PHAL_STATUS_ABNSTOP := 7

  const FORCED := -1

  // ----- the protocol as its users see it

  /** Settled: no change under way. Requested: asked for, not yet shown to the object.
      Shown: the object has seen it once. Committed: it has become the current status and
      waits for the controller. Stuck: the status held was requested again. */
  datatype Phase =
    | Settled(cur: int)
    | Requested(cur: int, next: int, due: int)
    | Shown(cur: int, next: int)
    | Committed(cur: int)
    | Stuck(cur: int)

  datatype Event = Get | New(status: int, tstamp: int) | Ack | Pass(slots: nat)

  datatype World = World(phase: Phase, now: int)

  /** What an event did: when, whether it was accepted, and the status it returned. */
  datatype Entry = Entry(event: Event, now: int, accepted: bool, shown: int)

  function AfterGet(p: Phase, now: int): Phase {
    match p
    case Requested(o, n, d) => if now >= d then Shown(o, n) else p
    case Shown(o, n) => Committed(n)
    case _ => p
  }

  function ShownByGet(p: Phase, now: int): int {
    match p
    case Requested(o, n, d) => if now >= d then n else o
    case Shown(o, n) => n
    case _ => p.cur
  }

  /** A request for the status already held leads nowhere. */
  function Request(cur: int, next: int, due: int): Phase {
    if next == cur then Stuck(cur) else Requested(cur, next, due)
  }

  function AfterNew(p: Phase, status: int, tstamp: int): Phase {
    if p.Settled? || tstamp == FORCED then Request(p.cur, status, tstamp) else p
  }

  function AfterAck(p: Phase): Phase {
    if p.Committed? then Settled(p.cur) else p
  }

  function Step(w: World, e: Event): World {
    match e
    case Get => w.(phase := AfterGet(w.phase, w.now))
    case New(s, t) => w.(phase := AfterNew(w.phase, s, t))
    case Ack => w.(phase := AfterAck(w.phase))
    case Pass(k) => w.(now := w.now + k)
  }

  function Outcome(w: World, e: Event): Entry {
    match e
    case Get => Entry(e, w.now, true, ShownByGet(w.phase, w.now))
    case New(s, t) => Entry(e, w.now, w.phase.Settled? || t == FORCED, s)
    case Ack => Entry(e, w.now, w.phase.Committed?, w.phase.cur)
    case Pass(k) => Entry(e, w.now, true, w.phase.cur)
  }

  function After(w: World, evs: seq<Event>): World {
    if evs == [] then w else Step(After(w, evs[..|evs| - 1]), evs[|evs| - 1])
  }

  function Log(w: World, evs: seq<Event>): (log: seq<Entry>)
    ensures |log| == |evs|
    ensures forall i :: 0 <= i < |evs| ==> log[i].event == evs[i]
  {
    if evs == [] then []
    else
      var k := |evs| - 1;
      Log(w, evs[..k]) + [Outcome(After(w, evs[..k]), evs[k])]
  }

  predicate NoForced(evs: seq<Event>) {
    forall i :: 0 <= i < |evs| && evs[i].New? ==> evs[i].tstamp != FORCED
  }

  // ----- the life of a request

  predicate Accepts(e: Entry) { e.event.New? && e.accepted }

  predicate Acknowledges(e: Entry) { e.event.Ack? && e.accepted }

  /** How often a get has shown status n. */
  function Shows(log: seq<Entry>, n: int): nat {
    if log == [] then 0
    else
      var e := log[|log| - 1];
      Shows(log[..|log| - 1], n) + if e.event.Get? && e.shown == n then 1 else 0
  }

  /** How often an ack has been accepted. */
  function Acks(log: seq<Entry>): nat {
    if log == [] then 0
    else Acks(log[..|log| - 1]) + if Acknowledges(log[|log| - 1]) then 1 else 0
  }

  /** No request has been accepted. */
  predicate Undisturbed(log: seq<Entry>) {
    log == [] || (Undisturbed(log[..|log| - 1]) && !Accepts(log[|log| - 1]))
  }

  lemma {:induction false} LogInit(w: World, evs: seq<Event>)
    requires evs != []
    ensures var k := |evs| - 1;
            && Log(w, evs)[..k] == Log(w, evs[..k])
            && Log(w, evs)[k] == Outcome(After(w, evs[..k]), evs[k])
            && After(w, evs) == Step(After(w, evs[..k]), evs[k])
  {}

  lemma {:induction false} LogPrefix(w: World, evs: seq<Event>, j: nat)
    requires j <= |evs|
    ensures Log(w, evs)[..j] == Log(w, evs[..j])
    ensures j < |evs| ==> Log(w, evs)[j] == Outcome(After(w, evs[..j]), evs[j])
    decreases |evs|
  {
    if j == |evs| {
      assert evs[..j] == evs;
    } else {
      hide Log, Outcome, After;
      var k := |evs| - 1;
      LogInit(w, evs);
      if j < k {
        LogPrefix(w, evs[..k], j);
        assert evs[..k][..j] == evs[..j];
      }
    }
  }

  lemma {:induction false} UndisturbedPrefix(log: seq<Entry>, j: nat)
    requires Undisturbed(log) && j <= |log|
    ensures Undisturbed(log[..j])
    decreases |log|
  {
    if j < |log| {
      var k := |log| - 1;
      assert log[..k][..j] == log[..j];
      UndisturbedPrefix(log[..k], j);
    } else {
      assert log[..j] == log;
    }
  }

  /** Where a request stands is determined by what the log shows of it. */
  function PhaseByLog(o: int, n: int, d: int, log: seq<Entry>): Phase {
    if Shows(log, n) == 0 then Requested(o, n, d)
    else if Shows(log, n) == 1 then Shown(o, n)
    else if Acks(log) == 0 then Committed(n)
    else Settled(n)
  }

  /** In every interleaving up to the next accepted request, a request moves on by the
      gets that show it and by one ack after the second of them. */
  lemma {:induction false} Lifecycle(o: int, n: int, d: int, now: int, evs: seq<Event>)
    requires o != n && Undisturbed(Log(World(Requested(o, n, d), now), evs))
    ensures var w := World(Requested(o, n, d), now);
            var log := Log(w, evs);
            After(w, evs).phase == PhaseByLog(o, n, d, log) && (Shows(log, n) < 2 ==> Acks(log) == 0)
  {
    var w := World(Requested(o, n, d), now);
    if evs != [] {
      hide Log, After, PhaseByLog, Shows, Acks;
      var k := |evs| - 1;
      LogInit(w, evs);
      Lifecycle(o, n, d, now, evs[..k]);
      var log := Log(w, evs);
      LifecycleStep(o, n, d, log[..k], After(w, evs[..k]), evs[k], log);
    }
  }

  lemma {:induction false} LifecycleStep(o: int, n: int, d: int, before: seq<Entry>, w: World, e: Event, log: seq<Entry>)
    requires o != n && w.phase == PhaseByLog(o, n, d, before) && (Shows(before, n) < 2 ==> Acks(before) == 0)
    requires |log| == |before| + 1 && log[..|before|] == before
    requires log[|before|] == Outcome(w, e) && !Accepts(Outcome(w, e))
    ensures Step(w, e).phase == PhaseByLog(o, n, d, log) && (Shows(log, n) < 2 ==> Acks(log) == 0)
  {}

  /** A get shows the new status exactly when its time has come or an earlier get has
      shown it: never too early, and never falling back. */
  lemma {:induction false} ShownExactly(o: int, n: int, d: int, now: int, evs: seq<Event>, i: nat)
    requires o != n && i < |evs| && evs[i] == Get
    requires var log := Log(World(Requested(o, n, d), now), evs); Undisturbed(log[..i])
    ensures var log := Log(World(Requested(o, n, d), now), evs);
            log[i].shown == if Shows(log[..i], n) > 0 || log[i].now >= d then n else o
  {
    hide Log, After, Shows, Acks;
    LogPrefix(World(Requested(o, n, d), now), evs, i);
    Lifecycle(o, n, d, now, evs[..i]);
  }

  /** The slots that pass during some events. */
  function Elapsed(evs: seq<Event>): nat {
    if evs == [] then 0
    else Elapsed(evs[..|evs| - 1]) + if evs[|evs| - 1].Pass? then evs[|evs| - 1].slots else 0
  }

  lemma {:induction false} ClockIsElapsed(w: World, evs: seq<Event>)
    ensures After(w, evs).now == w.now + Elapsed(evs)
  {
    if evs != [] { ClockIsElapsed(w, evs[..|evs| - 1]); }
  }

  lemma {:induction false} LogBehind(w: World, e: Event, evs: seq<Event>)
    ensures Log(w, [e] + evs) == [Outcome(w, e)] + Log(Step(w, e), evs)
    ensures After(w, [e] + evs) == After(Step(w, e), evs)
  {
    hide Outcome, Step;
    var all := [e] + evs;
    assert all[..0] == [] && After(w, []) == w;
    if evs == [] {
      assert all == [e];
    } else {
      var k := |evs| - 1;
      assert all[..|all| - 1] == [e] + evs[..k];
      LogBehind(w, e, evs[..k]);
    }
  }

  /** The new status is not shown before its time. */
  lemma {:induction false} NotBefore(o: int, n: int, d: int, now: int, evs: seq<Event>)
    requires o != n && Undisturbed(Log(World(Requested(o, n, d), now), evs))
    requires Shows(Log(World(Requested(o, n, d), now), evs), n) > 0
    ensures now + Elapsed(evs) >= d
  {
    var w := World(Requested(o, n, d), now);
    var k := |evs| - 1;
    LogInit(w, evs);
    hide Log, After;
    if Shows(Log(w, evs[..k]), n) > 0 {
      NotBefore(o, n, d, now, evs[..k]);
    } else {
      ShownExactly(o, n, d, now, evs, k);
      ClockIsElapsed(w, evs[..k]);
    }
  }

  /** From the request on: an object that accepts a request for another status at stamp t
      goes on showing the one it holds in every slot before t, and shows the new one from
      slot t on, as long as no further request is accepted. */
  lemma {:induction false} RequestTakesEffect(w: World, n: int, t: int, evs: seq<Event>, i: nat)
    requires w.phase.Settled? || t == FORCED
    requires n != w.phase.cur && i < |evs| && evs[i] == Get
    requires forall k :: 1 <= k <= i ==> !Accepts(Log(w, [New(n, t)] + evs)[k])
    ensures var log := Log(w, [New(n, t)] + evs);
            && Accepts(log[0])
            && log[i + 1].shown == if w.now + Elapsed(evs[..i]) >= t then n else w.phase.cur
  {
    var o, now := w.phase.cur, w.now;
    var w' := World(Requested(o, n, t), now);
    LogBehind(w, New(n, t), evs);
    assert Step(w, New(n, t)) == w';
    var log, log' := Log(w, [New(n, t)] + evs), Log(w', evs);
    hide Log, After, Shows;
    LogPrefix(w', evs, i);
    forall k | 0 <= k < i ensures !Accepts(log'[..i][k]) { assert log'[k] == log[k + 1]; }
    NoneAccepted(log'[..i]);
    ClockIsElapsed(w', evs[..i]);
    ShownExactly(o, n, t, now, evs, i);
    if Shows(log'[..i], n) > 0 { NotBefore(o, n, t, now, evs[..i]); }
  }

  lemma {:induction false} NoneAccepted(log: seq<Entry>)
    requires forall k :: 0 <= k < |log| ==> !Accepts(log[k])
    ensures Undisturbed(log)
  {
    if log != [] { NoneAccepted(log[..|log| - 1]); }
  }

  /** A second request is accepted only after the first has been shown, committed by a
      further get, and acknowledged after that. */
  lemma {:induction false} NextRequestWaits(o: int, n: int, d: int, now: int, evs: seq<Event>, j: nat)
    requires o != n && j < |evs| && evs[j].New? && evs[j].tstamp != FORCED
    requires var log := Log(World(Requested(o, n, d), now), evs);
             Accepts(log[j]) && Undisturbed(log[..j])
    ensures var log := Log(World(Requested(o, n, d), now), evs);
            exists a :: 0 <= a < j && Acknowledges(log[a]) && Shows(log[..a], n) >= 2
  {
    hide Log, After, Shows, Acks;
    var w := World(Requested(o, n, d), now);
    var log := Log(w, evs);
    LogPrefix(w, evs, j);
    Lifecycle(o, n, d, now, evs[..j]);
    var a := AckPosition(log[..j]);
    LogPrefix(w, evs, a);
    UndisturbedPrefix(log[..j], a);
    assert log[..j][..a] == log[..a] && log[..j][a] == log[a];
    Lifecycle(o, n, d, now, evs[..a]);
  }

  lemma {:induction false} AckPosition(log: seq<Entry>) returns (a: nat)
    requires Acks(log) > 0
    ensures a < |log| && Acknowledges(log[a])
  {
    var k := |log| - 1;
    if Acknowledges(log[k]) {
      a := k;
    } else {
      a := AckPosition(log[..k]);
    }
  }

  function Gets(evs: seq<Event>): nat {
    if evs == [] then 0 else Gets(evs[..|evs| - 1]) + if evs[|evs| - 1].Get? then 1 else 0
  }

  /** Once due, every get shows the new status. */
  lemma {:induction false} DueGetsShow(o: int, n: int, d: int, now: int, evs: seq<Event>)
    requires o != n && now >= d && Undisturbed(Log(World(Requested(o, n, d), now), evs))
    ensures Shows(Log(World(Requested(o, n, d), now), evs), n) == Gets(evs)
  {
    if evs != [] {
      hide Log, After, PhaseByLog;
      var w := World(Requested(o, n, d), now);
      var k := |evs| - 1;
      LogInit(w, evs);
      DueGetsShow(o, n, d, now, evs[..k]);
      if evs[k].Get? { ShownExactly(o, n, d, now, evs, k); }
      ClockMonotone(w, evs[..k]);
    }
  }

  lemma {:induction false} ClockMonotone(w: World, evs: seq<Event>)
    ensures After(w, evs).now >= w.now
  {
    if evs != [] { ClockMonotone(w, evs[..|evs| - 1]); }
  }

  /** A due request for another status completes after two gets and a later ack, whatever
      else happens in between. */
  lemma {:induction false} DueRequestCompletes(o: int, n: int, d: int, now: int, evs: seq<Event>, a: nat)
    requires o != n && now >= d && a < |evs| && evs[a].Ack? && Gets(evs[..a]) >= 2
    requires Undisturbed(Log(World(Requested(o, n, d), now), evs))
    ensures After(World(Requested(o, n, d), now), evs).phase == Settled(n)
  {
    hide Log, After, Shows, Acks, Undisturbed, Gets;
    var w := World(Requested(o, n, d), now);
    var log := Log(w, evs);
    LogPrefix(w, evs, a);
    UndisturbedPrefix(log, a);
    DueGetsShow(o, n, d, now, evs[..a]);
    Lifecycle(o, n, d, now, evs[..a]);
    Lifecycle(o, n, d, now, evs);
    CountsGrow(log, a, n);
    LogPrefix(w, evs, a + 1);
    UndisturbedPrefix(log, a + 1);
    CountsGrow(log, a + 1, n);
    assert log[..a + 1][..a] == log[..a];
    AckCounts(log[..a + 1]);
  }

  lemma {:induction false} AckCounts(log: seq<Entry>)
    requires log != [] && (Acks(log[..|log| - 1]) > 0 || Acknowledges(log[|log| - 1]))
    ensures Acks(log) > 0
  {}

  lemma {:induction false} CountsGrow(log: seq<Entry>, a: nat, n: int)
    requires a <= |log|
    ensures Shows(log[..a], n) <= Shows(log, n) && Acks(log[..a]) <= Acks(log)
    decreases |log|
  {
    if a < |log| {
      var k := |log| - 1;
      assert log[..k][..a] == log[..a];
      CountsGrow(log[..k], a, n);
    } else {
      assert log[..a] == log;
    }
  }

  /** A request for the status already held is never acknowledged and locks out all others;
      every get goes on showing that status. */
  lemma {:induction false} StuckForever(s: int, now: int, evs: seq<Event>)
    requires NoForced(evs)
    ensures var w := World(Stuck(s), now);
            && After(w, evs).phase == Stuck(s) && Undisturbed(Log(w, evs)) && Acks(Log(w, evs)) == 0
            && forall i :: 0 <= i < |evs| && evs[i].Get? ==> Log(w, evs)[i].shown == s
  {
    if evs != [] {
      hide Log, After;
      LogInit(World(Stuck(s), now), evs);
      StuckForever(s, now, evs[..|evs| - 1]);
    }
  }

  /** A request made in a settled phase can be completed if and only if it asks for a
      status other than the one held. */
  lemma {:induction false} CompletableIff(s: int, n: int, d: int, now: int)
    requires d != FORCED
    ensures var w := World(AfterNew(Settled(s), n, d), now);
            (exists evs :: NoForced(evs) && Acks(Log(w, evs)) > 0) <==> n != s
  {
    var w := World(AfterNew(Settled(s), n, d), now);
    if n != s {
      var evs := [Pass(if d > now then d - now else 0), Get, Get, Ack];
      CompletesByTwoGets(s, n, d, now, evs);
    } else {
      forall evs | NoForced(evs) ensures Acks(Log(w, evs)) == 0 {
        StuckForever(s, now, evs);
      }
    }
  }

  lemma {:induction false} CompletesByTwoGets(s: int, n: int, d: int, now: int, evs: seq<Event>)
    requires s != n && evs == [Pass(if d > now then d - now else 0), Get, Get, Ack]
    ensures NoForced(evs) && Acks(Log(World(Requested(s, n, d), now), evs)) > 0
  {
    var w := World(Requested(s, n, d), now);
    LogInit(w, evs);
    LogInit(w, evs[..3]);
    LogInit(w, evs[..2]);
    LogInit(w, evs[..1]);
    assert evs[..3][..2] == evs[..2] && evs[..2][..1] == evs[..1] && evs[..1][..0] == [];
    hide Log, After;
    assert Acknowledges(Log(w, evs)[3]) by { assert After(w, []) == w by { AfterNothing(w); } }
    AckCounts(Log(w, evs));
  }

  lemma {:induction false} AfterNothing(w: World)
    ensures After(w, []) == w
  {}

  // ----- the fields and operations of the process table

  /** What can happen to an object while it is not itself acting: time, and acks. */
  predicate Quiet(evs: seq<Event>) {
    forall i :: 0 <= i < |evs| ==> evs[i].Pass? || evs[i].Ack?
  }

  /** What a status gives an object to do: nothing when it has to wait. A step is a run. */
  function Work(status: int, initDone: bool): Option<int> {
    if status == PHAL_STATUS_RUN || status == PHAL_STATUS_STEP then Some(PHAL_STATUS_RUN)
    else if status == PHAL_STATUS_INIT && !initDone then Some(PHAL_STATUS_INIT)
    else if status == PHAL_STATUS_STOP || status == PHAL_STATUS_ABNSTOP then Some(PHAL_STATUS_STOP)
    else None
  }

  lemma {:induction false} WorkMeans(s: int, initDone: bool)
    ensures Work(s, initDone) == Some(PHAL_STATUS_RUN) <==> s in {PHAL_STATUS_RUN, PHAL_STATUS_STEP}
    ensures Work(s, initDone) == Some(PHAL_STATUS_INIT) <==> s == PHAL_STATUS_INIT && !initDone
    ensures Work(s, initDone) == Some(PHAL_STATUS_STOP) <==> s in {PHAL_STATUS_STOP, PHAL_STATUS_ABNSTOP}
    ensures Work(s, initDone).Some? ==> Work(s, initDone).value in {PHAL_STATUS_RUN, PHAL_STATUS_INIT, PHAL_STATUS_STOP}
  {}

  /** The object has been shown a status, or holds one, that nothing else is asked of. */
  predicate Holding(p: Phase, status: int) {
    (p.Shown? && p.next == status) || p == Committed(status) || p == Settled(status)
  }

  /** That is so exactly when no request is waiting to be shown or stuck, and a get at any
      time shows that status. */
  lemma {:induction false} HoldingIff(p: Phase, status: int)
    ensures Holding(p, status) <==>
              !p.Requested? && !p.Stuck? && forall now: int :: ShownByGet(p, now) == status
  {
    assert p.Requested? || ShownByGet(p, 0) == if p.Shown? then p.next else p.cur;
  }

  /** No status that may be shown gives anything to do. */
  predicate Idle(p: Phase, initDone: bool) {
    && (p.Shown? || Work(p.cur, initDone) == None)
    && (p.Shown? || p.Requested? ==> Work(p.next, initDone) == None)
  }

  /** An object is idle exactly when no get will ever give it work, whatever time and acks
      do in between. */
  lemma {:induction false} IdleIff(p: Phase, initDone: bool)
    ensures Idle(p, initDone) <==> forall now, evs :: NoWork(p, now, evs, initDone)
  {
    if Idle(p, initDone) {
      forall now, evs ensures NoWork(p, now, evs, initDone) { IdleStays(p, now, evs, initDone); }
    } else if p.Requested? && Work(p.cur, initDone).Some? {
      LogOfGet(World(p, p.due - 1));
      assert !NoWork(p, p.due - 1, [Get], initDone);
    } else {
      var now := if p.Requested? then p.due else 0;
      LogOfGet(World(p, now));
      assert !NoWork(p, now, [Get], initDone);
    }
  }

  /** None of the gets among these events shows a status that gives work. */
  predicate NoWork(p: Phase, now: int, evs: seq<Event>, initDone: bool) {
    NoNew(evs) ==> forall i :: 0 <= i < |evs| && evs[i].Get? ==> Work(Log(World(p, now), evs)[i].shown, initDone) == None
  }

  predicate NoNew(evs: seq<Event>) {
    forall i :: 0 <= i < |evs| ==> !evs[i].New?
  }

  lemma {:induction false} LogOfGet(w: World)
    ensures Log(w, [Get])[0].shown == ShownByGet(w.phase, w.now)
  {
    assert [Get][..0] == [] && After(w, []) == w;
  }

  lemma {:induction false} IdleStays(p: Phase, now: int, evs: seq<Event>, initDone: bool)
    requires Idle(p, initDone)
    ensures NoWork(p, now, evs, initDone)
    ensures NoNew(evs) ==> Idle(After(World(p, now), evs).phase, initDone)
  {
    if evs != [] && NoNew(evs) {
      hide Log, After, Work;
      var k := |evs| - 1;
      LogInit(World(p, now), evs);
      IdleStays(p, now, evs[..k], initDone);
    } else if evs == [] {
      assert After(World(p, now), evs).phase == p;
    }
  }

  /** The statuses an object may be shown from one moment to a later one. */
  function Offered(p: Phase, now: int, later: int): set<int> {
    {ShownByGet(p, now)} + if p.Requested? && p.due <= later then {p.next} else {}
  }

  /** They are those that a get shows at some time in between. */
  lemma {:induction false} OfferedIff(p: Phase, now: int, later: int, status: int)
    requires now <= later
    ensures status in Offered(p, now, later) <==> exists t :: now <= t <= later && ShownByGet(p, t) == status
  {
    if status in Offered(p, now, later) {
      var t := if status == ShownByGet(p, now) then now else later;
      assert now <= t <= later && ShownByGet(p, t) == status;
    }
  }

  /** What an object in phase p may have come to by gets, time and acks. */
  predicate Follows(p: Phase, now: int, q: Phase, later: int) {
    q == p || (!q.Requested? && (if q.Shown? then q.next else q.cur) in Offered(p, now, later))
  }

  lemma {:induction false} OfferedGrows(p: Phase, now: int, later: int, later': int)
    requires later <= later'
    ensures Offered(p, now, later) <= Offered(p, now, later')
  {}

  lemma {:induction false} FollowsStart(p: Phase, now: int)
    ensures Follows(p, now, p, now)
  {}

  lemma {:induction false} FollowsGet(p: Phase, now: int, q: Phase, later: int)
    requires Follows(p, now, q, later) && now <= later
    ensures Follows(p, now, AfterGet(q, later), later) && ShownByGet(q, later) in Offered(p, now, later)
  {}

  /** Neither a get nor time or an ack ends idleness or a pause. */
  lemma {:induction false} StaysIdle(q: Phase, now: int, q': Phase, initDone: bool)
    requires q' == AfterGet(q, now) || q' == q || (q.Committed? && q' == Settled(q.cur))
    ensures Idle(q, initDone) ==> Idle(q', initDone) && Work(ShownByGet(q, now), initDone) == None
    ensures Holding(q, PHAL_STATUS_PAUSE) ==>
              Holding(q', PHAL_STATUS_PAUSE) && ShownByGet(q, now) == PHAL_STATUS_PAUSE
  {}

  lemma {:induction false} FollowsTime(p: Phase, now: int, q: Phase, later: int, q': Phase, later': int)
    requires Follows(p, now, q, later) && later <= later'
    requires q' == q || (q.Committed? && q' == Settled(q.cur))
    ensures Follows(p, now, q', later')
  {}

  /** Acks and time touch nothing but a committed change. */
  lemma {:induction false} QuietKeeps(w: World, evs: seq<Event>)
    requires Quiet(evs)
    ensures After(w, evs).now >= w.now
    ensures After(w, evs).phase == w.phase
         || (w.phase.Committed? && After(w, evs).phase == Settled(w.phase.cur))
  {
    if evs != [] { QuietKeeps(w, evs[..|evs| - 1]); }
  }

  class Process {
    var cur: int
    var next: int
    var nextTstamp: int
    var progress: int
    var objTstamp: int
    var initDone: bool
    var clock: int

    /** Progress 0 implies that the current and the next status agree. */
    ghost predicate Valid()
      reads this`cur, this`next, this`progress
    {
      0 <= progress <= 2 && (progress == 0 ==> cur == next)
    }

    ghost function PhaseOf(): Phase
      reads this`cur, this`next, this`nextTstamp, this`progress
    {
      if progress == 0 then Settled(cur)
      else if progress == 1 then Request(cur, next, nextTstamp)
      else if cur == next then Committed(cur)
      else Shown(cur, next)
    }

    /** The fields as hwapi_proc_create leaves them: status 1 requested at once. */
    constructor (now: int)
      ensures Valid() && PhaseOf() == Requested(0, 1, now) && clock == now
      ensures objTstamp == 0 && !initDone
    {
      cur, next, nextTstamp, progress := 0, 1, now, 1;
      objTstamp, initDone, clock := 0, false, now;
    }

    method StatusGet() returns (r: int)
      requires Valid()
      modifies this`cur, this`progress
      ensures Valid() && PhaseOf() == AfterGet(old(PhaseOf()), clock)
      ensures r == ShownByGet(old(PhaseOf()), clock)
      // the fields: nothing asked for; asked for and due or not; shown before
      ensures next == old(cur) ==> r == cur == old(cur) && progress == old(progress)
      ensures next != old(cur) && old(progress) < 2 ==>
                cur == old(cur) && if clock >= nextTstamp then r == next && progress == 2
                                   else r == cur && progress == old(progress)
      ensures next != old(cur) && old(progress) == 2 ==> r == cur == next && progress == 2
    {
      r := cur;
      if next != cur {
        if progress < 2 {
          if clock >= nextTstamp {
            progress := 2;
            r := next;
          }
        } else {
          cur := next;
          r := cur;
        }
      }
    }

    /** Returns the requested status on success and 0 on refusal. */
    method StatusNew(status: int, tstamp: int) returns (r: int)
      requires Valid()
      modifies this`next, this`nextTstamp, this`progress
      ensures Valid()
      ensures PhaseOf() == AfterNew(old(PhaseOf()), status, if tstamp == 0 then clock else tstamp)
      ensures r == if old(PhaseOf()).Settled? || (if tstamp == 0 then clock else tstamp) == FORCED
                   then status else 0
      // the fields: accepted when no change is under way, or forced
      ensures old(progress) == 0 || (if tstamp == 0 then clock else tstamp) == FORCED ==>
                next == status && nextTstamp == (if tstamp == 0 then clock else tstamp) && progress == 1
      ensures old(progress) != 0 && (if tstamp == 0 then clock else tstamp) != FORCED ==>
                next == old(next) && nextTstamp == old(nextTstamp) && progress == old(progress)
    {
      var ts := if tstamp == 0 then clock else tstamp;
      if (progress == 0 && next == cur) || ts == FORCED {
        next := status;
        nextTstamp := ts;
        progress := 1;
        r := status;
      } else {
        r := 0;
      }
    }

    method StatusAck() returns (r: int)
      requires Valid()
      modifies this`progress
      ensures Valid() && PhaseOf() == AfterAck(old(PhaseOf()))
      ensures r == if old(PhaseOf()).Committed? then 1 else 0
      ensures cur == next && old(progress) == 2 <==> r == 1
      ensures progress == if r == 1 then 0 else old(progress)
    {
      if cur == next && progress == 2 {
        progress := 0;
        r := 1;
      } else {
        r := 0;
      }
    }

    /** Lets time and the controller act. */
    method Interfere(evs: seq<Event>)
      requires Valid() && Quiet(evs)
      modifies this`progress, this`clock
      ensures Valid()
      ensures World(PhaseOf(), clock) == After(World(old(PhaseOf()), old(clock)), evs)
    {
      ghost var w := World(PhaseOf(), clock);
      assert After(w, evs[..0]) == w;
      var i := 0;
      while i < |evs|
        invariant 0 <= i <= |evs| && Valid()
        invariant World(PhaseOf(), clock) == After(w, evs[..i])
      {
        assert evs[..i + 1][..i] == evs[..i];
        if evs[i].Pass? {
          clock := clock + evs[i].slots;
        } else {
          var r := StatusAck();
        }
        i := i + 1;
      }
      assert evs[..|evs|] == evs;
    }

    /** Interference between two calls of the object: the next block of env, if any is left. */
    method Between(env: seq<seq<Event>>, k: nat) returns (k': nat)
      requires Valid() && forall i :: 0 <= i < |env| ==> Quiet(env[i])
      modifies this`progress, this`clock
      ensures Valid() && clock >= old(clock)
      ensures PhaseOf() == old(PhaseOf())
           || (old(PhaseOf()).Committed? && PhaseOf() == Settled(old(PhaseOf()).cur))
      ensures k' == k + 1
    {
      if k < |env| {
        QuietKeeps(World(PhaseOf(), clock), env[k]);
        Interfere(env[k]);
      }
      k' := k + 1;
    }

    /** Status(): returns when the object has something to do; None while it is still
        waiting when the blocks of env, one for every time it can be interrupted, run out.
        Whatever status the object holds, a step request makes it return RUN once when its
        time has come and leaves the object paused, whatever the clock and the acks of the
        controller do in between; an idle object waits for ever. */
    method Status(env: seq<seq<Event>>) returns (r: Option<int>)
      requires Valid() && forall i :: 0 <= i < |env| ==> Quiet(env[i])
      modifies this`cur, this`next, this`nextTstamp, this`progress, this`objTstamp, this`clock
      ensures Valid() && clock >= old(clock)
      ensures objTstamp == old(objTstamp) + if r == Some(PHAL_STATUS_RUN) then 1 else 0
      // what there is to do
      ensures var s := ShownByGet(old(PhaseOf()), old(clock));
              && (s == PHAL_STATUS_RUN || s == PHAL_STATUS_STEP ==> r == Some(PHAL_STATUS_RUN))
              && (s == PHAL_STATUS_STOP || s == PHAL_STATUS_ABNSTOP ==> r == Some(PHAL_STATUS_STOP))
              && (s == PHAL_STATUS_INIT && !initDone ==> r == Some(PHAL_STATUS_INIT))
      ensures var seen := Offered(old(PhaseOf()), old(clock), clock);
              && (r == None || r == Some(PHAL_STATUS_RUN) || r == Some(PHAL_STATUS_STOP) || r == Some(PHAL_STATUS_INIT))
              && (r == Some(PHAL_STATUS_RUN) ==> PHAL_STATUS_RUN in seen || PHAL_STATUS_STEP in seen)
              && (r == Some(PHAL_STATUS_STOP) ==> PHAL_STATUS_STOP in seen || PHAL_STATUS_ABNSTOP in seen)
              && (r == Some(PHAL_STATUS_INIT) ==> PHAL_STATUS_INIT in seen && !initDone)
      // there is something to do at once
      ensures var s, p := ShownByGet(old(PhaseOf()), old(clock)), AfterGet(old(PhaseOf()), old(clock));
              Work(s, initDone).Some? ==>
                && r == Work(s, initDone)
                && (s != PHAL_STATUS_STEP ==> PhaseOf() == p)
                && (Holding(p, PHAL_STATUS_STEP) ==> PhaseOf() == Shown(PHAL_STATUS_STEP, PHAL_STATUS_PAUSE))
                && (p == Stuck(PHAL_STATUS_STEP) && old(clock) >= 0 ==> PhaseOf() == p)
      // there will be
      ensures var p := old(PhaseOf());
              p.Requested? && old(clock) < p.due && Work(p.cur, initDone) == None && Work(p.next, initDone).Some? ==>
                if r == None then p.due > clock && PhaseOf() == p
                else r == Work(p.next, initDone) && clock >= p.due
                     && PhaseOf() == (if p.next == PHAL_STATUS_STEP then Shown(p.next, PHAL_STATUS_PAUSE)
                                      else Shown(p.cur, p.next))
      // there will be nothing
      ensures Idle(old(PhaseOf()), initDone) ==> r == None && Idle(PhaseOf(), initDone)
      ensures Holding(old(PhaseOf()), PHAL_STATUS_PAUSE) ==> r == None && Holding(PhaseOf(), PHAL_STATUS_PAUSE)
    {
      hide Offered, Follows, Idle, PhaseOf, Valid;
      ghost var p := PhaseOf();
      FollowsStart(p, clock);
      ghost var ahead := p.Requested? && Work(p.next, initDone).Some?;
      var k := 0;
      while true
        invariant Valid() && clock >= old(clock) && objTstamp == old(objTstamp)
        invariant k == 0 ==> PhaseOf() == p && clock == old(clock)
        invariant Follows(p, old(clock), PhaseOf(), clock)
        invariant k > 0 ==> Work(ShownByGet(p, old(clock)), initDone) == None
        invariant ahead ==> PhaseOf() == p && (k > 0 ==> p.due > old(clock))
        invariant Idle(p, initDone) ==> Idle(PhaseOf(), initDone)
        invariant Holding(p, PHAL_STATUS_PAUSE) ==> Holding(PhaseOf(), PHAL_STATUS_PAUSE)
        decreases |env| - k
      {
        FollowsGet(p, old(clock), PhaseOf(), clock);
        StaysIdle(PhaseOf(), clock, AfterGet(PhaseOf(), clock), initDone);
        var status := StatusGet();
        ghost var q, now := PhaseOf(), clock;
        if status == PHAL_STATUS_RUN {
          objTstamp := objTstamp + 1;
          return Some(PHAL_STATUS_RUN);
        } else if status == PHAL_STATUS_INIT && !initDone {
          return Some(PHAL_STATUS_INIT);
        } else if status == PHAL_STATUS_STOP || status == PHAL_STATUS_ABNSTOP {
          return Some(PHAL_STATUS_STOP);
        } else if status == PHAL_STATUS_STEP {
          FinishStep(env, k);
          OfferedGrows(p, old(clock), now, clock);
          return Some(PHAL_STATUS_RUN);
        } else {
          // relinquish until the next slot
          if k >= |env| { return None; }
          k := Between(env, k);
          FollowsTime(p, old(clock), q, now, PhaseOf(), clock);
          StaysIdle(q, now, PhaseOf(), initDone);
        }
      }
    }

    /** The STEP branch of Status(), whatever was held before the step. */
    method FinishStep(env: seq<seq<Event>>, k0: nat)
      requires Valid() && forall i :: 0 <= i < |env| ==> Quiet(env[i])
      modifies this`cur, this`next, this`nextTstamp, this`progress, this`objTstamp, this`clock
      ensures Valid() && clock >= old(clock) && objTstamp == old(objTstamp) + 1
      ensures Holding(old(PhaseOf()), PHAL_STATUS_STEP) ==> PhaseOf() == Shown(PHAL_STATUS_STEP, PHAL_STATUS_PAUSE)
      // a step that is asked for again before it has been left is run again by every call
      ensures old(PhaseOf()) == Stuck(PHAL_STATUS_STEP) && old(clock) >= 0 ==> PhaseOf() == old(PhaseOf())
    {
      objTstamp := objTstamp + 1;
      var k := Between(env, k0);
      var shown := StatusGet();
      k := Between(env, k);
      var done := StatusAck();
      k := Between(env, k);
      done := StatusNew(PHAL_STATUS_PAUSE, 0);
      k := Between(env, k);
      shown := StatusGet();
    }
  }
}
