/** The semaphore ring that orders the objects of a core inside a time slot: the tick posts
    semaphore 0, and an object that relinquishes posts its successor and waits on its own.
    Every interleaving of ticks and object steps is covered. */
module Scheduler {
  import opened Arithmetic

  datatype Pc = Running | Waiting

  /** A core with n objects and n + 1 semaphores. ticks, posts and waits count what has
      happened: ticks, posts made by each object, waits completed by each object. */
  datatype CoreState = CoreState(sem: seq<nat>, pc: seq<Pc>, ticks: nat, posts: seq<nat>, waits: seq<nat>)

  type Core = c: CoreState | |c.sem| == |c.pc| + 1 && |c.posts| == |c.waits| == |c.pc|
    witness CoreState([0], [], 0, [], [])

  /** Post(k): object k relinquishes, up to its wait. Wake(k): its wait is granted. */
  datatype Action = Tick | Post(k: nat) | Wake(k: nat)

  /** Semaphores are created with value 1; every object starts by running. */
  function Initial(n: nat): (c: Core)
    ensures |c.pc| == n
  {
    CoreState(seq(n + 1, i => 1), seq(n, i => Running), 0, seq(n, i => 0), seq(n, i => 0))
  }

  predicate Enabled(c: Core, a: Action)
  {
    match a
    case Tick => true
    case Post(k) => k < |c.pc| && c.pc[k] == Running
    case Wake(k) => k < |c.pc| && c.pc[k] == Waiting && c.sem[k] > 0
  }

  function Next(c: Core, a: Action): (c': Core)
    requires Enabled(c, a)
    ensures |c'.pc| == |c.pc|
  {
    match a
    case Tick => c.(sem := c.sem[0 := c.sem[0] + 1], ticks := c.ticks + 1)
    case Post(k) =>
      c.(sem := c.sem[k + 1 := c.sem[k + 1] + 1], pc := c.pc[k := Waiting],
         posts := c.posts[k := c.posts[k] + 1])
    case Wake(k) =>
      c.(sem := c.sem[k := c.sem[k] - 1], pc := c.pc[k := Running],
         waits := c.waits[k := c.waits[k] + 1])
  }

  datatype Outcome = Refused | At(core: Core)

  /** Performs acts one after the other, as long as each is enabled. */
  function Run(c: Core, acts: seq<Action>): (r: Outcome)
    ensures r.At? ==> |r.core.pc| == |c.pc|
  {
    if acts == [] then At(c)
    else
      var r := Run(c, acts[..|acts| - 1]);
      if r.At? && Enabled(r.core, acts[|acts| - 1]) then At(Next(r.core, acts[|acts| - 1])) else Refused
  }

  predicate Possible(c: Core, acts: seq<Action>) {
    Run(c, acts).At?
  }

  function After(c: Core, acts: seq<Action>): (c': Core)
    requires Possible(c, acts)
    ensures |c'.pc| == |c.pc|
  {
    Run(c, acts).core
  }

  // ----- token conservation

  /** Every post is either still in its semaphore or has been consumed by a wait. */
  ghost predicate Conserved(c: Core) {
    && (|c.pc| > 0 ==> c.sem[0] + c.waits[0] == 1 + c.ticks)
    && (forall k {:trigger c.sem[k]} :: 0 < k < |c.pc| ==> c.sem[k] + c.waits[k] == 1 + c.posts[k - 1])
    && (forall k :: 0 <= k < |c.pc| ==> c.posts[k] == c.waits[k] + if c.pc[k] == Waiting then 1 else 0)
  }

  lemma {:induction false} ConservedByStep(c: Core, a: Action)
    requires Conserved(c) && Enabled(c, a)
    ensures Conserved(Next(c, a))
  {
    var d := Next(c, a);
    forall k | 0 < k < |c.pc| ensures d.sem[k] + d.waits[k] == 1 + d.posts[k - 1] {
      assert c.sem[k] + c.waits[k] == 1 + c.posts[k - 1];
    }
    forall k | 0 <= k < |c.pc|
      ensures d.posts[k] == d.waits[k] + if d.pc[k] == Waiting then 1 else 0
    {
      assert c.posts[k] == c.waits[k] + if c.pc[k] == Waiting then 1 else 0;
    }
  }

  /** Conservation over every run from the start of the system. */
  lemma {:induction false} ConservedAlways(n: nat, acts: seq<Action>)
    requires Possible(Initial(n), acts)
    ensures Conserved(After(Initial(n), acts))
  {
    if acts != [] {
      var k := |acts| - 1;
      ConservedAlways(n, acts[..k]);
      ConservedByStep(After(Initial(n), acts[..k]), acts[k]);
    }
  }

  /** All objects blocked: nobody runs and nobody can be woken. */
  predicate Quiescent(c: Core)
  {
    forall k :: 0 <= k < |c.pc| ==> c.pc[k] == Waiting && c.sem[k] == 0
  }

  /** How far object k can be ahead; reached exactly when all objects are blocked. */
  lemma {:induction false} WaitsBounded(c: Core, k: nat)
    requires Conserved(c) && k < |c.pc|
    ensures c.waits[k] <= c.ticks + 1 + 2 * k
    ensures Quiescent(c) ==> c.waits[k] == c.ticks + 1 + 2 * k
  {
    if k > 0 {
      WaitsBounded(c, k - 1);
      assert c.sem[k] + c.waits[k] == 1 + c.posts[k - 1];
    }
  }

  /** Being stuck without a tick is the same as being quiescent. */
  lemma {:induction false} StuckIffQuiescent(c: Core)
    ensures Quiescent(c) <==> forall a :: Enabled(c, a) ==> a == Tick
  {
    if forall a :: Enabled(c, a) ==> a == Tick {
      forall k | 0 <= k < |c.pc| ensures c.pc[k] == Waiting && c.sem[k] == 0 {
        assert !Enabled(c, Post(k)) && !Enabled(c, Wake(k));
      }
    }
  }

  // ----- progress

  /** Steps that the tokens from semaphore k on still allow: a token in semaphore k is
      worth a wake and a post here and then what it is worth in the next one. */
  function Potential(c: Core, k: nat): nat
    requires k <= |c.pc|
    decreases |c.pc| - k
  {
    if k == |c.pc| then 0
    else
      2 * (|c.pc| - k) * c.sem[k]
      + (if c.pc[k] == Running then 2 * (|c.pc| - k) - 1 else 0)
      + Potential(c, k + 1)
  }

  lemma {:induction false} PotentialAbove(c: Core, d: Core, k: nat)
    requires |c.pc| == |d.pc| && k <= |c.pc|
    requires forall i :: k <= i < |c.pc| ==> c.sem[i] == d.sem[i] && c.pc[i] == d.pc[i]
    ensures Potential(c, k) == Potential(d, k)
    decreases |c.pc| - k
  {
    if k < |c.pc| { PotentialAbove(c, d, k + 1); }
  }

  /** Every step of an object uses up exactly one unit, so that tick-free runs end. */
  lemma {:induction false} StepUsesOne(c: Core, a: Action, j: nat)
    requires Enabled(c, a) && a != Tick && j <= a.k
    ensures Potential(Next(c, a), j) == Potential(c, j) - 1
    decreases |c.pc| - j
  {
    var d, n := Next(c, a), |c.pc|;
    if j < a.k {
      StepUsesOne(c, a, j + 1);
    } else if a.Wake? {
      PotentialAbove(c, d, j + 1);
      TokenWorth(n - j, c.sem[j]);
    } else if j + 1 < n {
      PotentialAbove(c, d, j + 2);
      TokenWorth(n - (j + 1), d.sem[j + 1]);
    }
  }

  lemma {:induction false} TokenWorth(w: nat, t: nat)
    requires t >= 1
    ensures 2 * w * t == 2 * w * (t - 1) + 2 * w
  {}

  lemma {:induction false} TokenPositive(w: nat, t: nat)
    requires w >= 1
    ensures 2 * w * t >= 0 && (2 * w * t == 0 <==> t == 0)
  {
    if t == 0 { assert 2 * w * t == 0; } else { MulLeft(2 * w, 1, t); }
  }

  predicate NoTick(acts: seq<Action>) {
    forall i :: 0 <= i < |acts| ==> acts[i] != Tick
  }

  lemma {:induction false} RunUsesAll(c: Core, acts: seq<Action>)
    requires Possible(c, acts) && NoTick(acts)
    ensures |acts| + Potential(After(c, acts), 0) == Potential(c, 0)
  {
    if acts != [] {
      var k := |acts| - 1;
      RunUsesAll(c, acts[..k]);
      StepUsesOne(After(c, acts[..k]), acts[k], 0);
    }
  }

  /** Nothing is left exactly when the objects from k on are blocked. */
  lemma {:induction false} SpentIffBlocked(c: Core, k: nat)
    requires k <= |c.pc|
    ensures Potential(c, k) == 0 <==> forall i :: k <= i < |c.pc| ==> c.pc[i] == Waiting && c.sem[i] == 0
    decreases |c.pc| - k
  {
    if k < |c.pc| {
      SpentIffBlocked(c, k + 1);
      TokenPositive(|c.pc| - k, c.sem[k]);
    }
  }

  /** Without ticks every run ends: it has at most as many steps as the potential, and it
      has that many exactly when it has reached quiescence. */
  lemma {:induction false} TickFreeRunsEnd(c: Core, acts: seq<Action>)
    requires Possible(c, acts) && NoTick(acts)
    ensures |acts| <= Potential(c, 0)
    ensures |acts| == Potential(c, 0) <==> Quiescent(After(c, acts))
  {
    RunUsesAll(c, acts);
    SpentIffBlocked(After(c, acts), 0);
  }

  // ----- one slot

  /** The steps of a slot: object 0 wakes and relinquishes, then object 1, and so on. */
  function SlotAction(j: nat): Action {
    if j % 2 == 0 then Wake(j / 2) else Post(j / 2)
  }

  /** The state j steps after a tick in the quiescent state c: the objects before j / 2 have
      run once, and the token of the slot is at object j / 2. */
  function Slot(c: Core, j: nat): (s: Core)
    requires j <= 2 * |c.pc|
    ensures |s.pc| == |c.pc|
  {
    var n, woken, done := |c.pc|, (j + 1) / 2, j / 2;
    CoreState(if j % 2 == 0 then c.sem[done := c.sem[done] + 1] else c.sem,
         if j % 2 == 0 then c.pc else c.pc[done := Running],
         c.ticks + 1,
         seq(n, i requires 0 <= i < n => if i < done then c.posts[i] + 1 else c.posts[i]),
         seq(n, i requires 0 <= i < n => if i < woken then c.waits[i] + 1 else c.waits[i]))
  }

  lemma {:induction false} SlotStart(c: Core)
    ensures Slot(c, 0) == Next(c, Tick)
  {
    assert Slot(c, 0).posts == c.posts && Slot(c, 0).waits == c.waits;
  }

  /** In a slot exactly one object step is possible, and it leads to the next state. */
  lemma {:induction false} SlotStep(c: Core, j: nat, a: Action)
    requires Quiescent(c) && j <= 2 * |c.pc| && a != Tick
    ensures Enabled(Slot(c, j), a) <==> j < 2 * |c.pc| && a == SlotAction(j)
    ensures j < 2 * |c.pc| && a == SlotAction(j) ==> Next(Slot(c, j), a) == Slot(c, j + 1)
  {
    var s := Slot(c, j);
    if j < 2 * |c.pc| && a == SlotAction(j) {
      var t, u := Next(s, a), Slot(c, j + 1);
      assert t.sem == u.sem && t.pc == u.pc && t.posts == u.posts && t.waits == u.waits;
    }
  }

  /** From a quiescent core, whatever the interleaving, the steps after a tick are those of
      objects 0, 1, ..., once each and in order. */
  lemma {:induction false} SlotRunsInOrder(c: Core, acts: seq<Action>)
    requires Quiescent(c)
    requires Possible(Next(c, Tick), acts) && NoTick(acts)
    ensures |acts| <= 2 * |c.pc|
    ensures forall i :: 0 <= i < |acts| ==> acts[i] == SlotAction(i)
    ensures After(Next(c, Tick), acts) == Slot(c, |acts|)
  {
    SlotStart(c);
    if acts != [] {
      var k := |acts| - 1;
      SlotRunsInOrder(c, acts[..k]);
      forall i | 0 <= i < k ensures acts[i] == SlotAction(i) { assert acts[..k][i] == acts[i]; }
      SlotStep(c, k, acts[k]);
    }
  }

  /** A slot that has run as far as it can has run every object once and is quiescent. */
  lemma {:induction false} SlotCompletes(c: Core, acts: seq<Action>)
    requires Quiescent(c)
    requires Possible(Next(c, Tick), acts) && NoTick(acts)
    ensures var d := After(Next(c, Tick), acts);
            && (Quiescent(d) <==> |acts| == 2 * |c.pc|)
            && (|acts| == 2 * |c.pc| ==>
                  && d.ticks == c.ticks + 1
                  && forall k :: 0 <= k < |c.pc| ==>
                       d.waits[k] == c.waits[k] + 1 && d.posts[k] == c.posts[k] + 1)
  {
    SlotRunsInOrder(c, acts);
    var j := |acts|;
    var d := Slot(c, j);
    if j < 2 * |c.pc| {
      SlotStep(c, j, SlotAction(j));
      StuckIffQuiescent(d);
    }
  }

  /** The slot is not only the one run that is possible; it is possible, up to its end. */
  lemma {:induction false} SlotIsPossible(c: Core, j: nat)
    requires Quiescent(c) && j <= 2 * |c.pc|
    ensures var acts := seq(j, i requires 0 <= i < j => SlotAction(i));
            Possible(Next(c, Tick), acts) && After(Next(c, Tick), acts) == Slot(c, j)
  {
    var acts := seq(j, i requires 0 <= i < j => SlotAction(i));
    if j == 0 {
      SlotStart(c);
    } else {
      SlotIsPossible(c, j - 1);
      assert acts[..j - 1] == seq(j - 1, i requires 0 <= i < j - 1 => SlotAction(i));
      SlotStep(c, j - 1, SlotAction(j - 1));
    }
  }

  /** At most one object of a core runs at any point of such a slot. */
  lemma {:induction false} SlotIsExclusive(c: Core, acts: seq<Action>, a: nat, b: nat)
    requires Quiescent(c)
    requires Possible(Next(c, Tick), acts) && NoTick(acts)
    requires a < |c.pc| && b < |c.pc|
    ensures var d := After(Next(c, Tick), acts);
            d.pc[a] == Running && d.pc[b] == Running ==> a == b
  {
    SlotRunsInOrder(c, acts);
  }

  // ----- the cores of a machine

  class Machine {
    const cores: array<Core>

    constructor (nofCores: nat, n: nat)
      ensures Valid() && fresh(cores) && cores.Length == nofCores
      ensures forall i :: 0 <= i < nofCores ==> cores[i] == Initial(n)
    {
      cores := new Core[nofCores](_ => Initial(n));
    }

    ghost predicate Valid()
      reads cores
    {
      forall i :: 0 <= i < cores.Length ==> Conserved(cores[i])
    }

    /** post_objects: the tick posts the first semaphore of every core. */
    method PostObjects()
      requires Valid()
      modifies cores
      ensures Valid()
      ensures forall i :: 0 <= i < cores.Length ==> cores[i] == Next(old(cores[i]), Tick)
    {
      hide Conserved, Next;
      var i := 0;
      while i < cores.Length
        invariant 0 <= i <= cores.Length && Valid()
        invariant forall k :: 0 <= k < i ==> cores[k] == Next(old(cores[k]), Tick)
        invariant forall k :: i <= k < cores.Length ==> cores[k] == old(cores[k])
      {
        ConservedByStep(cores[i], Tick);
        cores[i] := TickCore(cores[i]);
        i := i + 1;
      }
    }

    /** sem_post on the first semaphore of a core. */
    static method TickCore(c: Core) returns (c': Core)
      ensures c' == Next(c, Tick)
    {
      c' := c.(sem := c.sem[0 := c.sem[0] + 1], ticks := c.ticks + 1);
    }

    /** The first half of hwapi_relinquish: post the successor's semaphore. */
    method RelinquishPost(core: nat, k: nat)
      requires Valid() && core < cores.Length && Enabled(cores[core], Post(k))
      modifies cores
      ensures Valid() && cores[core] == Next(old(cores[core]), Post(k))
      ensures forall i :: 0 <= i < cores.Length && i != core ==> cores[i] == old(cores[i])
    {
      ConservedByStep(cores[core], Post(k));
      hide Conserved;
      var c := cores[core];
      cores[core] := c.(sem := c.sem[k + 1 := c.sem[k + 1] + 1], pc := c.pc[k := Waiting],
                        posts := c.posts[k := c.posts[k] + 1]);
    }

    /** The second half: the wait on the object's own semaphore is granted. */
    method RelinquishWake(core: nat, k: nat)
      requires Valid() && core < cores.Length && Enabled(cores[core], Wake(k))
      modifies cores
      ensures Valid() && cores[core] == Next(old(cores[core]), Wake(k))
      ensures forall i :: 0 <= i < cores.Length && i != core ==> cores[i] == old(cores[i])
    {
      ConservedByStep(cores[core], Wake(k));
      hide Conserved;
      var c := cores[core];
      cores[core] := c.(sem := c.sem[k := c.sem[k] - 1], pc := c.pc[k := Running],
                        waits := c.waits[k := c.waits[k] + 1]);
    }
  }
}
