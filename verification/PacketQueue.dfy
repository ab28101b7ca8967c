/** Time-stamped packet interfaces: hwapi_itf_snd_ and hwapi_itf_rcv__ of
    hw_api/lnx/src/hwapi_linux_itf.c over message queues as msgsnd and msgrcv of POSIX.1
    define them. */
module PacketQueue {
  import opened Words
  import opened Wrappers

  const MSG_BUFF_SZ := 10 * 1024 * 1024

  datatype Msg = Msg(dst: int, tstamp: int, body: seq<byte>)

  type Queue = seq<Msg>

  // ----- the queue rules of POSIX.1

  /** Position of the message that a request for type typ takes: the first of all for 0,
      the first of that type for typ > 0, and for typ < 0 the first message of the lowest
      type that is not above -typ. */
  function Pick(q: Queue, typ: int): (r: Option<nat>)
    ensures r.Some? ==> r.value < |q|
  {
    if q == [] then None
    else
      var best := Pick(q[..|q| - 1], typ);
      var last := |q| - 1;
      if typ == 0 then Some(0)
      else if typ > 0 then
        if best.Some? then best else if q[last].dst == typ then Some(last) else None
      else
        if q[last].dst <= -typ && (best.None? || q[last].dst < q[best.value].dst) then Some(last) else best
  }

  /** The type that an object at stamp r asks for. */
  function UpTo(r: nat): int { 0 - r }

  /** What a delivery up to stamp r takes: nothing above r, nothing lower left behind, and
      nothing equal in front of it. */
  lemma {:induction false} PickIsLowestFirst(q: Queue, r: nat)
    requires r >= 1
    ensures var p := Pick(q, UpTo(r));
            if p.None? then forall i :: 0 <= i < |q| ==> q[i].dst > r
            else
              && q[p.value].dst <= r
              && (forall i :: 0 <= i < |q| ==> q[i].dst >= q[p.value].dst)
              && (forall i :: 0 <= i < p.value ==> q[i].dst > q[p.value].dst)
    decreases |q|
  {
    if q != [] {
      var k := |q| - 1;
      PickIsLowestFirst(q[..k], r);
      assert forall i :: 0 <= i < k ==> q[..k][i] == q[i];
    }
  }

  predicate Sorted(q: Queue) {
    forall i, j :: 0 <= i < j < |q| ==> q[i].dst <= q[j].dst
  }

  /** A reader at stamp r, once s messages are gone, gets the front of the queue or nothing. */
  predicate FromFront(q: Queue, s: nat, r: nat)
    requires s <= |q|
  {
    Pick(q[s..], UpTo(r)) in {None, Some(0)}
  }

  /** Every reader is served from the front, however much has been read before, if and
      only if destination stamps never decrease along the queue. */
  lemma {:induction false} FrontFirstIff(q: Queue)
    requires forall i :: 0 <= i < |q| ==> q[i].dst >= 1
    ensures Sorted(q) <==> forall s: nat, r: nat :: s <= |q| && r >= 1 ==> FromFront(q, s, r)
  {
    hide Pick;
    forall s: nat, r: nat | s <= |q| && r >= 1 && Sorted(q) ensures FromFront(q, s, r) {
      SortedFromFront(q[s..], r);
    }
    if !Sorted(q) {
      var i, j :| 0 <= i < j < |q| && q[i].dst > q[j].dst;
      var r: nat := q[j].dst;
      PickIsLowestFirst(q[i..], r);
      assert q[i..][j - i] == q[j] && q[i..][0] == q[i];
      assert !FromFront(q, i, r);
    }
  }

  lemma {:induction false} SortedFromFront(q: Queue, r: nat)
    requires Sorted(q) && r >= 1
    ensures Pick(q, UpTo(r)) == if q != [] && q[0].dst <= r then Some(0) else None
  {
    hide Pick;
    PickIsLowestFirst(q, r);
  }

  /** A reader whose stamp is still 0 asks for type 0 and is given the first packet,
      whatever its destination stamp. */
  lemma {:induction false} StampZeroIgnoresDelay(q: Queue)
    ensures Pick(q, UpTo(0)) == if q == [] then None else Some(0)
  {
    if q != [] { StampZeroIgnoresDelay(q[..|q| - 1]); }
  }

  /** A request for one type takes the first message of that type. */
  lemma {:induction false} PickOfType(q: Queue, typ: int)
    requires typ > 0
    ensures var p := Pick(q, typ);
            if p.None? then forall i :: 0 <= i < |q| ==> q[i].dst != typ
            else q[p.value].dst == typ && forall i :: 0 <= i < p.value ==> q[i].dst != typ
  {
    if q != [] {
      var k := |q| - 1;
      PickOfType(q[..k], typ);
      assert forall i :: 0 <= i < k ==> q[..k][i] == q[i];
    }
  }

  // ----- constant delay

  datatype Op = Send(stamp: nat, body: seq<byte>, room: bool) | Receive(stamp: nat)

  /** The queue with all that has been accepted into it and taken from it; received
      remembers at what stamp each packet was taken. */
  datatype History = History(queue: Queue, accepted: seq<Msg>, received: seq<Msg>, stamps: seq<nat>)

  function Perform(h: History, d: nat, op: Op): History {
    match op
    case Send(t, b, room) =>
      if room then
        var m := Msg(t + d, t + d, b);
        h.(queue := h.queue + [m], accepted := h.accepted + [m])
      else h
    case Receive(r) =>
      var p := Pick(h.queue, UpTo(r));
      if p.None? then h
      else h.(queue := h.queue[..p.value] + h.queue[p.value + 1..],
              received := h.received + [h.queue[p.value]], stamps := h.stamps + [r])
  }

  function PerformAll(d: nat, ops: seq<Op>): History {
    if ops == [] then History([], [], [], [])
    else Perform(PerformAll(d, ops[..|ops| - 1]), d, ops[|ops| - 1])
  }

  /** The sender's stamp never goes back. */
  predicate Orderly(ops: seq<Op>) {
    forall i, j :: 0 <= i < j < |ops| && ops[i].Send? && ops[j].Send? ==> ops[i].stamp <= ops[j].stamp
  }

  function MaxStamp(ops: seq<Op>): (m: nat)
    ensures forall i :: 0 <= i < |ops| ==> ops[i].stamp <= m
  {
    if ops == [] then 0
    else
      var m, last := MaxStamp(ops[..|ops| - 1]), ops[|ops| - 1].stamp;
      if m < last then last else m
  }

  /** A packet taken at stamp r has come in time, or r is 0. */
  predicate Timely(m: Msg, r: nat) {
    m.dst >= 1 && (m.dst <= r || r == 0)
  }

  ghost predicate InOrder(h: History, d: nat, bound: nat) {
    && h.accepted == h.received + h.queue
    && Sorted(h.queue) && (forall i :: 0 <= i < |h.queue| ==> 1 <= h.queue[i].dst <= bound + d)
    && |h.stamps| == |h.received|
    && forall i :: 0 <= i < |h.received| ==> Timely(h.received[i], h.stamps[i])
  }

  lemma {:induction false} OrderAlways(d: nat, ops: seq<Op>, bound: nat)
    requires d >= 1 && Orderly(ops)
    requires forall i :: 0 <= i < |ops| && ops[i].Send? ==> ops[i].stamp <= bound
    ensures InOrder(PerformAll(d, ops), d, bound)
  {
    if ops != [] {
      hide Pick, InOrder, Perform;
      var k := |ops| - 1;
      var b := if ops[k].Send? then ops[k].stamp else bound;
      OrderAlways(d, ops[..k], b);
      OrderKept(PerformAll(d, ops[..k]), d, ops[k], b, bound);
    }
  }

  /** With a constant delay the interface is a FIFO: what was accepted is what was received
      followed by what is queued. No packet is received before d slots have passed if and
      only if no reader asks at stamp 0. */
  lemma {:induction false} DelayKeepsFifo(d: nat, ops: seq<Op>)
    requires d >= 1 && Orderly(ops)
    ensures var h := PerformAll(d, ops);
            && h.accepted == h.received + h.queue
            && |h.stamps| == |h.received|
            && ((forall i :: 0 <= i < |h.received| ==> h.received[i].dst <= h.stamps[i]) <==> 0 !in h.stamps)
  {
    hide PerformAll, Orderly, Sorted;
    OrderAlways(d, ops, MaxStamp(ops));
    var h := PerformAll(d, ops);
    if 0 in h.stamps {
      var i :| 0 <= i < |h.stamps| && h.stamps[i] == 0;
      assert Timely(h.received[i], h.stamps[i]);
    } else {
      forall i | 0 <= i < |h.received| ensures h.received[i].dst <= h.stamps[i] {
        assert Timely(h.received[i], h.stamps[i]);
      }
    }
  }

  lemma {:induction false} OrderKept(h: History, d: nat, op: Op, b: nat, bound: nat)
    requires d >= 1 && InOrder(h, d, b) && b <= bound
    requires op.Send? ==> op.stamp == b
    ensures InOrder(Perform(h, d, op), d, bound)
  {
    hide Pick, InOrder, Sorted;
    if op.Send? {
      SendKeepsOrder(h, d, op, bound);
    } else {
      ReceiveKeepsOrder(h, d, op, b, bound);
    }
  }

  lemma {:induction false} SendKeepsOrder(h: History, d: nat, op: Op, bound: nat)
    requires d >= 1 && op.Send? && InOrder(h, d, op.stamp) && op.stamp <= bound
    ensures InOrder(Perform(h, d, op), d, bound)
  {
    if op.room {
      var m := Msg(op.stamp + d, op.stamp + d, op.body);
      assert h.received + (h.queue + [m]) == h.received + h.queue + [m];
    }
  }

  lemma {:induction false} ReceiveKeepsOrder(h: History, d: nat, op: Op, b: nat, bound: nat)
    requires op.Receive? && InOrder(h, d, b) && b <= bound
    ensures InOrder(Perform(h, d, op), d, bound)
  {
    hide Pick, Sorted, InOrder;
    InOrderWider(h, d, b, bound);
    ServedFromFront(h.queue, op.stamp);
    if h.queue != [] && (op.stamp == 0 || h.queue[0].dst <= op.stamp) {
      assert h.queue[..0] + h.queue[1..] == h.queue[1..];
      FrontTaken(h, d, op.stamp, b, bound);
    }
  }

  /** From a sorted queue every reader, also one at stamp 0, gets the front or nothing. */
  lemma {:induction false} ServedFromFront(q: Queue, r: nat)
    requires Sorted(q)
    ensures Pick(q, UpTo(r)) == if q != [] && (r == 0 || q[0].dst <= r) then Some(0) else None
  {
    hide Pick, Sorted;
    if r == 0 { StampZeroIgnoresDelay(q); } else { SortedFromFront(q, r); }
  }

  lemma {:induction false} InOrderWider(h: History, d: nat, b: nat, bound: nat)
    requires InOrder(h, d, b) && b <= bound
    ensures InOrder(h, d, bound) && Sorted(h.queue)
  {
  }

  lemma {:induction false} FrontTaken(h: History, d: nat, r: nat, b: nat, bound: nat)
    requires InOrder(h, d, b) && b <= bound && h.queue != [] && (r == 0 || h.queue[0].dst <= r)
    ensures InOrder(History(h.queue[1..], h.accepted, h.received + [h.queue[0]], h.stamps + [r]), d, bound)
  {
    assert h.queue == [h.queue[0]] + h.queue[1..];
    assert h.received + h.queue == h.received + [h.queue[0]] + h.queue[1..];
  }

  /** The sends that found room, in order. */
  function Sends(ops: seq<Op>): (r: seq<Op>)
    ensures forall i :: 0 <= i < |r| ==> r[i].Send? && r[i].room && r[i] in ops
  {
    if ops == [] then []
    else
      var last := ops[|ops| - 1];
      Sends(ops[..|ops| - 1]) + if last.Send? && last.room then [last] else []
  }

  function Sent(d: nat, op: Op): Msg
    requires op.Send?
  {
    Msg(op.stamp + d, op.stamp + d, op.body)
  }

  lemma {:induction false} AcceptedAreSends(d: nat, ops: seq<Op>)
    ensures var h := PerformAll(d, ops);
            |h.accepted| == |Sends(ops)|
            && forall i :: 0 <= i < |h.accepted| ==> h.accepted[i] == Sent(d, Sends(ops)[i])
  {
    if ops != [] {
      hide Pick;
      AcceptedAreSends(d, ops[..|ops| - 1]);
    }
  }

  /** The k-th packet received is the k-th that was sent into room, with the stamp of its
      send plus the delay. */
  lemma {:induction false} ReceivedAreSends(d: nat, ops: seq<Op>, k: nat)
    requires d >= 1 && Orderly(ops) && k < |PerformAll(d, ops).received|
    ensures k < |Sends(ops)| && PerformAll(d, ops).received[k] == Sent(d, Sends(ops)[k])
    ensures k < |PerformAll(d, ops).stamps|
  {
    hide PerformAll, Sends, Orderly;
    DelayKeepsFifo(d, ops);
    AcceptedAreSends(d, ops);
    var h := PerformAll(d, ops);
    assert h.received[k] == (h.received + h.queue)[k];
  }

  // ----- chains of links

  /** One link of a chain: its history of sends and receives, and which of the packets
      received on it is the one that travels. */
  datatype Hop = Hop(ops: seq<Op>, k: nat)

  /** The packet has been received, and not by a reader at stamp 0. */
  ghost predicate OnItsWay(d: nat, hop: Hop) {
    var h := PerformAll(d, hop.ops);
    && Orderly(hop.ops)
    && hop.k < |h.received| && hop.k < |h.stamps| && hop.k < |Sends(hop.ops)|
    && h.stamps[hop.k] != 0
  }

  /** The stamps of the send that put the packet into the link and of its receiver. */
  function SentAt(d: nat, hop: Hop): nat
    requires OnItsWay(d, hop)
  {
    Sends(hop.ops)[hop.k].stamp
  }

  function GotAt(d: nat, hop: Hop): nat
    requires OnItsWay(d, hop)
  {
    PerformAll(d, hop.ops).stamps[hop.k]
  }

  /** Each object forwards the packet not before it has received it. */
  ghost predicate Journey(d: nat, hops: seq<Hop>) {
    && (forall i :: 0 <= i < |hops| ==> OnItsWay(d, hops[i]))
    && (forall i :: 0 < i < |hops| ==> GotAt(d, hops[i - 1]) <= SentAt(d, hops[i]))
  }

  lemma {:induction false} HopTakes(d: nat, hop: Hop)
    requires d >= 1 && OnItsWay(d, hop)
    ensures SentAt(d, hop) + d <= GotAt(d, hop)
  {
    hide PerformAll, Orderly, Sorted, Sends;
    ReceivedAreSends(d, hop.ops, hop.k);
    OrderAlways(d, hop.ops, MaxStamp(hop.ops));
    var h := PerformAll(d, hop.ops);
    assert Timely(h.received[hop.k], h.stamps[hop.k]);
  }

  /** Over m links of delay d a packet takes at least m * d slots, in every history of
      every link. */
  lemma {:induction false} ChainLatency(d: nat, hops: seq<Hop>)
    requires d >= 1 && Journey(d, hops) && |hops| >= 1
    ensures GotAt(d, hops[|hops| - 1]) >= SentAt(d, hops[0]) + |hops| * d
  {
    hide OnItsWay, SentAt, GotAt;
    var k := |hops| - 1;
    HopTakes(d, hops[k]);
    if k > 0 {
      ChainLatency(d, hops[..k]);
      assert hops[..k][k - 1] == hops[k - 1];
      MulSucc(k, d);
    } else {
      assert |hops| == 1;
    }
  }

  lemma {:induction false} MulSucc(k: nat, d: nat)
    ensures (k + 1) * d == k * d + d
  {}

  // ----- the operations

  class Interface {
    var queue: Queue
    var delay: nat
    var external: bool

    constructor ()
      ensures queue == [] && delay == 0 && !external
    {
      queue, delay, external := [], 0, false;
    }

    method SetDelay(nofTslots: nat)
      modifies this`delay
      ensures delay == nofTslots
    {
      delay := nofTslots;
    }

    /** hwapi_itf_snd_. myProc tells whether an object or a daemon sends, room whether the
        queue can take the packet, unset what the unassigned local stamp would hold. A packet
        is addressed to the sender's stamp plus the delay of the interface or else the
        default one, type 1 without any delay, unless a positive stamp is forced. */
    method Snd(buffer: seq<byte>, myProc: bool, stamp: nat, forced: int, defaultDelay: nat,
               externalDelay: nat, room: bool, unset: int) returns (r: int)
      modifies this`queue
      ensures r == if |buffer| > MSG_BUFF_SZ then -1 else if !room then 0 else |buffer|
      ensures |buffer| > MSG_BUFF_SZ || !room ==> queue == old(queue)
      ensures |buffer| <= MSG_BUFF_SZ && room ==>
        && |queue| == |old(queue)| + 1 && queue[..|old(queue)|] == old(queue)
        && var m := queue[|old(queue)|];
           && m.body == buffer
           && (forced > 0 ==> m.dst == forced)
           && (forced <= 0 && myProc && delay > 0 && !external ==> m.dst == stamp + delay)
           && (forced <= 0 && myProc && delay > 0 && external ==> m.dst == stamp + delay + externalDelay)
           && (forced <= 0 && myProc && delay == 0 && defaultDelay > 0 && !external ==> m.dst == stamp + defaultDelay)
           && (forced <= 0 && myProc && delay == 0 && defaultDelay > 0 && external ==>
                 m.dst == stamp + defaultDelay + externalDelay)
           && (forced <= 0 && (!myProc || delay == 0 == defaultDelay) ==> m.dst == 1)
           && (myProc && delay > 0 ==> m.tstamp == stamp + delay)
           && (myProc && delay == 0 && defaultDelay > 0 ==> m.tstamp == stamp + defaultDelay)
           && (!myProc || delay == 0 == defaultDelay ==> m.tstamp == unset)
           && (Sorted(old(queue)) && (old(queue) == [] || old(queue)[|old(queue)| - 1].dst <= m.dst) ==> Sorted(queue))
      ensures myProc && !external && forced <= 0 && |buffer| <= MSG_BUFF_SZ ==>
        && (delay > 0 ==>
              queue == Perform(History(old(queue), [], [], []), delay, Send(stamp, buffer, room)).queue)
        && (delay == 0 && defaultDelay > 0 ==>
              queue == Perform(History(old(queue), [], [], []), defaultDelay, Send(stamp, buffer, room)).queue)
    {
      if |buffer| > MSG_BUFF_SZ { return -1; }
      var d := 0;
      if myProc {
        d := delay;
        if d == 0 { d := defaultDelay; }
      }
      var tstamp := unset;
      var dst := 1;
      if d != 0 {
        tstamp := stamp;
        dst := tstamp + d;
        if external { dst := dst + externalDelay; }
      }
      if forced > 0 { dst := forced; }
      if !room { return 0; }
      queue := queue + [Msg(dst, tstamp + d, buffer)];
      r := |buffer|;
    }

    /** hwapi_itf_rcv__ without waiting: a daemon takes the first packet, an object at stamp
        r >= 1 the first of the lowest destination that has come. The body is cut to size. */
    method Rcv(myProc: bool, stamp: nat, size: nat) returns (n: nat, body: seq<byte>, tstamp: int)
      modifies this`queue
      ensures Pick(old(queue), if myProc then UpTo(stamp) else 0).None? ==>
                n == 0 && body == [] && queue == old(queue)
      ensures Pick(old(queue), if myProc then UpTo(stamp) else 0).Some? ==>
        var p := Pick(old(queue), if myProc then UpTo(stamp) else 0).value;
        && queue == old(queue)[..p] + old(queue)[p + 1..]
        && n == |body| == (if |old(queue)[p].body| > size then size else |old(queue)[p].body|)
        && body == old(queue)[p].body[..n] && tstamp == old(queue)[p].tstamp
      ensures myProc ==> queue == Perform(History(old(queue), [], [], []), delay, Receive(stamp)).queue
      ensures Sorted(old(queue)) ==> Sorted(queue)
      ensures Sorted(old(queue)) && myProc ==>
        queue == if old(queue) != [] && (stamp == 0 || old(queue)[0].dst <= stamp) then old(queue)[1..] else old(queue)
    {
      if myProc && Sorted(queue) { ServedFromFront(queue, stamp); }
      hide Pick;
      var typ := if myProc then UpTo(stamp) else 0;
      var p := Pick(queue, typ);
      if p.None? { return 0, [], 0; }
      var msg := queue[p.value];
      queue := queue[..p.value] + queue[p.value + 1..];
      n := |msg.body|;
      if n > size { n := size; }
      body := msg.body[..n];
      tstamp := msg.tstamp;
    }

    /** Any history of sends and receives of objects on a link, under the delay of the
        interface or the default one: what arrives is the history's, in order and, unless
        somebody reads at stamp 0, not before its time. */
    method Replay(ops: seq<Op>, defaultDelay: nat, size: nat) returns (got: seq<seq<byte>>, ghost h: History)
      requires queue == [] && !external && (delay > 0 || defaultDelay > 0) && Orderly(ops)
      requires size >= MSG_BUFF_SZ && forall i :: 0 <= i < |ops| && ops[i].Send? ==> |ops[i].body| <= MSG_BUFF_SZ
      modifies this`queue
      ensures h == PerformAll(if delay > 0 then delay else defaultDelay, ops) && queue == h.queue
      ensures h.accepted == h.received + h.queue && |h.stamps| == |h.received| == |got|
      ensures forall i :: 0 <= i < |got| ==> got[i] == h.received[i].body
      ensures (forall i :: 0 <= i < |got| ==> h.received[i].dst <= h.stamps[i]) <==> 0 !in h.stamps
    {
      ghost var d := if delay > 0 then delay else defaultDelay;
      got, h := [], PerformAll(d, []);
      var i := 0;
      while i < |ops|
        invariant 0 <= i <= |ops| && h == PerformAll(d, ops[..i]) && queue == h.queue
        invariant |got| == |h.received| && forall k :: 0 <= k < |got| ==> got[k] == h.received[k].body
        invariant AllShort(queue)
      {
        hide *;
        OneMore(d, ops, i);
        var body := Turn(ops[i], defaultDelay, size, h);
        if body.Some? { got := got + [body.value]; }
        h := Perform(h, d, ops[i]);
        i := i + 1;
      }
      assert ops[..i] == ops;
      DelayKeepsFifo(d, ops);
    }

    static lemma {:induction false} OneMore(d: nat, ops: seq<Op>, i: nat)
      requires i < |ops|
      ensures PerformAll(d, ops[..i + 1]) == Perform(PerformAll(d, ops[..i]), d, ops[i])
    {
      assert ops[..i + 1][..i] == ops[..i];
    }

    /** One of them; gives the body of the packet received, if any. */
    method Turn(op: Op, defaultDelay: nat, size: nat, ghost h: History) returns (body: Option<seq<byte>>)
      requires queue == h.queue && !external && (delay > 0 || defaultDelay > 0)
      requires size >= MSG_BUFF_SZ && (op.Send? ==> |op.body| <= MSG_BUFF_SZ)
      requires AllShort(queue)
      modifies this`queue
      ensures AllShort(queue)
      ensures var g := Perform(h, if delay > 0 then delay else defaultDelay, op);
              && queue == g.queue
              && (body.None? ==> g.received == h.received)
              && (body.Some? ==> |g.received| == |h.received| + 1 && g.received[..|h.received|] == h.received
                                 && g.received[|h.received|].body == body.value)
    {
      hide *;
      body := None;
      ghost var d := if delay > 0 then delay else defaultDelay;
      PerformAlike(h, d, op);
      if op.Send? {
        ShortAfter(queue, d, op);
        var r := Snd(op.body, true, op.stamp, -1, defaultDelay, 0, op.room, 0);
      } else {
        ShortAfter(queue, delay, op);
        var before := |queue|;
        var n, bytes, tstamp := Rcv(true, op.stamp, size);
        if |queue| < before { body := Some(bytes); }
      }
    }

    /** A step depends on what is queued alone. */
    static lemma {:induction false} PerformAlike(h: History, d: nat, op: Op)
      ensures var g := Perform(h, d, op);
              && (forall e :: op.Receive? || e == d ==> Perform(History(h.queue, [], [], []), e, op).queue == g.queue)
              && (op.Send? || Pick(h.queue, UpTo(op.stamp)).None? ==> g.received == h.received)
              && (op.Receive? && Pick(h.queue, UpTo(op.stamp)).Some? ==>
                    g.received == h.received + [h.queue[Pick(h.queue, UpTo(op.stamp)).value]])
    {
      hide Pick;
    }

    /** No packet is longer than the limit. */
    static predicate AllShort(q: Queue) {
      forall k :: 0 <= k < |q| ==> |q[k].body| <= MSG_BUFF_SZ
    }

    static lemma {:induction false} ShortAfter(q: Queue, d: nat, op: Op)
      requires AllShort(q) && (op.Send? ==> |op.body| <= MSG_BUFF_SZ)
      ensures AllShort(Perform(History(q, [], [], []), d, op).queue)
      ensures op.Receive? ==> var p := Pick(q, UpTo(op.stamp)); p.Some? ==> |q[p.value].body| <= MSG_BUFF_SZ
    {
      hide Pick;
    }
  }
}
