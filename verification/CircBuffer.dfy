/** The circular buffer of modules/CIRC_BUFFER against a first-in first-out queue. */
module CircBuffer {

  /** Index k places after p in a ring of n. */
  function Wrap(p: nat, k: nat, n: nat): (r: nat)
    requires p < n && k <= n
    ensures r < n
  {
    if p + k < n then p + k else p + k - n
  }

  lemma {:induction false} WrapIsModulo(p: nat, k: nat, n: nat)
    requires p < n && k <= n
    ensures Wrap(p, k, n) == (p + k) % n
  {}

  /** The occupancy that the two indices stand for: a full ring looks empty. */
  function Level(r: nat, w: nat, n: nat): (c: nat)
    requires r < n && w < n
    ensures c < n && w == Wrap(r, c, n)
  {
    if w >= r then w - r else n - (r - w)
  }

  /** The c samples from r on. */
  function Slice<T>(d: seq<T>, r: nat, c: nat): (s: seq<T>)
    requires r < |d| && c <= |d|
    ensures |s| == c && forall k :: 0 <= k < c ==> s[k] == d[Wrap(r, k, |d|)]
  {
    seq(c, k requires 0 <= k < c => d[Wrap(r, k, |d|)])
  }

  /** Writing len samples behind c others, where there is room for them. */
  lemma {:induction false} SliceGrows<T>(d: seq<T>, d': seq<T>, r: nat, c: nat, w: nat, s: seq<T>)
    requires |d| == |d'| && r < |d| && c + |s| <= |d| && c < |d| && w == Wrap(r, c, |d|)
    requires forall k :: 0 <= k < |s| ==> d'[Wrap(w, k, |d|)] == s[k]
    requires forall p :: 0 <= p < |d| && (forall k :: 0 <= k < |s| ==> p != Wrap(w, k, |d|)) ==> d'[p] == d[p]
    ensures Slice(d', r, c + |s|) == Slice(d, r, c) + s
  {
    var n := |d|;
    forall i | 0 <= i < c + |s| ensures Slice(d', r, c + |s|)[i] == (Slice(d, r, c) + s)[i] {
      var p := Wrap(r, i, n);
      if i < c {
        assert forall k :: 0 <= k < |s| ==> p != Wrap(w, k, n);
      } else {
        assert p == Wrap(w, i - c, n);
      }
    }
  }

  lemma {:induction false} SliceShrinks<T>(d: seq<T>, r: nat, c: nat, k: nat)
    requires r < |d| && c < |d| && k <= c
    ensures Slice(d, Wrap(r, k, |d|), c - k) == Slice(d, r, c)[k..]
    ensures Slice(d, r, k) == Slice(d, r, c)[..k]
  {
    forall i | 0 <= i < c - k
      ensures Slice(d, Wrap(r, k, |d|), c - k)[i] == Slice(d, r, c)[k..][i]
    {
      assert Wrap(Wrap(r, k, |d|), i, |d|) == Wrap(r, k + i, |d|);
    }
  }

  // ----- histories

  datatype Op<T> = Put(samples: seq<T>) | Take(n: nat)

  /** A queue of bounded length with all it was given and all that was taken from it. */
  datatype Fifo<T> = Fifo(queue: seq<T>, given: seq<T>, taken: seq<T>)

  function Perform<T>(f: Fifo<T>, op: Op<T>, size: nat): Fifo<T> {
    match op
    case Put(s) => if |f.queue| + |s| <= size then Fifo(f.queue + s, f.given + s, f.taken) else f
    case Take(n) => if n <= |f.queue| then Fifo(f.queue[n..], f.given, f.taken + f.queue[..n]) else f
  }

  function PerformAll<T>(ops: seq<Op<T>>, size: nat): Fifo<T> {
    if ops == [] then Fifo([], [], [])
    else Perform(PerformAll(ops[..|ops| - 1], size), ops[|ops| - 1], size)
  }

  /** Nothing is lost, duplicated or reordered by the queue. */
  lemma {:induction false} QueueConserves<T>(ops: seq<Op<T>>, size: nat)
    ensures var f := PerformAll(ops, size); f.given == f.taken + f.queue && |f.queue| <= size
  {
    if ops != [] {
      QueueConserves(ops[..|ops| - 1], size);
      var f, op := PerformAll(ops[..|ops| - 1], size), ops[|ops| - 1];
      match op
      case Put(s) => assert f.taken + (f.queue + s) == f.taken + f.queue + s;
      case Take(n) =>
        if n <= |f.queue| { assert f.taken + f.queue[..n] + f.queue[n..] == f.taken + f.queue; }
    }
  }

  /** After any history, what fits is given and what is there can be taken, and else
      nothing happens. */
  lemma {:induction false} NextStep<T>(ops: seq<Op<T>>, s: seq<T>, n: nat, size: nat)
    ensures var f, g := PerformAll(ops, size), PerformAll(ops + [Put(s)], size);
            if |f.queue| + |s| <= size then g.queue == f.queue + s && g.given == f.given + s && g.taken == f.taken
            else g == f
    ensures var f, g := PerformAll(ops, size), PerformAll(ops + [Take(n)], size);
            if n <= |f.queue| then f.queue == f.queue[..n] + g.queue && g.taken == f.taken + f.queue[..n] && g.given == f.given
            else g == f
  {
    assert (ops + [Put(s)])[..|ops|] == ops && (ops + [Take(n)])[..|ops|] == ops;
  }

  /** The contents of the buffer: as the queue, but a buffer just filled looks empty. */
  function Shown<T>(ops: seq<Op<T>>, size: nat): Fifo<T> {
    if ops == [] then Fifo([], [], [])
    else Emptied(Perform(Shown(ops[..|ops| - 1], size), ops[|ops| - 1], size), size)
  }

  function Emptied<T>(f: Fifo<T>, size: nat): Fifo<T> {
    if |f.queue| == size then f.(queue := []) else f
  }

  ghost predicate NeverFull<T>(ops: seq<Op<T>>, size: nat) {
    forall i :: 0 <= i <= |ops| ==> |PerformAll(ops[..i], size).queue| < size
  }

  /** The buffer is the queue all along a history if and only if the queue is never full. */
  lemma {:induction false} QueueIff<T>(ops: seq<Op<T>>, size: nat)
    requires size >= 1
    ensures NeverFull(ops, size) <==> forall i :: 0 <= i <= |ops| ==> Shown(ops[..i], size) == PerformAll(ops[..i], size)
  {
    hide Perform;
    if NeverFull(ops, size) {
      forall i | 0 <= i <= |ops| ensures Shown(ops[..i], size) == PerformAll(ops[..i], size) {
        ShownIsQueue(ops, size, i);
      }
    } else {
      var i :| 0 <= i <= |ops| && |PerformAll(ops[..i], size).queue| >= size;
      QueueConserves(ops[..i], size);
      ShownSmaller(ops[..i], size);
    }
  }

  lemma {:induction false} ShownSmaller<T>(ops: seq<Op<T>>, size: nat)
    requires size >= 1
    ensures |Shown(ops, size).queue| < size
  {
    if ops != [] { ShownSmaller(ops[..|ops| - 1], size); }
  }

  lemma {:induction false} ShownIsQueue<T>(ops: seq<Op<T>>, size: nat, i: nat)
    requires NeverFull(ops, size) && i <= |ops|
    ensures Shown(ops[..i], size) == PerformAll(ops[..i], size)
  {
    hide Perform;
    if i > 0 {
      ShownIsQueue(ops, size, i - 1);
      assert ops[..i][..i - 1] == ops[..i - 1];
      assert |PerformAll(ops[..i], size).queue| < size;
    }
  }

  class Ring<T> {
    const data: array<T>
    var readIndex: nat
    var writeIndex: nat
    var occuplevel: int
    var roomlevel: int

    ghost predicate Valid()
      reads this
    {
      readIndex < data.Length && writeIndex < data.Length
    }

    ghost function Contents(): (s: seq<T>)
      reads this, data
      requires Valid()
      ensures |s| < data.Length
    {
      Slice(data[..], readIndex, Level(readIndex, writeIndex, data.Length))
    }

    /** The stored levels are those of the contents. */
    ghost predicate LevelsMatch()
      reads this, data
      requires Valid()
    {
      occuplevel == |Contents()| && roomlevel == data.Length - |Contents()|
    }

    /** initCbuff: an empty buffer whose indices start at firstpcketsz. */
    constructor (buffersz: nat, firstpcketsz: nat, zero: T)
      requires firstpcketsz < buffersz
      ensures Valid() && LevelsMatch() && Contents() == [] && data.Length == buffersz && fresh(data)
    {
      data := new T[buffersz](_ => zero);
      writeIndex, readIndex := firstpcketsz, firstpcketsz;
      occuplevel, roomlevel := 0, buffersz;
    }

    /** The level computation at the head and at the end of both operations. */
    method UpdateLevels()
      requires Valid()
      modifies this`occuplevel, this`roomlevel
      ensures LevelsMatch()
    {
      if writeIndex >= readIndex {
        occuplevel := writeIndex - readIndex;
      } else {
        occuplevel := data.Length - (readIndex - writeIndex);
      }
      roomlevel := data.Length - occuplevel;
    }

    /** Appends length samples when they fit. A write that leaves no room at all makes the
        buffer look empty; any smaller one appends to the queue. */
    method Write(input: array<T>, length: nat) returns (r: int)
      requires Valid() && length <= input.Length && input != data
      modifies this`writeIndex, this`occuplevel, this`roomlevel, data
      ensures Valid() && LevelsMatch()
      ensures r == if length <= data.Length - |old(Contents())| then 1 else -1
      ensures r == -1 ==> Contents() == old(Contents())
      ensures r == 1 ==>
        Contents() == if length < data.Length - |old(Contents())| then old(Contents()) + input[..length] else []
      ensures r == 1 ==>
        (Contents() == old(Contents()) + input[..length] <==> length < data.Length - |old(Contents())|)
    {
      hide Slice, Wrap, Level;
      UpdateLevels();
      if roomlevel >= length {
        ghost var before, c := data[..], |Contents()|;
        PutSamples(input, length);
        SliceGrows(before, data[..], readIndex, c, old(writeIndex), input[..length]);
        NewLevel(readIndex, c, old(writeIndex), length, data.Length);
        UpdateLevels();
        r := 1;
      } else {
        r := -1;
      }
    }

    static lemma {:induction false} NewLevel(r: nat, c: nat, w: nat, k: nat, n: nat)
      requires r < n && w < n && c == Level(r, w, n) && c + k <= n
      ensures Level(r, Wrap(w, k, n), n) == if c + k < n then c + k else 0
    {}

    /** The copying loop of writeCbuff. */
    method PutSamples(input: array<T>, length: nat)
      requires Valid() && length <= input.Length && input != data && length <= data.Length
      modifies this`writeIndex, data
      ensures Valid() && writeIndex == Wrap(old(writeIndex), length, data.Length)
      ensures forall k :: 0 <= k < length ==> data[..][Wrap(old(writeIndex), k, data.Length)] == input[..length][k]
      ensures forall p :: 0 <= p < data.Length && (forall k :: 0 <= k < length ==> p != Wrap(old(writeIndex), k, data.Length))
                ==> data[p] == old(data[p])
    {
      ghost var w, n := writeIndex, data.Length;
      var i := 0;
      while i < length
        invariant 0 <= i <= length && Valid() && writeIndex == Wrap(w, i, n)
        invariant forall k :: 0 <= k < i ==> data[Wrap(w, k, n)] == input[k]
        invariant forall p :: 0 <= p < n && (forall k :: 0 <= k < i ==> p != Wrap(w, k, n)) ==> data[p] == old(data[p])
      {
        assert forall k :: 0 <= k < i ==> Wrap(w, k, n) != Wrap(w, i, n);
        data[writeIndex] := input[i];
        writeIndex := writeIndex + 1;
        if writeIndex == data.Length { writeIndex := 0; }
        i := i + 1;
      }
    }

    /** Removes length samples from the front of the queue when there are that many. */
    method Read(output: array<T>, length: nat) returns (r: int)
      requires Valid() && length <= output.Length && output != data
      modifies this`readIndex, this`occuplevel, this`roomlevel, output
      ensures Valid() && LevelsMatch()
      ensures r == if length <= |old(Contents())| then 1 else -1
      ensures r == -1 ==> Contents() == old(Contents()) && output[..] == old(output[..])
      ensures r == 1 ==> Contents() == old(Contents())[length..] && output[..length] == old(Contents())[..length]
      ensures output[length..] == old(output[length..])
    {
      hide Slice, Wrap, Level;
      UpdateLevels();
      if occuplevel >= length {
        ghost var c, n := |Contents()|, data.Length;
        SliceShrinks(data[..], readIndex, c, length);
        GetSamples(output, length);
        ReadLevel(old(readIndex), c, writeIndex, length, n);
        UpdateLevels();
        r := 1;
      } else {
        r := -1;
      }
    }

    static lemma {:induction false} ReadLevel(r: nat, c: nat, w: nat, k: nat, n: nat)
      requires r < n && w < n && c == Level(r, w, n) && k <= c
      ensures Level(Wrap(r, k, n), w, n) == c - k
    {}

    /** The copying loop of readCbuff. */
    method GetSamples(output: array<T>, length: nat)
      requires Valid() && length <= output.Length && output != data && length <= data.Length
      modifies this`readIndex, output
      ensures Valid() && readIndex == Wrap(old(readIndex), length, data.Length)
      ensures output[..length] == Slice(data[..], old(readIndex), length)
      ensures output[length..] == old(output[length..])
    {
      ghost var s, n := readIndex, data.Length;
      var i := 0;
      while i < length
        invariant 0 <= i <= length && Valid() && readIndex == Wrap(s, i, n)
        invariant forall k :: 0 <= k < i ==> output[k] == data[Wrap(s, k, n)]
        invariant output[length..] == old(output[length..])
      {
        output[i] := data[readIndex];
        readIndex := readIndex + 1;
        if readIndex == data.Length { readIndex := 0; }
        i := i + 1;
      }
    }

    /** Any history of writes and reads on an empty buffer. */
    method Replay(ops: seq<Op<T>>, zero: T) returns (taken: seq<T>)
      requires Valid() && Contents() == [] && data.Length >= 1
      modifies this, data
      ensures Valid() && Contents() == Shown(ops, data.Length).queue && taken == Shown(ops, data.Length).taken
      ensures NeverFull(ops, data.Length) ==>
        Contents() == PerformAll(ops, data.Length).queue && PerformAll(ops, data.Length).given == taken + Contents()
    {
      taken := [];
      var i := 0;
      while i < |ops|
        invariant 0 <= i <= |ops| && Valid()
        invariant Contents() == Shown(ops[..i], data.Length).queue && taken == Shown(ops[..i], data.Length).taken
      {
        hide *;
        ghost var before := Shown(ops[..i], data.Length);
        ShownTurn(ops, i, data.Length);
        TakenAlike(before, ops[i], data.Length);
        var got := Turn(ops[i], zero);
        taken := taken + got;
        i := i + 1;
      }
      assert ops[..i] == ops;
      QueueConserves(ops, data.Length);
      if NeverFull(ops, data.Length) { ShownIsQueue(ops, data.Length, |ops|); }
    }

    static lemma {:induction false} ShownTurn(ops: seq<Op<T>>, i: nat, size: nat)
      requires i < |ops|
      ensures Shown(ops[..i + 1], size) == Emptied(Perform(Shown(ops[..i], size), ops[i], size), size)
    {
      assert ops[..i + 1][..i] == ops[..i];
    }

    /** A step depends on what is queued alone. */
    static lemma {:induction false} TakenAlike(f: Fifo<T>, op: Op<T>, size: nat)
      ensures var g, e := Emptied(Perform(f, op, size), size), Emptied(Perform(Fifo(f.queue, [], []), op, size), size);
              g.queue == e.queue && g.taken == f.taken + e.taken
    {}

    /** One write or read; gives what was read. */
    method Turn(op: Op<T>, zero: T) returns (got: seq<T>)
      requires Valid() && data.Length >= 1
      modifies this, data
      ensures Valid()
      ensures var f := Emptied(Perform(Fifo(old(Contents()), [], []), op, data.Length), data.Length);
              Contents() == f.queue && got == f.taken
    {
      hide Slice, Wrap, Level;
      got := [];
      match op {
      case Put(s) =>
        var input := new T[|s|](k requires 0 <= k < |s| => s[k]);
        assert input[..|s|] == s;
        var r := Write(input, |s|);
      case Take(n) =>
        var output := new T[n](_ => zero);
        var r := Read(output, n);
        if r == 1 { got := output[..n]; }
      }
    }
  }
}
