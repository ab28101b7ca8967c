/** The slot allocator of hw_api/lnx/src/mem.c: first fit over an array of slot flags,
    with one descriptor per slot to remember which slots a block owns. */
module MemPool {
  import opened Arithmetic

  const MEM_SIZEOF := 24
  const CHUNK_SIZEOF := 8
  const NO_OFFSET := -1

  datatype Chunk = Chunk(offset: int, slotSt: int, slotEnd: int)

  // ----- layout of the managed buffer

  function CalcBuffer(nofSlots: nat, slotSz: nat): nat {
    MEM_SIZEOF + nofSlots * (slotSz + 1 + CHUNK_SIZEOF)
  }

  function SlotCount(buffSz: nat, slotSz: nat): nat
    requires buffSz >= MEM_SIZEOF
  {
    (buffSz - MEM_SIZEOF) / (slotSz + 1 + CHUNK_SIZEOF)
  }

  /** Where the data area starts: the end of the flags, rounded down to a word. */
  function DataOffset(nofSlots: nat): nat {
    (MEM_SIZEOF + nofSlots * CHUNK_SIZEOF + nofSlots - 1) / 4 * 4
  }

  /** Where the flags start, behind the descriptors. */
  function FlagsOffset(nofSlots: nat): nat {
    MEM_SIZEOF + nofSlots * CHUNK_SIZEOF
  }

  /** As many slots as there is room for: header, descriptors, flags and data of n slots fit
      into a buffer exactly when n is at most the number of slots. So the calculated size
      is the least that holds the requested slots, and what is laid out stays inside. */
  lemma {:induction false} LayoutFits(n: nat, slotSz: nat, buffSz: nat)
    requires buffSz >= MEM_SIZEOF
    ensures FlagsOffset(n) + n + n * slotSz == CalcBuffer(n, slotSz)
    ensures n <= SlotCount(buffSz, slotSz) <==> CalcBuffer(n, slotSz) <= buffSz
    ensures SlotCount(CalcBuffer(n, slotSz), slotSz) == n
    ensures n <= SlotCount(buffSz, slotSz) ==> DataOffset(n) + n * slotSz <= buffSz
  {
    var unit := slotSz + 1 + CHUNK_SIZEOF;
    assert n * unit == unit * n && n * unit == n * slotSz + n + n * CHUNK_SIZEOF;
    WholeUnits(n, unit, buffSz - MEM_SIZEOF);
  }

  /** The runtime's pool of shared variables: 500 KiB in slots of 32 bytes. */
  lemma {:induction false} VariablePool()
    ensures SlotCount(500 * 1024, 32) == 12487
    ensures CalcBuffer(12487, 32) < 500 * 1024 < CalcBuffer(12488, 32)
  {
    LayoutFits(12487, 32, 500 * 1024);
    LayoutFits(12488, 32, 500 * 1024);
  }

  /** The data area always starts inside the flags: its first (n - 1) % 4 + 1 bytes are the
      flags of the last slots. */
  lemma {:induction false} DataCoversFlags(n: nat, j: nat)
    requires n >= 1
    ensures DataOffset(n) < FlagsOffset(n) + n
    ensures var k := (n - 1) % 4 + 1;
            && k <= n && (j < k <==> DataOffset(n) + j < FlagsOffset(n) + n)
            && DataOffset(n) + j == FlagsOffset(n) + (n - k + j)
  {
    var q, r := (n - 1) / 4, (n - 1) % 4;
    assert MEM_SIZEOF + n * CHUNK_SIZEOF + n - 1 == 4 * (6 + 2 * n + q) + r;
    DivModUnique(MEM_SIZEOF + n * CHUNK_SIZEOF + n - 1, 4, 6 + 2 * n + q, r);
  }

  // ----- first fit

  /** Slots that a request of size bytes needs: the quotient rounded up. */
  function Need(size: nat, sz: nat): nat
    requires sz >= 1
  {
    (size + sz - 1) / sz
  }

  lemma {:induction false} NeedIsLeast(size: nat, sz: nat, k: nat)
    requires sz >= 1
    ensures k * sz < size <==> k < Need(size, sz)
  {
    var q, r := (size + sz - 1) / sz, (size + sz - 1) % sz;
    assert size + sz - 1 == sz * q + r;
    assert k * sz == sz * k;
    if k < q {
      MulLeft(sz, k + 1, q);
      assert sz * (k + 1) == sz * k + sz;
    } else {
      MulLeft(sz, q, k);
    }
  }

  predicate FreeRun(slots: seq<bool>, j: int, need: nat) {
    0 <= j && j + need <= |slots| && forall s :: j <= s < j + need ==> !slots[s]
  }

  ghost predicate LowestRun(slots: seq<bool>, j: nat, need: nat) {
    FreeRun(slots, j, need) && forall k :: 0 <= k < j ==> !FreeRun(slots, k, need)
  }

  /** The scanning loop of mem_alloc: j is where the current run starts, i is next. */
  function Scan(slots: seq<bool>, size: nat, sz: nat, j: nat, i: nat): (r: (nat, nat))
    requires j <= i < |slots|
    decreases |slots| - i
  {
    var j' := if slots[i] then i + 1 else j;
    var i' := i + 1;
    if (i' - j') * sz < size && i' < |slots| then Scan(slots, size, sz, j', i') else (j', i')
  }

  /** What the scan knows when it looks at slot i. */
  ghost predicate Scanned(slots: seq<bool>, need: nat, j: nat, i: nat)
    requires i <= |slots|
  {
    && j <= i
    && (forall s :: j <= s < i ==> !slots[s])
    && (j > 0 ==> slots[j - 1])
    && (forall k :: 0 <= k && k + need <= i ==> !FreeRun(slots, k, need))
  }

  lemma {:induction false} ScanFrom(slots: seq<bool>, size: nat, sz: nat, j: nat, i: nat)
    requires size >= 1 && sz >= 1 && i < |slots| && Scanned(slots, Need(size, sz), j, i)
    requires i - j < Need(size, sz)
    ensures var (a, b) := Scan(slots, size, sz, j, i);
            var need := Need(size, sz);
            && a <= b <= |slots|
            && if (b - a) * sz < size then
                 forall k {:trigger FreeRun(slots, k, need)} :: !FreeRun(slots, k, need)
               else
                 b == a + need && LowestRun(slots, a, need)
    decreases |slots| - i
  {
    hide Need;
    var need := Need(size, sz);
    NeedIsLeast(size, sz, 0);
    var j' := if slots[i] then i + 1 else j;
    var i' := i + 1;
    NeedIsLeast(size, sz, i' - j');
    forall k | 0 <= k && k + need <= i' && i' - j' < need
      ensures !FreeRun(slots, k, need)
    {
      if k + need == i' { assert j' > 0 && slots[j' - 1] && k <= j' - 1 < k + need; }
    }
    if i' - j' < need && i' < |slots| {
      ScanFrom(slots, size, sz, j', i');
    } else if i' - j' >= need {
      assert i' - j' == need;
      forall k | 0 <= k < j' ensures !FreeRun(slots, k, need) {
        assert k + need <= i;
      }
    }
  }

  /** First fit: the scan stops at the lowest run of free slots that is long enough, and
      fails only when there is none. */
  lemma {:induction false} ScanIsFirstFit(slots: seq<bool>, size: nat, sz: nat)
    requires size >= 1 && sz >= 1 && |slots| >= 1
    ensures var (a, b) := Scan(slots, size, sz, 0, 0);
            var need := Need(size, sz);
            && a <= b <= |slots|
            && if (b - a) * sz < size then
                 forall k {:trigger FreeRun(slots, k, need)} :: !FreeRun(slots, k, need)
               else
                 b == a + need && LowestRun(slots, a, need)
  {
    NeedIsLeast(size, sz, 0);
    ScanFrom(slots, size, sz, 0, 0);
  }

  /** A request of zero bytes whose first slot is taken gets an empty block at slot 1,
      which the next block placed there shares. */
  lemma {:induction false} ZeroSizeIsEmpty(slots: seq<bool>, sz: nat)
    requires |slots| >= 2 && slots[0] && !slots[1] && sz >= 1
    ensures Scan(slots, 0, sz, 0, 0) == (1, 1)
    ensures Scan(slots, sz, sz, 0, 0) == (1, 2)
  {
    assert (1 - 1) * sz == 0;
  }

  // ----- counting descriptors

  function Starts(cs: seq<Chunk>): (r: set<int>) {
    set i | 0 <= i < |cs| :: cs[i].slotSt
  }

  function Range(n: nat): (r: set<int>)
    ensures |r| == n && forall s :: s in r <==> 0 <= s < n
  {
    if n == 0 then {} else Range(n - 1) + {n - 1}
  }

  lemma {:induction false} StartsSize(cs: seq<Chunk>)
    requires forall i, k :: 0 <= i < k < |cs| ==> cs[i].slotSt != cs[k].slotSt
    ensures |Starts(cs)| == |cs|
  {
    if cs != [] {
      var n := |cs| - 1;
      StartsSize(cs[..n]);
      forall s ensures s in Starts(cs) <==> s in Starts(cs[..n]) + {cs[n].slotSt} {
        if s in Starts(cs[..n]) {
          var i :| 0 <= i < n && cs[..n][i].slotSt == s;
          assert cs[i].slotSt == s;
        }
        if s in Starts(cs) {
          var i :| 0 <= i < |cs| && cs[i].slotSt == s;
          if i < n { assert cs[..n][i].slotSt == s; }
        }
      }
      assert Starts(cs) == Starts(cs[..n]) + {cs[n].slotSt};
    }
  }

  lemma {:induction false} SubsetSize<T>(a: set<T>, b: set<T>)
    requires a <= b
    ensures |a| <= |b|
    ensures |a| == |b| ==> a == b
  {
    if a != {} {
      var x :| x in a;
      SubsetSize(a - {x}, b - {x});
    } else if b != {} {
      assert |b| > 0;
    }
  }

  // ----- the state of a pool

  predicate IsLive(c: Chunk) { c.offset != NO_OFFSET }

  /** Descriptors in use. */
  function LiveChunks(cs: seq<Chunk>): set<Chunk> {
    set i | 0 <= i < |cs| && IsLive(cs[i]) :: cs[i]
  }

  predicate Owns(c: Chunk, s: int) { IsLive(c) && c.slotSt <= s < c.slotEnd }

  /** The invariant over all runs: blocks in range, never empty, pairwise disjoint, with
      the offset of their first slot; a flag is set exactly when a block owns the slot. */
  ghost predicate Consistent(slots: seq<bool>, cs: seq<Chunk>, slotSz: nat, dataOffset: nat) {
    && |slots| == |cs|
    && (forall i :: 0 <= i < |cs| && IsLive(cs[i]) ==>
          && 0 <= cs[i].slotSt < cs[i].slotEnd <= |slots|
          && cs[i].offset == dataOffset + cs[i].slotSt * slotSz)
    && (forall i, k :: 0 <= i < k < |cs| && IsLive(cs[i]) && IsLive(cs[k]) ==>
          cs[i].slotEnd <= cs[k].slotSt || cs[k].slotEnd <= cs[i].slotSt)
    && (forall s :: 0 <= s < |slots| ==> (slots[s] <==> exists i :: 0 <= i < |cs| && Owns(cs[i], s)))
  }

  /** Blocks in use lie in range and apart from each other. */
  ghost predicate BlocksApart(live: set<Chunk>, nofSlots: nat, slotSz: nat, dataOffset: nat) {
    && (forall a :: a in live ==>
          && 0 <= a.slotSt < a.slotEnd <= nofSlots
          && a.offset == dataOffset + a.slotSt * slotSz)
    && (forall a, b :: a in live && b in live && a != b ==>
          a.slotEnd <= b.slotSt || b.slotEnd <= a.slotSt)
  }

  /** Descriptors cannot run out first: with all of them in use no slot is free. */
  lemma {:induction false} DescriptorsSuffice(slots: seq<bool>, cs: seq<Chunk>, slotSz: nat, dataOffset: nat)
    requires Consistent(slots, cs, slotSz, dataOffset)
    requires forall i :: 0 <= i < |cs| ==> IsLive(cs[i])
    ensures forall s :: 0 <= s < |slots| ==> slots[s]
  {
    StartsSize(cs);
    SubsetSize(Starts(cs), Range(|slots|));
    forall s | 0 <= s < |slots| ensures slots[s] {
      assert s in Starts(cs);
      var i :| 0 <= i < |cs| && cs[i].slotSt == s;
      assert Owns(cs[i], s);
    }
  }

  lemma {:induction false} MulInjective(p: nat, a: nat, b: nat)
    requires p >= 1 && a * p == b * p
    ensures a == b
  {
    DivModUnique(a * p, p, a, 0);
    DivModUnique(b * p, p, b, 0);
  }

  /** Each used slot belongs to exactly one block, and offsets tell blocks apart. */
  lemma {:induction false} OwnersUnique(slots: seq<bool>, cs: seq<Chunk>, slotSz: nat, dataOffset: nat, i: nat, k: nat)
    requires Consistent(slots, cs, slotSz, dataOffset) && slotSz >= 1
    requires i < |cs| && k < |cs| && IsLive(cs[i]) && IsLive(cs[k])
    ensures (exists s :: Owns(cs[i], s) && Owns(cs[k], s)) ==> i == k
    ensures cs[i].offset == cs[k].offset ==> i == k
  {
    var a, b := cs[i].slotSt, cs[k].slotSt;
    if cs[i].offset == cs[k].offset {
      MulInjective(slotSz, a, b);
      assert Owns(cs[i], a) && Owns(cs[k], a);
    }
    if exists s :: Owns(cs[i], s) && Owns(cs[k], s) {
      var s :| Owns(cs[i], s) && Owns(cs[k], s);
      assert !(i < k) && !(k < i);
    }
  }

  /** The flags are determined by the blocks. */
  lemma {:induction false} FlagsFollowBlocks(s1: seq<bool>, cs1: seq<Chunk>, s2: seq<bool>, cs2: seq<Chunk>, slotSz: nat, dataOffset: nat)
    requires Consistent(s1, cs1, slotSz, dataOffset) && Consistent(s2, cs2, slotSz, dataOffset)
    requires |s1| == |s2| && LiveChunks(cs1) == LiveChunks(cs2)
    ensures s1 == s2
  {
    forall s | 0 <= s < |s1| ensures s1[s] == s2[s] {
      FlagsCarryOver(s1, cs1, s2, cs2, slotSz, dataOffset, s);
      FlagsCarryOver(s2, cs2, s1, cs1, slotSz, dataOffset, s);
    }
  }

  lemma {:induction false} FlagsCarryOver(s1: seq<bool>, cs1: seq<Chunk>, s2: seq<bool>, cs2: seq<Chunk>, slotSz: nat, dataOffset: nat, s: nat)
    requires Consistent(s1, cs1, slotSz, dataOffset) && Consistent(s2, cs2, slotSz, dataOffset)
    requires |s1| == |s2| && LiveChunks(cs1) == LiveChunks(cs2) && s < |s1|
    ensures s1[s] ==> s2[s]
  {
    if s1[s] {
      var i :| 0 <= i < |cs1| && Owns(cs1[i], s);
      assert cs1[i] in LiveChunks(cs2);
      var k :| 0 <= k < |cs2| && IsLive(cs2[k]) && cs2[k] == cs1[i];
      assert Owns(cs2[k], s);
    }
  }

  // ----- taking and releasing a block

  /** The flags with those of [from, to) set to v. */
  function SetFlags(slots: seq<bool>, from: nat, to: nat, v: bool): (r: seq<bool>)
    requires from <= to <= |slots|
    ensures |r| == |slots|
    ensures forall s :: 0 <= s < |slots| ==> r[s] == if from <= s < to then v else slots[s]
  {
    slots[..from] + seq(to - from, i => v) + slots[to..]
  }

  lemma {:induction false} TakeKeeps(slots: seq<bool>, cs: seq<Chunk>, slotSz: nat, dataOffset: nat, c: nat, n: Chunk)
    requires Consistent(slots, cs, slotSz, dataOffset)
    requires c < |cs| && !IsLive(cs[c]) && IsLive(n)
    requires 0 <= n.slotSt < n.slotEnd <= |slots| && FreeRun(slots, n.slotSt, n.slotEnd - n.slotSt)
    requires n.offset == dataOffset + n.slotSt * slotSz
    ensures Consistent(SetFlags(slots, n.slotSt, n.slotEnd, true), cs[c := n], slotSz, dataOffset)
    ensures LiveChunks(cs[c := n]) == LiveChunks(cs) + {n} && n !in LiveChunks(cs)
  {
    var cs', slots' := cs[c := n], SetFlags(slots, n.slotSt, n.slotEnd, true);
    forall i | 0 <= i < |cs| && IsLive(cs[i])
      ensures cs[i].slotEnd <= n.slotSt || n.slotEnd <= cs[i].slotSt
    {
      FreeRunApart(slots, cs, i, n);
    }
    forall s | 0 <= s < |slots|
      ensures slots'[s] <==> exists i :: 0 <= i < |cs'| && Owns(cs'[i], s)
    {
      OwnerAfterTake(slots, cs, cs', c, n, s);
    }
    LiveWith(cs, c, n);
    assert forall i :: 0 <= i < |cs| && IsLive(cs[i]) ==> cs[i] != n;
  }

  lemma {:induction false} OwnerAfterTake(slots: seq<bool>, cs: seq<Chunk>, cs': seq<Chunk>, c: nat, n: Chunk, s: nat)
    requires c < |cs| && !IsLive(cs[c]) && IsLive(n) && s < |slots|
    requires 0 <= n.slotSt < n.slotEnd <= |slots|
    requires slots[s] <==> exists i :: 0 <= i < |cs| && Owns(cs[i], s)
    requires cs' == cs[c := n]
    ensures SetFlags(slots, n.slotSt, n.slotEnd, true)[s] <==> exists i :: 0 <= i < |cs'| && Owns(cs'[i], s)
  {
    if n.slotSt <= s < n.slotEnd {
      assert Owns(cs'[c], s);
    } else if slots[s] {
      var i :| 0 <= i < |cs| && Owns(cs[i], s);
      assert Owns(cs'[i], s);
    }
  }

  /** A block never overlaps slots that are free. */
  lemma {:induction false} FreeRunApart(slots: seq<bool>, cs: seq<Chunk>, i: nat, n: Chunk)
    requires i < |cs| && IsLive(cs[i]) && 0 <= cs[i].slotSt < cs[i].slotEnd <= |slots|
    requires forall s :: 0 <= s < |slots| && Owns(cs[i], s) ==> slots[s]
    requires 0 <= n.slotSt < n.slotEnd <= |slots| && FreeRun(slots, n.slotSt, n.slotEnd - n.slotSt)
    ensures cs[i].slotEnd <= n.slotSt || n.slotEnd <= cs[i].slotSt
  {
    var s := if cs[i].slotSt < n.slotSt then n.slotSt else cs[i].slotSt;
    assert Owns(cs[i], s) ==> slots[s];
  }

  lemma {:induction false} LiveWith(cs: seq<Chunk>, c: nat, n: Chunk)
    requires c < |cs| && !IsLive(cs[c]) && IsLive(n)
    ensures LiveChunks(cs[c := n]) == LiveChunks(cs) + {n}
  {
    var cs' := cs[c := n];
    forall x ensures x in LiveChunks(cs') <==> x in LiveChunks(cs) + {n} {
      if x in LiveChunks(cs) {
        var i :| 0 <= i < |cs| && IsLive(cs[i]) && cs[i] == x;
        assert cs'[i] == x;
      }
      assert cs'[c] == n;
    }
  }

  lemma {:induction false} ReleaseKeeps(slots: seq<bool>, cs: seq<Chunk>, slotSz: nat, dataOffset: nat, c: nat, dead: Chunk)
    requires Consistent(slots, cs, slotSz, dataOffset)
    requires c < |cs| && IsLive(cs[c]) && !IsLive(dead)
    ensures Consistent(SetFlags(slots, cs[c].slotSt, cs[c].slotEnd, false), cs[c := dead], slotSz, dataOffset)
    ensures LiveChunks(cs[c := dead]) == LiveChunks(cs) - {cs[c]}
  {
    var o := cs[c];
    var cs', slots' := cs[c := dead], SetFlags(slots, o.slotSt, o.slotEnd, false);
    forall i, s | 0 <= i < |cs| && i != c && Owns(cs[i], s) ensures !(o.slotSt <= s < o.slotEnd) {}
    forall s | 0 <= s < |slots|
      ensures slots'[s] <==> exists i :: 0 <= i < |cs'| && Owns(cs'[i], s)
    {
      if slots'[s] {
        var i :| 0 <= i < |cs| && Owns(cs[i], s);
        assert Owns(cs'[i], s);
      }
      forall i | 0 <= i < |cs'| && Owns(cs'[i], s) ensures slots'[s] {
        assert i != c && Owns(cs[i], s);
      }
    }
    forall i | 0 <= i < |cs| && i != c && IsLive(cs[i]) ensures cs[i] != o {
      assert Owns(o, o.slotSt);
    }
    LiveWithout(cs, c, dead);
  }

  lemma {:induction false} LiveWithout(cs: seq<Chunk>, c: nat, dead: Chunk)
    requires c < |cs| && IsLive(cs[c]) && !IsLive(dead)
    requires forall i :: 0 <= i < |cs| && i != c && IsLive(cs[i]) ==> cs[i] != cs[c]
    ensures LiveChunks(cs[c := dead]) == LiveChunks(cs) - {cs[c]}
  {
    var cs' := cs[c := dead];
    forall x ensures x in LiveChunks(cs') <==> x in LiveChunks(cs) - {cs[c]} {
      if x in LiveChunks(cs) - {cs[c]} {
        var i :| 0 <= i < |cs| && IsLive(cs[i]) && cs[i] == x;
        assert cs'[i] == x;
      }
      if x in LiveChunks(cs') {
        var i :| 0 <= i < |cs'| && IsLive(cs'[i]) && cs'[i] == x;
        assert i != c && cs[i] == x;
      }
    }
  }

  // ----- the operations

  class Pool {
    const nofSlots: nat
    const slotSz: nat
    const dataOffset: nat
    const slots: array<bool>
    const chunks: array<Chunk>

    ghost predicate Valid()
      reads slots, chunks
    {
      && 1 <= nofSlots < 0x8000 && slotSz >= 1
      && slots.Length == nofSlots && chunks.Length == nofSlots
      && Consistent(slots[..], chunks[..], slotSz, dataOffset)
    }

    ghost function Live(): set<Chunk>
      reads chunks
    {
      LiveChunks(chunks[..])
    }

    constructor (n: nat, sz: nat)
      requires 1 <= n < 0x8000 && sz >= 1
      ensures Valid() && fresh(slots) && fresh(chunks) && Live() == {}
      ensures nofSlots == n && slotSz == sz && dataOffset == DataOffset(n)
    {
      nofSlots, slotSz, dataOffset := n, sz, DataOffset(n);
      slots := new bool[n](_ => false);
      chunks := new Chunk[n](_ => Chunk(NO_OFFSET, 0, 0));
    }

    /** mem_new: null when not even one slot fits. */
    static method New(buffSz: nat, sz: nat) returns (p: Pool?)
      requires sz >= 1 && buffSz >= MEM_SIZEOF && SlotCount(buffSz, sz) < 0x8000
      ensures p == null <==> SlotCount(buffSz, sz) == 0
      ensures p != null ==> p.Valid() && p.nofSlots == SlotCount(buffSz, sz) && p.slotSz == sz
                            && p.Live() == {} && fresh(p)
    {
      var n := SlotCount(buffSz, sz);
      if n <= 0 { return null; }
      p := new Pool(n, sz);
    }

    /** The lowest free run that is long enough, or failure exactly when there is none. */
    method Alloc(size: nat) returns (r: int)
      requires Valid() && size >= 1
      modifies slots, chunks
      ensures Valid()
      ensures r == -1 <==> forall j :: 0 <= j < nofSlots ==> !FreeRun(old(slots[..]), j, Need(size, slotSz))
      ensures r == -1 ==> slots[..] == old(slots[..]) && chunks[..] == old(chunks[..])
      ensures r != -1 ==> exists j: nat ::
        && LowestRun(old(slots[..]), j, Need(size, slotSz))
        && r == dataOffset + j * slotSz
        && Live() == old(Live()) + {Chunk(r, j, j + Need(size, slotSz))}
        && Chunk(r, j, j + Need(size, slotSz)) !in old(Live())
        && slots[..] == SetFlags(old(slots[..]), j, j + Need(size, slotSz), true)
    {
      hide Consistent, LiveChunks, Need, Scan, SetFlags, FreeRun;
      var c := 0;
      while c < nofSlots && chunks[c].offset != NO_OFFSET
        invariant 0 <= c <= nofSlots
        invariant forall i :: 0 <= i < c ==> IsLive(chunks[i])
      {
        c := c + 1;
      }
      NeedIsLeast(size, slotSz, 0);
      if c == nofSlots {
        AllInUse(Need(size, slotSz));
        return -1;
      }
      var j, i := FindRun(size);
      ScanIsFirstFit(slots[..], size, slotSz);
      if (i - j) * slotSz < size { return -1; }
      r := dataOffset + j * slotSz;
      RunBounds(slots[..], j, Need(size, slotSz));
      Take(c, Chunk(r, j, i));
    }

    static lemma {:induction false} RunBounds(flags: seq<bool>, j: nat, need: nat)
      requires FreeRun(flags, j, need)
      ensures j + need <= |flags|
    {}

    /** Records a block in a free descriptor and flags its slots. */
    method Take(c: nat, n: Chunk)
      requires Valid() && c < nofSlots && !IsLive(chunks[c]) && IsLive(n)
      requires 0 <= n.slotSt < n.slotEnd <= nofSlots
      requires FreeRun(slots[..], n.slotSt, n.slotEnd - n.slotSt)
      requires n.offset == dataOffset + n.slotSt * slotSz
      modifies slots, chunks
      ensures Valid() && Live() == old(Live()) + {n} && n !in old(Live())
      ensures slots[..] == SetFlags(old(slots[..]), n.slotSt, n.slotEnd, true)
    {
      hide Consistent, LiveChunks, SetFlags, FreeRun;
      TakeKeeps(slots[..], chunks[..], slotSz, dataOffset, c, n);
      ghost var all := chunks[..];
      chunks[c] := n;
      assert chunks[..] == all[c := n];
      FillSlots(n.slotSt, n.slotEnd, true);
    }

    /** The do-while scan of mem_alloc. */
    method FindRun(size: nat) returns (j: nat, i: nat)
      requires slots.Length == nofSlots && nofSlots >= 1
      ensures (j, i) == Scan(slots[..], size, slotSz, 0, 0) && j <= i
    {
      j, i := 0, 0;
      var more := true;
      while more
        invariant j <= i <= nofSlots && (more ==> i < nofSlots)
        invariant Scan(slots[..], size, slotSz, 0, 0)
               == if more then Scan(slots[..], size, slotSz, j, i) else (j, i)
        decreases more, nofSlots - i
      {
        if slots[i] { j := i + 1; }
        i := i + 1;
        more := (i - j) * slotSz < size && i < nofSlots;
      }
    }

    /** The flag loops of mem_alloc and mem_free. */
    method FillSlots(from: nat, to: nat, v: bool)
      requires from <= to <= slots.Length
      modifies slots
      ensures slots[..] == SetFlags(old(slots[..]), from, to, v)
    {
      var s := from;
      while s < to
        invariant from <= s <= to
        invariant slots[..] == SetFlags(old(slots[..]), from, s, v)
      {
        slots[s] := v;
        s := s + 1;
      }
    }

    lemma {:induction false} AllInUse(need: nat)
      requires Valid() && need >= 1 && forall i :: 0 <= i < nofSlots ==> IsLive(chunks[i])
      ensures forall j :: 0 <= j < nofSlots ==> !FreeRun(slots[..], j, need)
    {
      DescriptorsSuffice(slots[..], chunks[..], slotSz, dataOffset);
      forall j | 0 <= j < nofSlots ensures !FreeRun(slots[..], j, need) {
        assert slots[..][j];
      }
    }

    /** Releases the block with that offset, if there is one: its slots and no others. */
    method Free(offset: int) returns (r: int)
      requires Valid()
      modifies slots, chunks
      ensures Valid()
      ensures r == if offset >= 0 && exists c :: c in old(Live()) && c.offset == offset then 1 else 0
      ensures r == 0 ==> slots[..] == old(slots[..]) && chunks[..] == old(chunks[..])
      ensures r == 1 ==> exists c ::
        && c in old(Live()) && c.offset == offset && Live() == old(Live()) - {c}
        && 0 <= c.slotSt <= c.slotEnd <= nofSlots
        && slots[..] == SetFlags(old(slots[..]), c.slotSt, c.slotEnd, false)
    {
      if offset < 0 { return 0; }
      ghost var all := chunks[..];
      var c := 0;
      while c < nofSlots && chunks[c].offset != offset
        invariant 0 <= c <= nofSlots
        invariant forall i :: 0 <= i < c ==> chunks[i].offset != offset
      {
        c := c + 1;
      }
      if c == nofSlots {
        assert forall x :: x in LiveChunks(all) ==> x.offset != offset;
        return 0;
      }
      var block := chunks[c];
      assert block in LiveChunks(all);
      var dead := Chunk(NO_OFFSET, 0, 0);
      ReleaseKeeps(slots[..], all, slotSz, dataOffset, c, dead);
      FillSlots(block.slotSt, block.slotEnd, false);
      chunks[c] := dead;
      assert chunks[..] == all[c := dead];
      r := 1;
    }

    /** Releasing what was just taken puts every flag back. */
    method AllocThenFree(size: nat) returns (r: int)
      requires Valid() && size >= 1
      modifies slots, chunks
      ensures Valid()
      ensures Live() == old(Live()) && slots[..] == old(slots[..])
    {
      hide Consistent, LiveChunks, FreeRun, Need, LowestRun;
      ghost var flags, all := slots[..], chunks[..];
      r := Alloc(size);
      if r != -1 {
        OffsetsApart();
        var done := Free(r);
        FlagsFollowBlocks(slots[..], chunks[..], flags, all, slotSz, dataOffset);
      }
    }

    lemma {:induction false} OffsetsApart()
      requires Valid()
      ensures forall a, b :: a in Live() && b in Live() && a.offset == b.offset ==> a == b
      ensures forall a :: a in Live() ==> a.offset >= 0
    {
      var cs := chunks[..];
      forall a, b | a in Live() && b in Live() && a.offset == b.offset ensures a == b {
        var i :| 0 <= i < |cs| && IsLive(cs[i]) && cs[i] == a;
        var k :| 0 <= k < |cs| && IsLive(cs[k]) && cs[k] == b;
        OwnersUnique(slots[..], cs, slotSz, dataOffset, i, k);
      }
      forall a | a in Live() ensures a.offset >= 0 {
        var i :| 0 <= i < |cs| && IsLive(cs[i]) && cs[i] == a;
        MulLeft(slotSz, 0, a.slotSt);
      }
    }

    lemma {:induction false} LiveBlocksApart()
      requires Valid()
      ensures BlocksApart(Live(), nofSlots, slotSz, dataOffset)
    {
      var cs := chunks[..];
      forall a, b | a in Live() && b in Live() && a != b
        ensures a.slotEnd <= b.slotSt || b.slotEnd <= a.slotSt
      {
        var i :| 0 <= i < |cs| && IsLive(cs[i]) && cs[i] == a;
        var k :| 0 <= k < |cs| && IsLive(cs[k]) && cs[k] == b;
      }
      forall a | a in Live()
        ensures 0 <= a.slotSt < a.slotEnd <= nofSlots && a.offset == dataOffset + a.slotSt * slotSz
      {
        var i :| 0 <= i < |cs| && IsLive(cs[i]) && cs[i] == a;
      }
    }
  }
}
