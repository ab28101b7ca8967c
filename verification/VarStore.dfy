/** The shared variable store of hw_api/lnx/src/hwapi_linux_var.c: a table of entries over
    blocks of the slot allocator. To its users it is a map from id to last written value. */
module VarStore {
  import opened Arithmetic
  import opened MemPool
  import opened Words

  const MAX_VARS := 2000

  datatype VarEntry = VarEntry(name: string, objId: int, statId: int, size: nat, curSize: nat,
                               opts: int, vtype: int, tableOffset: int)

  const CLEAR := VarEntry("", 0, 0, 0, 0, 0, 0, 0)

  type Blocks = map<nat, Chunk>
  type Values = map<nat, seq<byte>>

  // ----- what the table keeps

  /** First byte of a block in the data area, and the bytes it spans. */
  function Start(c: Chunk, sz: nat): int { c.slotSt * sz }
  function Span(c: Chunk, sz: nat): int { (c.slotEnd - c.slotSt) * sz }

  ghost predicate EntryOk(e: VarEntry, id: nat, c: Chunk, live: set<Chunk>, sz: nat) {
    e.statId == id && c in live && e.tableOffset == c.offset && e.size <= Span(c, sz)
  }

  /** Every variable has a block of its own, large enough for it. */
  ghost predicate Layout(live: set<Chunk>, db: seq<VarEntry>, maxId: nat, blocks: Blocks, sz: nat) {
    && |db| == MAX_VARS && maxId <= MAX_VARS
    && (forall id :: 1 <= id < MAX_VARS ==> (id in blocks <==> db[id].statId != 0))
    && (forall id :: id in blocks ==> 1 <= id < maxId && EntryOk(db[id], id, blocks[id], live, sz))
    && (forall a, b :: a in blocks && b in blocks && a != b ==> blocks[a] != blocks[b])
  }

  /** Besides the blocks of variables only those are in use that were wasted on creates
      with the table full, and no unused entry remembers the offset of one of these. */
  ghost predicate Spares(live: set<Chunk>, db: seq<VarEntry>, blocks: Blocks, spare: set<Chunk>) {
    && |db| == MAX_VARS
    && live == blocks.Values + spare && blocks.Values !! spare
    && (forall id, c :: 1 <= id < MAX_VARS && id !in blocks && c in spare ==> c.offset != db[id].tableOffset)
  }

  /** An entry that has been used keeps an offset inside the table. */
  predicate EntryFits(e: VarEntry, base: nat, area: nat) {
    if e.tableOffset == 0 then e.size == 0 && e.curSize == 0
    else base <= e.tableOffset && e.tableOffset - base + e.size <= area
  }

  ghost predicate AllFit(db: seq<VarEntry>, base: nat, area: nat) {
    forall id :: 0 <= id < |db| ==> EntryFits(db[id], base, area)
  }

  /** The data area holds v, the value last written to the variable of entry e. */
  ghost predicate HeldIn(data: seq<byte>, e: VarEntry, c: Chunk, v: seq<byte>, sz: nat) {
    && e.curSize == |v| <= e.size
    && 0 <= Start(c, sz) && Start(c, sz) + |v| <= |data|
    && data[Start(c, sz)..Start(c, sz) + |v|] == v
  }

  ghost predicate Holds(data: seq<byte>, db: seq<VarEntry>, blocks: Blocks, written: Values, sz: nat) {
    forall id :: id in written ==>
      id in blocks && id < |db| && HeldIn(data, db[id], blocks[id], written[id], sz)
  }

  /** data with the bytes from s on replaced by v. */
  function Patch(data: seq<byte>, s: nat, v: seq<byte>): (r: seq<byte>)
    requires s + |v| <= |data|
    ensures |r| == |data| && r[s..s + |v|] == v
    ensures forall i :: 0 <= i < |data| && !(s <= i < s + |v|) ==> r[i] == data[i]
  {
    data[..s] + v + data[s + |v|..]
  }

  /** A block lies inside the data area. */
  lemma {:induction false} Placed(live: set<Chunk>, n: nat, sz: nat, base: nat, c: Chunk)
    requires BlocksApart(live, n, sz, base) && c in live
    ensures 0 <= Start(c, sz) && Span(c, sz) >= 0 && Start(c, sz) + Span(c, sz) <= n * sz
    ensures c.offset == base + Start(c, sz)
  {
    MulLeft(sz, 0, c.slotSt);
    MulLeft(sz, 0, c.slotEnd - c.slotSt);
    MulLeft(sz, c.slotEnd, n);
    assert c.slotSt * sz + (c.slotEnd - c.slotSt) * sz == c.slotEnd * sz;
  }

  lemma {:induction false} Apart(live: set<Chunk>, n: nat, sz: nat, base: nat, a: Chunk, b: Chunk)
    requires BlocksApart(live, n, sz, base) && a in live && b in live && a != b
    ensures Start(a, sz) + Span(a, sz) <= Start(b, sz) || Start(b, sz) + Span(b, sz) <= Start(a, sz)
  {
    assert a.slotSt * sz + (a.slotEnd - a.slotSt) * sz == a.slotEnd * sz;
    assert b.slotSt * sz + (b.slotEnd - b.slotSt) * sz == b.slotEnd * sz;
    if a.slotEnd <= b.slotSt { MulLeft(sz, a.slotEnd, b.slotSt); } else { MulLeft(sz, b.slotEnd, a.slotSt); }
  }

  lemma {:induction false} CreateKeeps(live: set<Chunk>, db: seq<VarEntry>, maxId: nat, blocks: Blocks, sz: nat,
                                       data: seq<byte>, written: Values, id: nat, c: Chunk, e: VarEntry)
    requires Layout(live, db, maxId, blocks, sz) && Holds(data, db, blocks, written, sz)
    requires 1 <= id < MAX_VARS && id !in blocks && c !in live && EntryOk(e, id, c, live + {c}, sz)
    ensures var max := if id + 1 > maxId then id + 1 else maxId;
            Layout(live + {c}, db[id := e], max, blocks[id := c], sz)
    ensures Holds(data, db[id := e], blocks[id := c], written, sz)
  {
    hide HeldIn, Span;
    assert forall k :: k in blocks ==> blocks[k] in live;
    assert forall k :: k in blocks ==> EntryOk(db[k], k, blocks[k], live + {c}, sz);
  }

  lemma {:induction false} SpareBlockKeeps(live: set<Chunk>, db: seq<VarEntry>, maxId: nat, blocks: Blocks, sz: nat, c: Chunk)
    requires Layout(live, db, maxId, blocks, sz)
    ensures Layout(live + {c}, db, maxId, blocks, sz)
  {
    hide Span;
    assert forall k :: k in blocks ==> EntryOk(db[k], k, blocks[k], live + {c}, sz);
  }

  lemma {:induction false} DeleteKeeps(live: set<Chunk>, db: seq<VarEntry>, maxId: nat, blocks: Blocks, sz: nat,
                                       data: seq<byte>, written: Values, id: nat, e: VarEntry)
    requires Layout(live, db, maxId, blocks, sz) && Holds(data, db, blocks, written, sz)
    requires id in blocks && e.statId == 0
    ensures Layout(live - {blocks[id]}, db[id := e], maxId, blocks - {id}, sz)
    ensures Holds(data, db[id := e], blocks - {id}, written - {id}, sz)
  {
    hide HeldIn, Span;
    var blocks' := blocks - {id};
    assert forall k :: k in blocks' ==> k != id && blocks'[k] == blocks[k] != blocks[id];
    assert forall k :: k in blocks' ==> EntryOk(db[k], k, blocks'[k], live - {blocks[id]}, sz);
  }

  /** A write replaces one value; all others lie outside the bytes it touches. */
  lemma {:induction false} WriteKeeps(live: set<Chunk>, n: nat, base: nat, db: seq<VarEntry>, maxId: nat, blocks: Blocks,
                                      sz: nat, data: seq<byte>, written: Values, id: nat, v: seq<byte>, data': seq<byte>)
    requires Layout(live, db, maxId, blocks, sz) && Holds(data, db, blocks, written, sz)
    requires BlocksApart(live, n, sz, base) && |data| == n * sz
    requires id in blocks && |v| <= db[id].size
    requires var s := Start(blocks[id], sz); 0 <= s && s + |v| <= |data| && data' == Patch(data, s, v)
    ensures var e := db[id].(curSize := |v|);
            && Layout(live, db[id := e], maxId, blocks, sz)
            && Holds(data', db[id := e], blocks, written[id := v], sz)
  {
    hide BlocksApart, Start, Span, Patch;
    var e := db[id].(curSize := |v|);
    forall k | k in written && k != id ensures HeldIn(data', db[k], blocks[k], written[k], sz) {
      KeptBeside(live, n, base, sz, data, data', blocks[id], v, db[id], id, db[k], k, blocks[k], written[k]);
    }
    assert HeldIn(data', e, blocks[id], v, sz);
  }

  lemma {:induction false} KeptBeside(live: set<Chunk>, n: nat, base: nat, sz: nat, data: seq<byte>, data': seq<byte>,
                                      a: Chunk, v: seq<byte>, ea: VarEntry, ida: nat,
                                      eb: VarEntry, idb: nat, b: Chunk, w: seq<byte>)
    requires BlocksApart(live, n, sz, base) && a != b
    requires EntryOk(ea, ida, a, live, sz) && EntryOk(eb, idb, b, live, sz) && |v| <= ea.size
    requires 0 <= Start(a, sz) && Start(a, sz) + |v| <= |data| && data' == Patch(data, Start(a, sz), v)
    requires HeldIn(data, eb, b, w, sz)
    ensures HeldIn(data', eb, b, w, sz)
  {
    hide BlocksApart, Patch;
    Apart(live, n, sz, base, a, b);
    hide Start, Span;
    var s := Start(b, sz);
    assert forall i :: s <= i < s + |w| ==> data'[i] == data[i];
  }

  // ----- blocks without a variable

  lemma {:induction false} CreateSpares(live: set<Chunk>, db: seq<VarEntry>, blocks: Blocks, spare: set<Chunk>,
                                        id: nat, c: Chunk, e: VarEntry)
    requires Spares(live, db, blocks, spare) && id !in blocks && 1 <= id < MAX_VARS && c !in live
    ensures Spares(live + {c}, db[id := e], blocks[id := c], spare)
  {
    ValuesAdded(blocks, id, c);
  }

  lemma {:induction false} ValuesAdded(blocks: Blocks, id: nat, c: Chunk)
    requires id !in blocks
    ensures blocks[id := c].Values == blocks.Values + {c}
  {
    var more := blocks[id := c];
    forall x ensures x in more.Values <==> x in blocks.Values + {c} {
      if x in blocks.Values {
        var k :| k in blocks && blocks[k] == x;
        assert more[k] == x;
      }
      assert more[id] == c;
    }
  }

  /** A create with the table full wastes a block that no entry will ever name. */
  lemma {:induction false} WasteSpares(live: set<Chunk>, db: seq<VarEntry>, blocks: Blocks, spare: set<Chunk>, c: Chunk)
    requires Spares(live, db, blocks, spare) && c !in live
    requires forall id :: 1 <= id < MAX_VARS ==> id in blocks
    ensures Spares(live + {c}, db, blocks, spare + {c})
    ensures c !in spare && |spare + {c}| == |spare| + 1
  {}

  lemma {:induction false} DeleteSpares(live: set<Chunk>, db: seq<VarEntry>, blocks: Blocks, spare: set<Chunk>,
                                        id: nat, e: VarEntry)
    requires Spares(live, db, blocks, spare) && id in blocks && 1 <= id < MAX_VARS
    requires forall a, b :: a in blocks && b in blocks && a != b ==> blocks[a] != blocks[b]
    requires forall a, b :: a in live && b in live && a.offset == b.offset ==> a == b
    requires e.tableOffset == blocks[id].offset
    ensures Spares(live - {blocks[id]}, db[id := e], blocks - {id}, spare)
  {
    ValuesRemoved(blocks, id);
    forall c | c in spare ensures c.offset != e.tableOffset {
      assert blocks[id] in blocks.Values && blocks[id] in live && c in live;
    }
  }

  lemma {:induction false} ValuesRemoved(blocks: Blocks, id: nat)
    requires id in blocks
    requires forall a, b :: a in blocks && b in blocks && a != b ==> blocks[a] != blocks[b]
    ensures (blocks - {id}).Values == blocks.Values - {blocks[id]}
  {
    var less := blocks - {id};
    forall x ensures x in less.Values <==> x in blocks.Values - {blocks[id]} {
      if x in blocks.Values - {blocks[id]} {
        var k :| k in blocks && blocks[k] == x;
        assert k in less && less[k] == x;
      }
    }
  }

  /** Deleting an unused id again releases what stands at the offset its entry remembers:
      nothing, if and only if no variable's block does. */
  lemma {:induction false} StaleOffset(live: set<Chunk>, db: seq<VarEntry>, blocks: Blocks, spare: set<Chunk>, id: nat)
    requires Spares(live, db, blocks, spare) && id !in blocks && 1 <= id < MAX_VARS
    ensures (forall c :: c in live ==> c.offset != db[id].tableOffset)
       <==> (forall k :: k in blocks ==> blocks[k].offset != db[id].tableOffset)
  {
    if forall k :: k in blocks ==> blocks[k].offset != db[id].tableOffset {
      forall c | c in live ensures c.offset != db[id].tableOffset {
        if c in blocks.Values { var k :| k in blocks && blocks[k] == c; }
      }
    }
    if forall c :: c in live ==> c.offset != db[id].tableOffset {
      forall k | k in blocks ensures blocks[k].offset != db[id].tableOffset { assert blocks[k] in blocks.Values; }
    }
  }

  // ----- writing through an entry that is not in use

  /** The len bytes from s on meet no byte of a value. */
  ghost predicate Beside(s: int, len: nat, blocks: Blocks, written: Values, sz: nat) {
    forall id :: id in written ==>
      id in blocks && (len == 0 || |written[id]| == 0
                       || s + len <= Start(blocks[id], sz) || Start(blocks[id], sz) + |written[id]| <= s)
  }

  /** All values survive, whatever is written, if and only if none of them is met. */
  lemma {:induction false} StaleWriteIff(data: seq<byte>, db: seq<VarEntry>, blocks: Blocks, written: Values, sz: nat,
                                         s: nat, len: nat)
    requires Holds(data, db, blocks, written, sz) && s + len <= |data|
    ensures (forall v: seq<byte> {:trigger Patch(data, s, v)} :: |v| == len ==> Holds(Patch(data, s, v), db, blocks, written, sz))
       <==> Beside(s, len, blocks, written, sz)
  {
    if Beside(s, len, blocks, written, sz) {
      forall v: seq<byte> | |v| == len ensures Holds(Patch(data, s, v), db, blocks, written, sz) {
        StaleWriteKeeps(data, db, blocks, written, sz, s, v);
      }
    } else {
      var id :| id in written && !(len == 0 || |written[id]| == 0
          || s + len <= Start(blocks[id], sz) || Start(blocks[id], sz) + |written[id]| <= s);
      OverwrittenBy(data, db[id], blocks[id], written[id], sz, s, len);
      var v := Changed(data[s..s + len]);
      assert !Holds(Patch(data, s, v), db, blocks, written, sz);
    }
  }

  lemma {:induction false} StaleWriteKeeps(data: seq<byte>, db: seq<VarEntry>, blocks: Blocks, written: Values, sz: nat,
                                           s: nat, v: seq<byte>)
    requires Holds(data, db, blocks, written, sz) && s + |v| <= |data| && Beside(s, |v|, blocks, written, sz)
    ensures Holds(Patch(data, s, v), db, blocks, written, sz)
  {
    hide Patch;
    forall id | id in written ensures HeldIn(Patch(data, s, v), db[id], blocks[id], written[id], sz) {
      var t, w := Start(blocks[id], sz), written[id];
      assert HeldIn(data, db[id], blocks[id], w, sz);
      assert forall i :: t <= i < t + |w| ==> Patch(data, s, v)[i] == data[i];
      assert Patch(data, s, v)[t..t + |w|] == data[t..t + |w|];
    }
  }

  /** Every byte replaced by another one. */
  function Changed(b: seq<byte>): (r: seq<byte>)
    ensures |r| == |b| && forall i :: 0 <= i < |b| ==> r[i] != b[i]
  {
    seq(|b|, i requires 0 <= i < |b| => if b[i] == 0 then 1 else 0)
  }

  lemma {:induction false} OverwrittenBy(data: seq<byte>, e: VarEntry, c: Chunk, w: seq<byte>, sz: nat, s: nat, len: nat)
    requires HeldIn(data, e, c, w, sz) && s + len <= |data|
    requires len > 0 && |w| > 0 && s < Start(c, sz) + |w| && Start(c, sz) < s + len
    ensures !HeldIn(Patch(data, s, Changed(data[s..s + len])), e, c, w, sz)
  {
    hide Patch, Changed, Start;
    var t := Start(c, sz);
    var i: nat := if s < t then t else s;
    var data' := Patch(data, s, Changed(data[s..s + len]));
    assert data'[i] == data'[s..s + len][i - s] != data[s..s + len][i - s] == data[i];
    assert data[t..t + |w|][i - t] == data[i] && data'[t..t + |w|][i - t] == data'[i];
  }

  // ----- the store as a value

  /** The table, the ghosts that explain it, and the data area. */
  datatype Store = Store(db: seq<VarEntry>, maxId: nat, data: seq<byte>,
                         blocks: Blocks, written: Values, spare: set<Chunk>)

  /** Slots, slot size and place of the data area. */
  datatype Shape = Shape(n: nat, sz: nat, base: nat)

  ghost predicate Sound(live: set<Chunk>, st: Store, g: Shape) {
    && g.sz >= 1 && g.base >= 1 && |st.data| == g.n * g.sz && |st.db| == MAX_VARS
    && BlocksApart(live, g.n, g.sz, g.base)
    && Layout(live, st.db, st.maxId, st.blocks, g.sz)
    && Holds(st.data, st.db, st.blocks, st.written, g.sz)
    && Spares(live, st.db, st.blocks, st.spare)
    && AllFit(st.db, g.base, |st.data|)
  }

  /** The blocks left when what stands at an offset is released. */
  ghost function Release(live: set<Chunk>, offset: int): set<Chunk> {
    set c | c in live && c.offset != offset
  }

  /** A new entry, without a block. */
  ghost function Homeless(st: Store, id: nat, e: VarEntry): Store
    requires id < |st.db|
  {
    st.(db := st.db[id := e], maxId := if id + 1 > st.maxId then id + 1 else st.maxId)
  }

  ghost function Created(st: Store, id: nat, e: VarEntry, c: Chunk): Store
    requires id < |st.db|
  {
    Homeless(st, id, e).(blocks := st.blocks[id := c])
  }

  ghost function Deleted(st: Store, id: nat): Store
    requires id < |st.db|
  {
    st.(db := st.db[id := st.db[id].(statId := 0, objId := 0)],
        blocks := st.blocks - {id}, written := st.written - {id})
  }

  /** v stands where entry id points. */
  ghost function Overwritten(st: Store, id: nat, v: seq<byte>, base: nat): (r: Store)
    requires id < |st.db| && Fits(st, id, |v|, base)
  {
    st.(db := st.db[id := st.db[id].(curSize := |v|)],
        data := if v == [] then st.data else Patch(st.data, st.db[id].tableOffset - base, v),
        written := if id in st.blocks then st.written[id := v] else st.written)
  }

  /** len bytes from where entry id points lie inside the data area. */
  predicate Fits(st: Store, id: nat, len: nat, base: nat)
    requires id < |st.db|
  {
    len == 0 || (base <= st.db[id].tableOffset && st.db[id].tableOffset - base + len <= |st.data|)
  }

  /** The first len bytes where entry id points. */
  function Pointed(st: Store, id: nat, len: nat, base: nat): (b: seq<byte>)
    requires id < |st.db| && Fits(st, id, len, base)
    ensures |b| == len
  {
    if len == 0 then []
    else st.data[st.db[id].tableOffset - base..][..len]
  }

  lemma {:induction false} DeclaredFits(live: set<Chunk>, st: Store, g: Shape, id: nat)
    requires Sound(live, st, g) && id < |st.db|
    ensures forall len :: 0 <= len <= st.db[id].size ==> Fits(st, id, len, g.base)
    ensures st.db[id].curSize > 0 ==> st.db[id].tableOffset >= g.base
  {
    hide Layout, Holds, Spares, BlocksApart;
    assert EntryFits(st.db[id], g.base, |st.data|);
  }

  lemma {:induction false} OffsetsUnique(live: set<Chunk>, g: Shape, a: Chunk, b: Chunk)
    requires BlocksApart(live, g.n, g.sz, g.base) && g.sz >= 1 && a in live && b in live && a.offset == b.offset
    ensures a == b
  {
    if a != b { MulInjective(g.sz, a.slotSt, b.slotSt); }
  }

  lemma {:induction false} FitsReplaced(entries: seq<VarEntry>, base: nat, area: nat, id: nat, e: VarEntry)
    requires AllFit(entries, base, area) && id < |entries| && EntryFits(e, base, area)
    ensures AllFit(entries[id := e], base, area)
  {}

  lemma {:induction false} ApartLess(live: set<Chunk>, less: set<Chunk>, g: Shape)
    requires BlocksApart(live, g.n, g.sz, g.base) && less <= live
    ensures BlocksApart(less, g.n, g.sz, g.base)
  {}

  /** A new variable over a new block. */
  lemma {:induction false} CreatedSound(live: set<Chunk>, st: Store, g: Shape, id: nat, c: Chunk, e: VarEntry)
    requires Sound(live, st, g) && BlocksApart(live + {c}, g.n, g.sz, g.base) && c !in live
    requires 1 <= id < MAX_VARS && id !in st.blocks
    requires e.statId == id && e.tableOffset == c.offset && c.slotEnd - c.slotSt == Need(e.size, g.sz)
    ensures Sound(live + {c}, Created(st, id, e, c), g)
  {
    hide Layout, Holds, Spares, AllFit, EntryFits, BlocksApart, Need, Span, Start;
    NeedIsLeast(e.size, g.sz, Need(e.size, g.sz));
    assert e.size <= Span(c, g.sz) by { SpanOf(c, g.sz, Need(e.size, g.sz)); }
    Placed(live + {c}, g.n, g.sz, g.base, c);
    NewEntryFits(c, e, g);
    CreateKeeps(live, st.db, st.maxId, st.blocks, g.sz, st.data, st.written, id, c, e);
    CreateSpares(live, st.db, st.blocks, st.spare, id, c, e);
    FitsReplaced(st.db, g.base, |st.data|, id, e);
  }

  lemma {:induction false} SpanOf(c: Chunk, sz: nat, need: nat)
    requires c.slotEnd - c.slotSt == need
    ensures Span(c, sz) == need * sz
  {}

  lemma {:induction false} NewEntryFits(c: Chunk, e: VarEntry, g: Shape)
    requires g.base >= 1 && c.offset == g.base + Start(c, g.sz) && 0 <= Start(c, g.sz)
    requires e.tableOffset == c.offset && e.size <= Span(c, g.sz) && Start(c, g.sz) + Span(c, g.sz) <= g.n * g.sz
    ensures EntryFits(e, g.base, g.n * g.sz)
  {
    hide Start, Span;
  }

  /** Such an entry points outside the table, whatever blocks are in use and whichever of
      them is said to be its own. */
  lemma {:induction false} HomelessUnsound(st: Store, g: Shape, id: nat)
    requires id < |st.db| && st.db[id].tableOffset == -1
    ensures forall live :: !Sound(live, st, g)
  {
    hide Layout, Holds, Spares, BlocksApart;
    if g.base >= 1 { assert !EntryFits(st.db[id], g.base, |st.data|); }
  }

  /** A create with the table full. */
  lemma {:induction false} WastedSound(live: set<Chunk>, st: Store, g: Shape, c: Chunk)
    requires Sound(live, st, g) && BlocksApart(live + {c}, g.n, g.sz, g.base) && c !in live
    requires forall id :: 1 <= id < MAX_VARS ==> id in st.blocks
    ensures Sound(live + {c}, st.(spare := st.spare + {c}), g)
    ensures |st.spare + {c}| == |st.spare| + 1 && c !in st.blocks.Values
  {
    hide Holds, AllFit, BlocksApart;
    SpareBlockKeeps(live, st.db, st.maxId, st.blocks, g.sz, c);
    hide Layout;
    WasteSpares(live, st.db, st.blocks, st.spare, c);
    assert c !in st.blocks.Values;
  }

  /** Deleting a variable releases its block and keeps the others. */
  lemma {:induction false} DeletedSound(live: set<Chunk>, st: Store, g: Shape, id: nat)
    requires Sound(live, st, g) && id in st.blocks
    ensures id < |st.db| && st.blocks[id] in live && st.blocks[id].offset == st.db[id].tableOffset
    ensures Release(live, st.db[id].tableOffset) == live - {st.blocks[id]}
    ensures Sound(live - {st.blocks[id]}, Deleted(st, id), g)
  {
    hide Holds, AllFit, EntryFits, BlocksApart, Spares;
    var c, e := st.blocks[id], st.db[id].(statId := 0, objId := 0);
    OwnEntry(live, st.db, st.maxId, st.blocks, g.sz, id);
    DeleteKeeps(live, st.db, st.maxId, st.blocks, g.sz, st.data, st.written, id, e);
    hide Layout;
    forall x | x in live && x.offset == e.tableOffset ensures x == c { OffsetsUnique(live, g, x, c); }
    assert Release(live, e.tableOffset) == live - {c};
    forall a, b | a in live && b in live && a.offset == b.offset ensures a == b { OffsetsUnique(live, g, a, b); }
    DeleteSpares(live, st.db, st.blocks, st.spare, id, e);
    EntryFreed(st.db, g.base, |st.data|, id);
    FitsReplaced(st.db, g.base, |st.data|, id, e);
    ApartLess(live, live - {c}, g);
  }

  lemma {:induction false} OwnEntry(live: set<Chunk>, entries: seq<VarEntry>, maxId: nat, blocks: Blocks, sz: nat, id: nat)
    requires Layout(live, entries, maxId, blocks, sz) && id in blocks
    ensures 1 <= id < MAX_VARS && id < |entries| && EntryOk(entries[id], id, blocks[id], live, sz)
    ensures forall a, b :: a in blocks && b in blocks && a != b ==> blocks[a] != blocks[b]
  {}

  lemma {:induction false} EntryFreed(entries: seq<VarEntry>, base: nat, area: nat, id: nat)
    requires AllFit(entries, base, area) && id < |entries|
    ensures EntryFits(entries[id].(statId := 0, objId := 0), base, area)
  {
    assert EntryFits(entries[id], base, area);
  }

  /** Deleting an id that is not in use leaves the store sound, and all blocks as they are,
      if and only if no variable's block stands at the offset its entry remembers. */
  lemma {:induction false} UnusedDeleteIff(live: set<Chunk>, st: Store, g: Shape, id: nat)
    requires Sound(live, st, g) && 1 <= id < MAX_VARS && id !in st.blocks
    ensures var left := Release(live, st.db[id].tableOffset);
            var free := forall k :: k in st.blocks ==> st.blocks[k].offset != st.db[id].tableOffset;
            && (left == live <==> free)
            && (Sound(left, Deleted(st, id), g) <==> free)
            && Deleted(st, id).blocks == st.blocks && Deleted(st, id).written == st.written
  {
    hide HeldIn, AllFit, EntryFits, BlocksApart, Span;
    var e := st.db[id].(statId := 0, objId := 0);
    var left := Release(live, e.tableOffset);
    StaleOffset(live, st.db, st.blocks, st.spare, id);
    assert st.blocks - {id} == st.blocks && st.written - {id} == st.written;
    if forall k :: k in st.blocks ==> st.blocks[k].offset != e.tableOffset {
      assert left == live;
      EntryFreed(st.db, g.base, |st.data|, id);
      FitsReplaced(st.db, g.base, |st.data|, id, e);
      SparesTouched(live, st.db, st.blocks, st.spare, id, e);
      UnusedTouched(live, st.db, st.maxId, st.blocks, g.sz, st.data, st.written, id, e);
    } else {
      var k :| k in st.blocks && st.blocks[k].offset == e.tableOffset;
      assert st.blocks[k] !in left;
      assert st.blocks[k] in live;
    }
  }

  lemma {:induction false} SparesTouched(live: set<Chunk>, entries: seq<VarEntry>, blocks: Blocks,
                                         spare: set<Chunk>, id: nat, e: VarEntry)
    requires Spares(live, entries, blocks, spare) && id < |entries| && e.tableOffset == entries[id].tableOffset
    ensures Spares(live, entries[id := e], blocks, spare)
  {}

  lemma {:induction false} UnusedTouched(live: set<Chunk>, entries: seq<VarEntry>, maxId: nat, blocks: Blocks, sz: nat,
                                         bytes: seq<byte>, written: Values, id: nat, e: VarEntry)
    requires Layout(live, entries, maxId, blocks, sz) && 1 <= id < MAX_VARS && id !in blocks && e.statId == 0
    ensures Layout(live, entries[id := e], maxId, blocks, sz)
    ensures Holds(bytes, entries, blocks, written, sz) <==> Holds(bytes, entries[id := e], blocks, written, sz)
  {
    hide HeldIn, Span;
    if Holds(bytes, entries[id := e], blocks, written, sz) {
      forall k | k in written ensures k in blocks && HeldIn(bytes, entries[k], blocks[k], written[k], sz) {
        assert k in blocks && entries[id := e][k] == entries[k];
      }
    }
  }

  /** Writing to a variable. */
  lemma {:induction false} WrittenSound(live: set<Chunk>, st: Store, g: Shape, id: nat, v: seq<byte>)
    requires Sound(live, st, g) && id in st.blocks && id < |st.db| && |v| <= st.db[id].size
    ensures Fits(st, id, |v|, g.base) && Sound(live, Overwritten(st, id, v, g.base), g)
  {
    hide Holds, AllFit, EntryFits, BlocksApart, Spares, Start, Span, Patch;
    DeclaredFits(live, st, g, id);
    OwnEntry(live, st.db, st.maxId, st.blocks, g.sz, id);
    Placed(live, g.n, g.sz, g.base, st.blocks[id]);
    var data' := Overwritten(st, id, v, g.base).data;
    PatchNothing(st.data, Start(st.blocks[id], g.sz), v);
    hide Layout;
    WriteKeeps(live, g.n, g.base, st.db, st.maxId, st.blocks, g.sz, st.data, st.written, id, v, data');
    SparesTouched(live, st.db, st.blocks, st.spare, id, st.db[id].(curSize := |v|));
    EntryWritten(st.db, g.base, |st.data|, id, |v|);
    FitsReplaced(st.db, g.base, |st.data|, id, st.db[id].(curSize := |v|));
  }

  lemma {:induction false} PatchNothing(data: seq<byte>, s: nat, v: seq<byte>)
    requires s + |v| <= |data|
    ensures v == [] ==> Patch(data, s, v) == data
  {}

  lemma {:induction false} EntryWritten(entries: seq<VarEntry>, base: nat, area: nat, id: nat, len: nat)
    requires AllFit(entries, base, area) && id < |entries| && len <= entries[id].size
    ensures EntryFits(entries[id].(curSize := len), base, area)
  {
    assert EntryFits(entries[id], base, area);
  }

  /** Writing through an entry that is not in use leaves the store sound, whatever is
      written, if and only if the bytes meet no value of a variable. */
  lemma {:induction false} UnusedWriteIff(live: set<Chunk>, st: Store, g: Shape, id: nat, len: nat)
    requires Sound(live, st, g) && 1 <= id < MAX_VARS && id !in st.blocks && len <= st.db[id].size
    ensures Fits(st, id, len, g.base)
    ensures (forall v: seq<byte> {:trigger Overwritten(st, id, v, g.base)} :: |v| == len ==>
               Sound(live, Overwritten(st, id, v, g.base), g))
       <==> Beside(st.db[id].tableOffset - g.base, len, st.blocks, st.written, g.sz)
  {
    DeclaredFits(live, st, g, id);
    var s := st.db[id].tableOffset - g.base;
    if len == 0 {
      NothingBeside(s, st.blocks, st.written, g.sz, st.data, st.db);
      forall v: seq<byte> | |v| == len ensures Sound(live, Overwritten(st, id, v, g.base), g) {
        UnusedWritten(live, st, g, id, v);
      }
    } else {
      assert 0 <= s && s + len <= |st.data|;
      assert Holds(st.data, st.db, st.blocks, st.written, g.sz);
      hide *;
      StaleWriteIff(st.data, st.db, st.blocks, st.written, g.sz, s, len);
      forall v: seq<byte> | |v| == len
        ensures Fits(st, id, |v|, g.base)
        ensures Sound(live, Overwritten(st, id, v, g.base), g)
           <==> Holds(Patch(st.data, s, v), st.db, st.blocks, st.written, g.sz)
      {
        UnusedWrittenAt(live, st, g, id, v, s);
      }
    }
  }

  lemma {:induction false} UnusedWrittenAt(live: set<Chunk>, st: Store, g: Shape, id: nat, v: seq<byte>, s: nat)
    requires Sound(live, st, g) && 1 <= id < MAX_VARS && id < |st.db| && id !in st.blocks && |v| <= st.db[id].size
    requires v != [] && s == st.db[id].tableOffset - g.base && s + |v| <= |st.data| && Fits(st, id, |v|, g.base)
    ensures Sound(live, Overwritten(st, id, v, g.base), g)
       <==> Holds(Patch(st.data, s, v), st.db, st.blocks, st.written, g.sz)
  {
    hide Sound, Holds, Patch;
    UnusedWritten(live, st, g, id, v);
  }

  lemma {:induction false} NothingBeside(s: int, blocks: Blocks, written: Values, sz: nat, data: seq<byte>, db: seq<VarEntry>)
    requires Holds(data, db, blocks, written, sz)
    ensures Beside(s, 0, blocks, written, sz)
  {}

  lemma {:induction false} UnusedWritten(live: set<Chunk>, st: Store, g: Shape, id: nat, v: seq<byte>)
    requires Sound(live, st, g) && 1 <= id < MAX_VARS && id !in st.blocks && |v| <= st.db[id].size
    requires Fits(st, id, |v|, g.base)
    ensures var to := Overwritten(st, id, v, g.base);
            Sound(live, to, g) <==> Holds(to.data, st.db, st.blocks, st.written, g.sz)
  {
    hide AllFit, EntryFits, BlocksApart, Spares, Holds, Patch, HeldIn;
    var e := st.db[id].(curSize := |v|);
    var to := Overwritten(st, id, v, g.base);
    assert e.statId == 0;
    hide Layout;
    UnusedTouched(live, st.db, st.maxId, st.blocks, g.sz, to.data, st.written, id, e);
    SparesTouched(live, st.db, st.blocks, st.spare, id, e);
    EntryWritten(st.db, g.base, |st.data|, id, |v|);
    FitsReplaced(st.db, g.base, |st.data|, id, e);
  }

  lemma {:induction false} WriteOutcome(live: set<Chunk>, st: Store, g: Shape, id: nat, v: seq<byte>)
    requires Sound(live, st, g) && 1 <= id < MAX_VARS && id < |st.db| && |v| <= st.db[id].size
    ensures Fits(st, id, |v|, g.base)
    ensures id in st.blocks || Beside(st.db[id].tableOffset - g.base, |v|, st.blocks, st.written, g.sz)
        ==> Sound(live, Overwritten(st, id, v, g.base), g)
  {
    DeclaredFits(live, st, g, id);
    hide *;
    if id in st.blocks {
      WrittenSound(live, st, g, id, v);
    } else {
      UnusedWriteIff(live, st, g, id, |v|);
    }
  }

  /** The bytes of a value stand where its entry points. */
  lemma {:induction false} ReadPlace(live: set<Chunk>, st: Store, g: Shape, id: nat)
    requires Sound(live, st, g) && id in st.written
    ensures id < |st.db| && st.db[id].curSize == |st.written[id]| && Fits(st, id, |st.written[id]|, g.base)
    ensures Pointed(st, id, |st.written[id]|, g.base) == st.written[id]
  {
    hide AllFit, BlocksApart, Spares;
    assert HeldIn(st.data, st.db[id], st.blocks[id], st.written[id], g.sz);
    OwnEntry(live, st.db, st.maxId, st.blocks, g.sz, id);
    Placed(live, g.n, g.sz, g.base, st.blocks[id]);
  }

  // ----- the operations

  class VarTable {
    const pool: Pool
    const data: array<byte>
    const db: array<VarEntry>
    var maxVarId: nat

    // the block of every variable, the value of every variable written so far, the blocks
    // that belong to no variable, and how often a create has taken one with the table full
    ghost var blocks: Blocks
    ghost var written: Values
    ghost var spare: set<Chunk>
    ghost var fullCreates: nat

    ghost function State(): Store
      reads this, data, db
    {
      Store(db[..], maxVarId, data[..], blocks, written, spare)
    }

    ghost function Form(): Shape
      reads this
    {
      Shape(pool.nofSlots, pool.slotSz, pool.dataOffset)
    }

    ghost predicate Valid()
      reads this, data, db, pool.slots, pool.chunks
    {
      pool.Valid() && db.Length == MAX_VARS && Sound(pool.Live(), State(), Form()) && |spare| == fullCreates
    }

    constructor (p: Pool)
      requires p.Valid() && p.dataOffset >= 1 && p.Live() == {}
      ensures Valid() && pool == p && blocks == map[] && written == map[] && maxVarId == 0 && fullCreates == 0
      ensures fresh(data) && fresh(db)
    {
      pool := p;
      MulLeft(p.slotSz, 0, p.nofSlots);
      data := new byte[p.nofSlots * p.slotSz];
      db := new VarEntry[MAX_VARS](_ => CLEAR);
      maxVarId := 0;
      blocks, written, spare, fullCreates := map[], map[], {}, 0;
    }

    /** Over every history: each block in use belongs to a variable if and only if no
        create has taken one with the table full. */
    lemma {:induction false} AllOwnedIff()
      requires Valid()
      ensures (forall c :: c in pool.Live() ==> c in blocks.Values) <==> fullCreates == 0
    {
      hide Layout, Holds, AllFit, BlocksApart;
      if fullCreates > 0 {
        assert spare != {};
        var c :| c in spare;
        assert c in pool.Live() && c !in blocks.Values;
      }
    }

    /** Ids that the range test of every operation turns away. */
    ghost predicate OutOfRange(id: int)
      reads this
    {
      id < 1 || id > maxVarId
    }

    /** The least unused id. */
    method FreeEntry() returns (i: nat)
      requires db.Length == MAX_VARS
      ensures 1 <= i <= MAX_VARS && (i < MAX_VARS ==> db[i].statId == 0)
      ensures forall k :: 1 <= k < i ==> db[k].statId != 0
    {
      i := 1;
      while i < MAX_VARS && db[i].statId != 0
        invariant 1 <= i <= MAX_VARS
        invariant forall k :: 1 <= k < i ==> db[k].statId != 0
      {
        i := i + 1;
      }
    }

    /** The lowest block that size bytes fit into. */
    ghost predicate TakenFirst(c: Chunk, size: nat, flags: seq<bool>)
    {
      && pool.slotSz >= 1 && c.slotSt >= 0 && c.slotEnd == c.slotSt + Need(size, pool.slotSz)
      && LowestRun(flags, c.slotSt, Need(size, pool.slotSz))
      && c.offset == pool.dataOffset + c.slotSt * pool.slotSz
    }

    /** Some run of free slots can take size bytes. */
    ghost predicate Room(size: nat)
      requires pool.Valid()
      reads pool.slots, pool.chunks
    {
      exists j :: 0 <= j < pool.nofSlots && FreeRun(pool.slots[..], j, Need(size, pool.slotSz))
    }

    method TakeBlock(size: nat) returns (offset: int, ghost c: Chunk)
      requires pool.Valid() && size >= 1
      modifies pool.slots, pool.chunks
      ensures pool.Valid() && (offset == -1 <==> !old(Room(size)))
      ensures offset == -1 ==> pool.Live() == old(pool.Live()) && pool.slots[..] == old(pool.slots[..])
      ensures offset != -1 ==>
        && offset == c.offset && c !in old(pool.Live()) && pool.Live() == old(pool.Live()) + {c}
        && TakenFirst(c, size, old(pool.slots[..])) && c.slotEnd <= pool.nofSlots
        && pool.slots[..] == SetFlags(old(pool.slots[..]), c.slotSt, c.slotEnd, true)
    {
      hide Consistent, LiveChunks, Need, SetFlags;
      offset := pool.Alloc(size);
      c := Chunk(-1, 0, 0);
      if offset != -1 {
        ghost var j: nat :|
          && LowestRun(old(pool.slots[..]), j, Need(size, pool.slotSz))
          && offset == pool.dataOffset + j * pool.slotSz
          && pool.Live() == old(pool.Live()) + {Chunk(offset, j, j + Need(size, pool.slotSz))}
          && Chunk(offset, j, j + Need(size, pool.slotSz)) !in old(pool.Live())
          && pool.slots[..] == SetFlags(old(pool.slots[..]), j, j + Need(size, pool.slotSz), true);
        c := Chunk(offset, j, j + Need(size, pool.slotSz));
      }
    }

    /** Takes the lowest block that fits and creates a variable under the lowest unused id.
        When the table is full the block is kept all the same, and belongs to nobody. When
        no block fits a variable is created all the same, without one: its entry keeps the
        -1 of the failed allocation, and the store is not sound any more. */
    method Create2(name: string, size: nat, opts: int, vtype: int, myObjId: int) returns (id: int, ghost c: Chunk)
      requires Valid() && size >= 1
      modifies this, db, pool.slots, pool.chunks
      ensures pool.Valid() && (Valid() <==> old(Room(size)) || id == -1)
      ensures id == -1 <==> forall i :: 1 <= i < MAX_VARS ==> i in old(blocks)
      ensures id != -1 ==>
        && 1 <= id < MAX_VARS && id !in old(blocks) && (forall i :: 1 <= i < id ==> i in old(blocks))
        && db[id] == VarEntry(name, myObjId, id, size, old(db[id]).curSize, opts, vtype,
                              if old(Room(size)) then c.offset else -1)
        && maxVarId == (if id + 1 > old(maxVarId) then id + 1 else old(maxVarId))
        && (old(Room(size)) ==> blocks == old(blocks)[id := c])
        && fullCreates == old(fullCreates)
      ensures old(Room(size)) ==>
        && c !in old(pool.Live()) && pool.Live() == old(pool.Live()) + {c}
        && TakenFirst(c, size, old(pool.slots[..])) && c.slotEnd <= pool.nofSlots
        && pool.slots[..] == SetFlags(old(pool.slots[..]), c.slotSt, c.slotEnd, true)
        && (id != -1 ==> State() == Created(old(State()), id, db[id], c))
        && (id == -1 ==>
              c !in blocks.Values && State() == old(State()).(spare := spare) && fullCreates == old(fullCreates) + 1)
      ensures !old(Room(size)) ==>
        && pool.Live() == old(pool.Live()) && pool.slots[..] == old(pool.slots[..])
        && State() == (if id == -1 then old(State()) else Homeless(old(State()), id, db[id]))
        && fullCreates == old(fullCreates)
    {
      hide Sound, Consistent, LiveChunks, BlocksApart, SetFlags, FreeRun, Need, TakenFirst, Room, Homeless;
      ghost var live, st := pool.Live(), State();
      var offset;
      offset, c := TakeBlock(size);
      if offset != -1 { NeedOf(c, size, old(pool.slots[..])); }
      pool.LiveBlocksApart();
      var i := FreeEntry();
      LowestUnused(live, st, Form(), i);
      if i == MAX_VARS {
        if offset != -1 {
          WastedSound(live, st, Form(), c);
          spare, fullCreates := spare + {c}, fullCreates + 1;
        }
        return -1, c;
      }
      var e := VarEntry(name, myObjId, i, size, db[i].curSize, opts, vtype, offset);
      FillEntry(i, e);
      if offset != -1 {
        CreatedSound(live, st, Form(), i, c, e);
        blocks := blocks[i := c];
      } else {
        HomelessUnsound(State(), Form(), i);
      }
      id := i;
    }

    lemma {:induction false} NeedOf(c: Chunk, size: nat, flags: seq<bool>)
      requires TakenFirst(c, size, flags)
      ensures pool.slotSz >= 1 && c.slotEnd - c.slotSt == Need(size, pool.slotSz)
    {}

    method FillEntry(i: nat, e: VarEntry)
      requires db.Length == MAX_VARS && i < MAX_VARS
      modifies this`maxVarId, db
      ensures State() == Homeless(old(State()), i, e) && db[i] == e
      ensures maxVarId == if i + 1 > old(maxVarId) then i + 1 else old(maxVarId)
    {
      db[i] := e;
      if i + 1 > maxVarId { maxVarId := i + 1; }
    }

    static lemma {:induction false} LowestUnused(live: set<Chunk>, st: Store, g: Shape, i: nat)
      requires Sound(live, st, g) && 1 <= i <= MAX_VARS
      requires i < MAX_VARS ==> st.db[i].statId == 0
      requires forall k :: 1 <= k < i ==> st.db[k].statId != 0
      ensures i < MAX_VARS ==> i !in st.blocks
      ensures forall k :: 1 <= k < i ==> k in st.blocks
    {
      hide Holds, Spares, AllFit, BlocksApart;
    }

    /** A variable in use is deleted: its id is free again, and its block and no other is
        released. An id not in use releases whatever stands at the offset its entry
        remembers; UnusedDeleteIff says when that does no harm. */
    method Delete(id: int) returns (r: int)
      requires Valid() && (OutOfRange(id) || id < MAX_VARS)
      modifies this, db, pool.slots, pool.chunks
      ensures pool.Valid() && fullCreates == old(fullCreates)
      ensures r == if old(OutOfRange(id)) then 0 else 1
      ensures r == 0 ==> Valid() && State() == old(State()) && pool.Live() == old(pool.Live()) && pool.slots[..] == old(pool.slots[..])
      ensures r == 1 ==>
        && State() == Deleted(old(State()), id) && pool.Live() == Release(old(pool.Live()), old(db[id]).tableOffset)
        && db[..] == old(db[..])[id := old(db[id]).(statId := 0, objId := 0)]
        && forall c :: c in pool.Live() <==> c in old(pool.Live()) && c.offset != old(db[id]).tableOffset
      ensures r == 1 ==> forall c :: c in old(pool.Live()) && c.offset == old(db[id]).tableOffset ==>
        0 <= c.slotSt <= c.slotEnd <= pool.nofSlots
        && pool.slots[..] == SetFlags(old(pool.slots[..]), c.slotSt, c.slotEnd, false)
      ensures r == 1 && id in old(blocks) ==> Valid() && pool.Live() == old(pool.Live()) - {old(blocks)[id]}
      ensures r == 1 && id !in old(blocks) ==>
        blocks == old(blocks) && written == old(written)
        && (Valid() <==> forall k :: k in blocks ==> blocks[k].offset != old(db[id]).tableOffset)
    {
      hide Consistent, LiveChunks, Layout, Holds, Spares, AllFit, BlocksApart, SetFlags;
      if id < 1 || id > maxVarId { return 0; }
      ghost var live, st := pool.Live(), State();
      if id in blocks { DeletedSound(live, st, Form(), id); } else { UnusedDeleteIff(live, st, Form(), id); }
      ReleaseAt(db[id].tableOffset);
      db[id] := db[id].(statId := 0, objId := 0);
      assert db[..] == Deleted(st, id).db;
      blocks, written := blocks - {id}, written - {id};
      r := 1;
    }

    /** Frees what stands at an offset; offset 0 is never that of a block. */
    method ReleaseAt(offset: int)
      requires pool.Valid() && pool.dataOffset >= 1
      modifies pool.slots, pool.chunks
      ensures pool.Valid() && pool.Live() == Release(old(pool.Live()), offset)
      ensures forall c :: c in old(pool.Live()) && c.offset == offset ==>
                0 <= c.slotSt <= c.slotEnd <= pool.nofSlots
                && pool.slots[..] == SetFlags(old(pool.slots[..]), c.slotSt, c.slotEnd, false)
    {
      hide Consistent, LiveChunks, SetFlags;
      pool.OffsetsApart();
      pool.LiveBlocksApart();
      ghost var live := pool.Live();
      OffsetsPositive(live, pool.nofSlots, pool.slotSz, pool.dataOffset);
      if offset != 0 {
        var freed := pool.Free(offset);
      }
      assert pool.Live() == Release(live, offset);
    }

    static lemma {:induction false} OffsetsPositive(live: set<Chunk>, n: nat, sz: nat, base: nat)
      requires BlocksApart(live, n, sz, base) && base >= 1
      ensures forall c :: c in live ==> c.offset > 0
    {
      forall c | c in live ensures c.offset > 0 { Placed(live, n, sz, base, c); }
    }

    /** Stores a value, cut to the declared size, where the entry points. For a variable in
        use that changes its value and no other; UnusedWriteIff says when a write through an
        unused entry does no harm. */
    method Write(id: int, value: array<byte>, valueSz: nat) returns (r: int)
      requires Valid() && (OutOfRange(id) || id < MAX_VARS)
      requires valueSz <= value.Length && value != data
      modifies this`written, data, db
      ensures OutOfRange(id) ==> Valid() && r == -1 && State() == old(State())
      ensures !OutOfRange(id) ==>
        && 0 <= r <= valueSz && r <= old(db[id]).size && (r == valueSz || r == old(db[id]).size)
        && Fits(old(State()), id, r, pool.dataOffset)
        && State() == Overwritten(old(State()), id, value[..r], pool.dataOffset)
        && db[..] == old(db[..])[id := old(db[id]).(curSize := r)]
        && (r == 0 ==> data[..] == old(data[..]))
        && (r > 0 ==> data[..] == Patch(old(data[..]), old(db[id]).tableOffset - pool.dataOffset, value[..r]))
      ensures !OutOfRange(id) && id in blocks ==> Valid() && written == old(written)[id := value[..r]]
      ensures !OutOfRange(id) && id !in blocks ==>
        Beside(old(db[id]).tableOffset - pool.dataOffset, r, blocks, written, pool.slotSz) ==> Valid()
    {
      hide Sound, Consistent, LiveChunks, Beside, Overwritten, Patch;
      if id < 1 || id > maxVarId { return -1; }
      var len := valueSz;
      if len >= db[id].size { len := db[id].size; }
      ghost var live, st, v := pool.Live(), State(), value[..len];
      WriteOutcome(live, st, Form(), id, v);
      StoreBytes(id, value, len);
      if id in blocks { written := written[id := v]; }
      WrittenValues(st, id, v, pool.dataOffset);
      r := len;
    }

    static lemma {:induction false} WrittenValues(st: Store, id: nat, v: seq<byte>, base: nat)
      requires id < |st.db| && Fits(st, id, |v|, base)
      ensures Overwritten(st, id, v, base).written == if id in st.blocks then st.written[id := v] else st.written
    {}

    method StoreBytes(id: nat, value: array<byte>, len: nat)
      requires id < db.Length && len <= value.Length && value != data && Fits(State(), id, len, pool.dataOffset)
      modifies data, db
      ensures State() == Overwritten(old(State()), id, value[..len], pool.dataOffset).(written := written)
      ensures db[..] == old(db[..])[id := old(db[id]).(curSize := len)]
      ensures len == 0 ==> data[..] == old(data[..])
      ensures len > 0 ==> data[..] == Patch(old(data[..]), old(db[id]).tableOffset - pool.dataOffset, value[..len])
    {
      hide Patch;
      if len > 0 { CopyTo(db[id].tableOffset - pool.dataOffset, value, len); }
      db[id] := db[id].(curSize := len);
    }

    /** The memcpy into the data area. */
    method CopyTo(start: nat, value: array<byte>, len: nat)
      requires len <= value.Length && start + len <= data.Length && value != data
      modifies data
      ensures data[..] == Patch(old(data[..]), start, value[..len])
    {
      var i := 0;
      while i < len
        invariant 0 <= i <= len
        invariant data[..] == Patch(old(data[..]), start, value[..i])
      {
        data[start + i] := value[i];
        i := i + 1;
      }
    }

    /** The entry holds a value, or it points at enough bytes inside the data area. */
    ghost predicate CanRead(id: int, buffSz: nat)
      reads this, data, db
    {
      0 <= id < db.Length && id !in written ==>
        forall len :: 0 <= len <= db[id].curSize && len <= buffSz ==> Fits(State(), id, len, pool.dataOffset)
    }

    /** The value last written to the id, cut to the buffer. For an id that holds none, what
        stands where its entry points, as long as that lies inside the table. */
    method Read(id: int, buf: array<byte>, buffSz: nat) returns (r: int)
      requires Valid() && (OutOfRange(id) || id < MAX_VARS)
      requires buffSz <= buf.Length && buf != data
      requires CanRead(id, buffSz)
      modifies buf
      ensures OutOfRange(id) ==> r == -1 && buf[..] == old(buf[..])
      ensures !OutOfRange(id) ==>
        && 0 <= r <= db[id].curSize && r <= buffSz && (r == db[id].curSize || r == buffSz)
        && buf[r..] == old(buf[r..])
        && Fits(State(), id, r, pool.dataOffset) && buf[..r] == Pointed(State(), id, r, pool.dataOffset)
        && (r > 0 ==> buf[..r] == data[db[id].tableOffset - pool.dataOffset..][..r])
      ensures !OutOfRange(id) && id in written ==>
        r <= |written[id]| && (r == |written[id]| || r == buffSz) && buf[..r] == written[id][..r]
    {
      hide Sound, Consistent, LiveChunks;
      if id < 1 || id > maxVarId { return -1; }
      var len := db[id].curSize;
      if len > buffSz { len := buffSz; }
      DeclaredFits(pool.Live(), State(), Form(), id);
      if id in written { ReadPlace(pool.Live(), State(), Form(), id); }
      ghost var whole := Pointed(State(), id, len, pool.dataOffset);
      if len > 0 { CopyFrom(db[id].tableOffset - pool.dataOffset, buf, len); }
      assert buf[..len] == whole;
      r := len;
    }

    /** What is written to a variable is read back: the longest prefix that fits into the
        variable and into the buffer. */
    method WriteThenRead(id: int, value: array<byte>, valueSz: nat, buf: array<byte>, buffSz: nat) returns (r: int)
      requires Valid() && id in blocks
      requires valueSz <= value.Length && value != data
      requires buffSz <= buf.Length && buf != data && buf != value
      modifies this`written, data, db, buf
      ensures Valid() && 0 <= id < db.Length
      ensures 0 <= r <= valueSz && r <= old(db[id].size) && r <= buffSz
      ensures r == valueSz || r == old(db[id].size) || r == buffSz
      ensures buf[..r] == value[..r] && buf[r..] == old(buf[r..])
    {
      hide Sound, Consistent, LiveChunks, Overwritten, Pointed, Fits;
      UsedInRange(this, id);
      var stored := Write(id, value, valueSz);
      UsedInRange(this, id);
      r := Read(id, buf, buffSz);
    }

    /** The memcpy out of the data area. */
    method CopyFrom(start: nat, buf: array<byte>, len: nat)
      requires len <= buf.Length && start + len <= data.Length && buf != data
      modifies buf
      ensures buf[..len] == data[start..][..len] && buf[len..] == old(buf[len..])
    {
      var i := 0;
      while i < len
        invariant 0 <= i <= len
        invariant forall k :: 0 <= k < i ==> buf[k] == data[start + k]
        invariant forall k :: len <= k < buf.Length ==> buf[k] == old(buf[k])
      {
        buf[i] := data[start + i];
        i := i + 1;
      }
    }
  }

  // ----- an input that meets a stale entry

  lemma {:induction false} LowestUnique(flags: seq<bool>, a: nat, b: nat, need: nat)
    requires LowestRun(flags, a, need) && LowestRun(flags, b, need)
    ensures a == b
  {
    assert FreeRun(flags, a, need) && FreeRun(flags, b, need);
  }

  /** The first slots behind a taken one, when what is in front of it is too short. */
  lemma {:induction false} LowestAt(flags: seq<bool>, slot: nat, need: nat)
    requires slot <= need && FreeRun(flags, slot, need) && (slot > 0 ==> flags[slot - 1])
    ensures LowestRun(flags, slot, need)
  {
    forall k | 0 <= k < slot ensures !FreeRun(flags, k, need) { assert k <= slot - 1 < k + need; }
  }

  lemma {:induction false} NoneTaken(p: Pool)
    requires p.Valid() && p.Live() == {}
    ensures forall s :: 0 <= s < p.nofSlots ==> !p.slots[s]
  {
    var cs := p.chunks[..];
    forall i | 0 <= i < |cs| ensures !IsLive(cs[i]) { assert cs[i] !in LiveChunks(cs); }
    forall s | 0 <= s < p.nofSlots ensures !p.slots[s] {
      assert forall i :: 0 <= i < |cs| ==> !Owns(cs[i], s);
      assert p.slots[s] == p.slots[..][s];
    }
  }

  /** So many bytes fill so many slots. */
  lemma {:induction false} NeedOfSlots(cnt: nat, sz: nat)
    requires sz >= 1 && cnt >= 1
    ensures Need(cnt * sz, sz) == cnt && cnt * sz >= sz
  {
    assert cnt * sz == sz * cnt;
    MulLeft(sz, 1, cnt);
    DivModUnique(cnt * sz + sz - 1, sz, cnt, sz - 1);
  }

  /** The first four flags. */
  predicate Flags(flags: seq<bool>, a: bool, b: bool, c: bool, d: bool) {
    |flags| >= 4 && flags[0] == a && flags[1] == b && flags[2] == c && flags[3] == d
  }

  /** A create whose place and id are known beforehand. */
  method CreateAt(v: VarTable, cnt: nat, ghost slot: nat, id: nat)
    requires v.Valid() && cnt >= 1 && LowestRun(v.pool.slots[..], slot, cnt)
    requires 1 <= id < MAX_VARS && id !in v.blocks && forall k :: 1 <= k < id ==> k in v.blocks
    modifies v, v.db, v.pool.slots, v.pool.chunks
    ensures v.Valid() && slot + cnt <= v.pool.nofSlots
    ensures v.pool.slots[..] == SetFlags(old(v.pool.slots[..]), slot, slot + cnt, true)
    ensures id in v.blocks && v.blocks == old(v.blocks)[id := v.blocks[id]] && Stands(v, id, slot, cnt)
    ensures forall k :: 0 <= k < v.db.Length && k != id ==> v.db[k] == old(v.db[k])
    ensures v.maxVarId == if id + 1 > old(v.maxVarId) then id + 1 else old(v.maxVarId)
  {
    hide Sound, Consistent, LiveChunks, SetFlags, Need;
    NeedOfSlots(cnt, v.pool.slotSz);
    assert FreeRun(v.pool.slots[..], slot, Need(cnt * v.pool.slotSz, v.pool.slotSz));
    ghost var flags, st := v.pool.slots[..], v.State();
    var got, c := v.Create2("", cnt * v.pool.slotSz, 0, 0, 0);
    LowestUnique(flags, slot, c.slotSt, cnt);
    assert v.State() == Created(st, got, v.db[got], c);
    assert got == id;
  }

  /** A delete of an id in use. */
  method DeleteUsed(v: VarTable, id: nat)
    requires v.Valid() && id in v.blocks
    modifies v, v.db, v.pool.slots, v.pool.chunks
    ensures v.Valid() && v.blocks == old(v.blocks) - {id} && v.maxVarId == old(v.maxVarId)
    ensures var c := old(v.blocks)[id];
            0 <= c.slotSt <= c.slotEnd <= v.pool.nofSlots
            && v.pool.slots[..] == SetFlags(old(v.pool.slots[..]), c.slotSt, c.slotEnd, false)
    ensures 0 <= id < v.db.Length && v.db[id].tableOffset == old(v.db[id]).tableOffset && v.db[id].size == old(v.db[id]).size
    ensures forall k :: 0 <= k < v.db.Length && k != id ==> v.db[k] == old(v.db[k])
  {
    hide Sound, Consistent, LiveChunks, SetFlags, Release;
    UsedInRange(v, id);
    var r := v.Delete(id);
  }

  lemma {:induction false} UsedInRange(v: VarTable, id: nat)
    requires v.Valid() && id in v.blocks
    ensures 1 <= id < MAX_VARS && !v.OutOfRange(id)
    ensures v.blocks[id] in v.pool.Live() && v.blocks[id].offset == v.db[id].tableOffset
  {
    hide Holds, AllFit, Spares, BlocksApart, LiveChunks, Consistent;
  }

  /** Variable id fills cnt slots from slot on. */
  ghost predicate Stands(v: VarTable, id: nat, slot: nat, cnt: nat)
    reads v, v.db
  {
    var offset := v.pool.dataOffset + slot * v.pool.slotSz;
    && id in v.blocks && v.blocks[id] == Chunk(offset, slot, slot + cnt)
    && id < v.db.Length && v.db[id].tableOffset == offset && v.db[id].size == cnt * v.pool.slotSz
  }

  /** A pool with nothing in it and at least four slots, of any size. */
  ghost predicate Empty(p: Pool)
    reads p.slots, p.chunks
  {
    p.Valid() && p.dataOffset >= 1 && p.Live() == {} && p.nofSlots >= 4
  }

  /** Ids 1 and 2 are created, one slot each. */
  method TwoEntries(p: Pool) returns (v: VarTable)
    requires Empty(p)
    modifies p.slots, p.chunks
    ensures v.Valid() && fresh(v) && fresh(v.db) && fresh(v.data) && v.pool == p
    ensures v.blocks.Keys == {1, 2} && Stands(v, 1, 0, 1) && Stands(v, 2, 1, 1)
    ensures Flags(p.slots[..], true, true, false, false) && v.maxVarId == 3
  {
    hide Sound, Consistent, LiveChunks, LowestRun, SetFlags;
    NoneTaken(p);
    v := new VarTable(p);
    LowestAt(p.slots[..], 0, 1);
    CreateAt(v, 1, 0, 1);
    LowestAt(p.slots[..], 1, 1);
    CreateAt(v, 1, 1, 2);
  }

  /** Id 1 is moved behind 2 by making it larger. */
  method MovedEntry(p: Pool) returns (v: VarTable)
    requires Empty(p)
    modifies p.slots, p.chunks
    ensures v.Valid() && fresh(v) && fresh(v.db) && fresh(v.data) && v.pool == p
    ensures v.blocks.Keys == {1, 2} && Stands(v, 1, 2, 2) && Stands(v, 2, 1, 1)
    ensures Flags(p.slots[..], false, true, true, true) && v.maxVarId == 3
  {
    hide Sound, Consistent, LiveChunks, LowestRun, SetFlags;
    v := TwoEntries(p);
    DeleteUsed(v, 1);
    LowestAt(p.slots[..], 2, 2);
    CreateAt(v, 2, 2, 1);
  }

  /** Id 3 takes its place. */
  method FilledPlace(p: Pool) returns (v: VarTable)
    requires Empty(p)
    modifies p.slots, p.chunks
    ensures v.Valid() && fresh(v) && fresh(v.db) && fresh(v.data) && v.pool == p
    ensures v.blocks.Keys == {1, 2, 3} && Stands(v, 1, 2, 2) && Stands(v, 2, 1, 1)
    ensures Flags(p.slots[..], true, true, true, true) && v.maxVarId == 4
  {
    hide Sound, Consistent, LiveChunks, LowestRun, SetFlags;
    v := MovedEntry(p);
    LowestAt(p.slots[..], 0, 1);
    CreateAt(v, 1, 0, 3);
  }

  /** Then 2 and 1 are deleted, and 1 is created once more: it stands where 2 used to, and
      the unused entry 2 still points there. */
  method StaleEntry(p: Pool) returns (v: VarTable)
    requires Empty(p)
    modifies p.slots, p.chunks
    ensures v.Valid() && fresh(v) && fresh(v.db) && fresh(v.data) && v.pool == p
    ensures !v.OutOfRange(2) && 2 !in v.blocks && Stands(v, 1, 1, 1)
    ensures v.db.Length == MAX_VARS && v.db[2].tableOffset == v.db[1].tableOffset && v.db[2].size == v.pool.slotSz
  {
    hide Sound, Consistent, LiveChunks, LowestRun, SetFlags;
    v := FilledPlace(p);
    DeleteUsed(v, 2);
    DeleteUsed(v, 1);
    LowestAt(p.slots[..], 1, 1);
    CreateAt(v, 1, 1, 1);
  }

  /** Deleting 2 again releases the block of variable 1. */
  method StaleDelete(p: Pool) returns (v: VarTable)
    requires Empty(p)
    modifies p.slots, p.chunks
    ensures 1 in v.blocks && v.blocks[1] !in v.pool.Live() && !v.Valid()
  {
    v := StaleEntry(p);
    hide Sound, Consistent, LiveChunks;
    var r := v.Delete(2);
  }

  /** Write one byte to an entry of at least that size. */
  method WriteByte(v: VarTable, id: nat, x: byte)
    requires v.Valid() && !v.OutOfRange(id) && id < MAX_VARS && v.db[id].size >= 1
    modifies v, v.db, v.data
    ensures 0 <= v.db[id].tableOffset - v.pool.dataOffset < v.data.Length
    ensures v.data[v.db[id].tableOffset - v.pool.dataOffset] == x
    ensures id in v.blocks ==> v.Valid()
    ensures v.blocks == old(v.blocks) && v.maxVarId == old(v.maxVarId)
    ensures v.written == if id in v.blocks then old(v.written)[id := [x]] else old(v.written)
    ensures forall k :: 0 <= k < v.db.Length ==>
              v.db[k].tableOffset == old(v.db[k]).tableOffset && v.db[k].size == old(v.db[k]).size
  {
    hide Sound, Consistent, LiveChunks, Beside;
    var one := new byte[1](_ => x);
    var r := v.Write(id, one, 1);
    assert one[..1] == [x];
    assert v.State() == Overwritten(old(v.State()), id, [x], v.pool.dataOffset);
  }

  /** Writing to 2 changes what variable 1 holds. */
  method StaleWrite(p: Pool, x: byte, y: byte) returns (v: VarTable)
    requires Empty(p)
    modifies p.slots, p.chunks
    ensures v.db.Length == MAX_VARS && 0 <= v.db[1].tableOffset - p.dataOffset < v.data.Length
    ensures 1 in v.written && v.written[1] == [x] && v.data[v.db[1].tableOffset - p.dataOffset] == y
  {
    hide Sound, Consistent, LiveChunks;
    v := StaleEntry(p);
    WriteByte(v, 1, x);
    WriteByte(v, 2, y);
  }
}
