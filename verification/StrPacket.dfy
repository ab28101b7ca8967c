/** The bounded strings of utils/src/str.c and the packets Set_topkt makes of a list of them. */
module StrPacket {
  import opened SetList
  import opened Words
  import opened Wrappers

  const MAX_STRING_LEN := 128

  // ----- the wire format

  /** A string followed by its zero byte. */
  function Terminated(t: Text): (b: Bytes)
    ensures |b| == |t| + 1
  {
    var zero: Bytes := [0];
    t + zero
  }

  function Encode(ts: seq<Text>): Bytes {
    if ts == [] then [] else Terminated(ts[0]) + Encode(ts[1..])
  }

  /** A string object: its text, and whether its stored length is that of the text or one
      too large. */
  datatype Kept = Kept(text: Text, exact: bool)

  /** What str_topkt writes: the bytes up to the stored length, and a zero byte. */
  function Image(k: Kept): (b: Bytes)
    ensures |b| == |k.text| + if k.exact then 1 else 2
  {
    if k.exact then Terminated(k.text) else Terminated(k.text) + Terminated([])
  }

  function Wire(ks: seq<Kept>): Bytes {
    if ks == [] then [] else Image(ks[0]) + Wire(ks[1..])
  }

  function Packet(ks: seq<Kept>): Bytes
    requires |ks| <= 127
  {
    [|ks| as byte] + Wire(ks)
  }

  function TextsOf(ks: seq<Kept>): (ts: seq<Text>)
    ensures |ts| == |ks| && forall i :: 0 <= i < |ks| ==> ts[i] == ks[i].text
  {
    seq(|ks|, i requires 0 <= i < |ks| => ks[i].text)
  }

  predicate AllExact(ks: seq<Kept>) {
    forall i :: 0 <= i < |ks| ==> ks[i].exact
  }

  predicate Short(ts: seq<Text>) {
    forall i :: 0 <= i < |ts| ==> |ts[i]| < MAX_STRING_LEN
  }

  /** The strings that stand on the wire: behind one whose length is too large an empty
      one. */
  function Spread(ks: seq<Kept>): seq<Text> {
    if ks == [] then []
    else [ks[0].text] + (if ks[0].exact then [] else [[]]) + Spread(ks[1..])
  }

  lemma {:induction false} SpreadSize(ks: seq<Kept>)
    ensures |Spread(ks)| >= |ks|
    ensures |Spread(ks)| == |ks| <==> AllExact(ks)
  {
    if ks != [] {
      SpreadSize(ks[1..]);
      assert AllExact(ks) <==> ks[0].exact && AllExact(ks[1..]) by {
        if ks[0].exact && AllExact(ks[1..]) {
          forall i | 0 <= i < |ks| ensures ks[i].exact { if i > 0 { assert ks[i] == ks[1..][i - 1]; } }
        }
      }
    }
  }

  /** The strings a reader gets that looks for as many as were counted. */
  function Arriving(ks: seq<Kept>): (ts: seq<Text>)
    ensures |ts| == |ks|
  {
    SpreadSize(ks);
    Spread(ks)[..|ks|]
  }

  /** Behind a string whose length is too large there are only empty ones. */
  predicate ComesBack(ks: seq<Kept>) {
    forall i, j :: 0 <= i < j < |ks| && !ks[i].exact ==> ks[j].text == []
  }

  /** What strlen finds: the position of the first zero byte. */
  function StrLen(b: Bytes): (r: Option<nat>)
    ensures r.Some? ==> r.value < |b| && b[r.value] == 0 && forall k :: 0 <= k < r.value ==> b[k] != 0
  {
    if b == [] then None
    else if b[0] == 0 then Some(0)
    else
      var r := StrLen(b[1..]);
      if r.Some? then Some(r.value + 1) else None
  }

  function FirstText(b: Bytes): (t: Text)
    requires StrLen(b).Some?
    ensures t == b[..StrLen(b).value]
  {
    b[..StrLen(b).value]
  }

  lemma {:induction false} StrLenOf(t: Text, rest: Bytes)
    ensures StrLen(Terminated(t) + rest) == Some(|t|)
  {
    if t != [] {
      StrLenOf(t[1..], rest);
      assert (Terminated(t) + rest)[1..] == Terminated(t[1..]) + rest;
    }
  }

  lemma {:induction false} ReadFirst(t: Text, rest: Bytes)
    ensures StrLen(Terminated(t) + rest) == Some(|t|)
    ensures FirstText(Terminated(t) + rest) == t
    ensures (Terminated(t) + rest)[|t| + 1..] == rest
  {
    StrLenOf(t, rest);
  }

  lemma {:induction false} ShortTail(ts: seq<Text>)
    requires Short(ts) && ts != []
    ensures Short(ts[1..])
  {
    forall i | 0 <= i < |ts| - 1 ensures |ts[1..][i]| < MAX_STRING_LEN { assert ts[1..][i] == ts[i + 1]; }
  }

  /** The next `count` strings are terminated inside the packet and short enough to keep,
      unless the packet ends exactly between two of them. */
  predicate Readable(b: Bytes, count: nat) {
    count == 0 || b == []
    || (StrLen(b).Some? && StrLen(b).value < MAX_STRING_LEN && Readable(b[StrLen(b).value + 1..], count - 1))
  }

  datatype Parsed = Parsed(whole: bool, texts: seq<Text>, used: nat)

  /** The strings found, whether the packet ends before the last one, and the bytes
      consumed. */
  function Parse(b: Bytes, count: nat): (r: Parsed)
    requires Readable(b, count)
    ensures r.used <= |b|
  {
    if count == 0 then Parsed(true, [], 0)
    else if b == [] then Parsed(false, [], 0)
    else
      var n := StrLen(b).value;
      Behind([FirstText(b)], n + 1, Parse(b[n + 1..], count - 1))
  }

  function Behind(done: seq<Text>, used: nat, p: Parsed): Parsed {
    Parsed(p.whole, done + p.texts, used + p.used)
  }

  /** A short string in front of what can be read is read first. */
  lemma {:induction false} ParseHead(t: Text, more: Bytes, count: nat)
    requires |t| < MAX_STRING_LEN && count > 0 && Readable(more, count - 1)
    ensures Readable(Terminated(t) + more, count)
    ensures Parse(Terminated(t) + more, count) == Behind([t], |t| + 1, Parse(more, count - 1))
  {
    hide StrLen, Terminated, Behind;
    ReadFirst(t, more);
  }

  lemma {:induction false} EncodeHead(ts: seq<Text>)
    requires Short(ts) && ts != []
    ensures Encode(ts) == Terminated(ts[0]) + Encode(ts[1..])
    ensures |Encode(ts)| == |ts[0]| + 1 + |Encode(ts[1..])|
    ensures Short(ts[1..]) && |ts[0]| < MAX_STRING_LEN
  {
    ShortTail(ts);
  }

  lemma {:induction false} BehindFirst(ts: seq<Text>, whole: bool, n: nat, used: nat)
    requires ts != []
    ensures Behind([ts[0]], n, Parsed(whole, ts[1..], used)) == Parsed(whole, ts, n + used)
  {
    assert [ts[0]] + ts[1..] == ts;
  }

  /** Reading back what was encoded gives the strings and stops right behind them. */
  lemma {:induction false} ParseEncode(ts: seq<Text>, rest: Bytes)
    requires Short(ts)
    ensures Readable(Encode(ts) + rest, |ts|)
    ensures Parse(Encode(ts) + rest, |ts|) == Parsed(true, ts, |Encode(ts)|)
    decreases |ts|
  {
    if ts == [] {
    } else {
      hide StrLen, Short, Terminated, Parse, Readable, Encode, Behind;
      EncodeHead(ts);
      var t, more := ts[0], Encode(ts[1..]) + rest;
      assert Encode(ts) + rest == Terminated(t) + more;
      ParseEncode(ts[1..], rest);
      ParseHead(t, more, |ts|);
      BehindFirst(ts, true, |t| + 1, |Encode(ts[1..])|);
    }
  }

  /** A packet cut between two strings is refused, having been read to its end. */
  lemma {:induction false} ParseCut(ts: seq<Text>, count: nat)
    requires Short(ts) && |ts| < count
    ensures Readable(Encode(ts), count)
    ensures Parse(Encode(ts), count) == Parsed(false, ts, |Encode(ts)|)
    decreases |ts|
  {
    if ts == [] {
    } else {
      hide StrLen, Short, Terminated, Parse, Readable, Encode, Behind;
      EncodeHead(ts);
      ParseCut(ts[1..], count - 1);
      ParseHead(ts[0], Encode(ts[1..]), count);
      BehindFirst(ts, false, |ts[0]| + 1, |Encode(ts[1..])|);
    }
  }

  lemma {:induction false} EncodeAppend(a: seq<Text>, b: seq<Text>)
    ensures Encode(a + b) == Encode(a) + Encode(b)
    decreases |a|
  {
    hide Terminated;
    if a == [] {
      assert a + b == b;
    } else {
      assert (a + b)[1..] == a[1..] + b;
      EncodeAppend(a[1..], b);
    }
  }

  lemma {:induction false} EncodeOne(t: Text)
    ensures Encode([t]) == Terminated(t)
  {
    hide Terminated;
    assert [t][1..] == [];
  }

  /** The wire is the encoding of the strings that stand on it. */
  lemma {:induction false} WireIsEncode(ks: seq<Kept>)
    ensures Wire(ks) == Encode(Spread(ks))
    decreases |ks|
  {
    hide Terminated, Encode;
    if ks == [] {
      EncodeNothing();
    } else {
      var first := [ks[0].text] + if ks[0].exact then [] else [[]];
      WireIsEncode(ks[1..]);
      ImageIsEncode(ks[0]);
      EncodeAppend(first, Spread(ks[1..]));
    }
  }

  lemma {:induction false} EncodeNothing()
    ensures Encode([]) == []
  {}

  lemma {:induction false} ImageIsEncode(k: Kept)
    ensures Image(k) == Encode([k.text] + if k.exact then [] else [[]])
  {
    hide Terminated, Encode;
    EncodeOne(k.text);
    if k.exact {
      assert [k.text] + [] == [k.text];
    } else {
      EncodeOne([]);
      EncodeAppend([k.text], [[]]);
    }
  }

  lemma {:induction false} ShortSpread(ks: seq<Kept>)
    requires Short(TextsOf(ks))
    ensures Short(Spread(ks))
    decreases |ks|
  {
    if ks != [] {
      assert TextsOf(ks)[0] == ks[0].text;
      forall i | 0 <= i < |ks| - 1 ensures |TextsOf(ks[1..])[i]| < MAX_STRING_LEN {
        assert TextsOf(ks)[i + 1] == TextsOf(ks[1..])[i];
      }
      ShortSpread(ks[1..]);
    }
  }

  /** Any list on the wire: the reader gets the first strings that stand there, and the
      bytes it consumes are those written if and only if every length is right. */
  lemma {:induction false} ParseWire(ks: seq<Kept>, rest: Bytes)
    requires Short(TextsOf(ks))
    ensures Readable(Wire(ks) + rest, |ks|)
    ensures Parse(Wire(ks) + rest, |ks|) == Parsed(true, Arriving(ks), |Encode(Arriving(ks))|)
    ensures |Encode(Arriving(ks))| <= |Wire(ks)|
    ensures |Encode(Arriving(ks))| == |Wire(ks)| <==> AllExact(ks)
  {
    hide Parse, Readable, Encode, Spread, Wire;
    SpreadSize(ks);
    var ts, left := Arriving(ks), Spread(ks)[|ks|..];
    assert ts + left == Spread(ks);
    WireIsEncode(ks);
    EncodeAppend(ts, left);
    ShortSpread(ks);
    assert Encode(ts) + Encode(left) + rest == Encode(ts) + (Encode(left) + rest);
    ParseEncode(ts, Encode(left) + rest);
    EncodeNonEmpty(left);
  }

  lemma {:induction false} EncodeNonEmpty(ts: seq<Text>)
    ensures Encode(ts) == [] <==> ts == []
  {}

  lemma {:induction false} EmptyAhead(ks: seq<Kept>, j: nat)
    requires j < |ks| <= |Spread(ks)| && forall i :: 0 <= i <= j ==> ks[i].text == []
    ensures Spread(ks)[j] == []
    decreases |ks|
  {
    if j > 0 {
      SpreadSize(ks[1..]);
      var step := if ks[0].exact then 1 else 2;
      if j >= step { EmptyAhead(ks[1..], j - step); }
    }
  }

  predicate AllEmpty(ks: seq<Kept>) {
    forall j :: 0 <= j < |ks| ==> ks[j].text == []
  }

  /** Behind a string whose length is too large the rest arrives one place late, which
      goes unnoticed only when it is empty. */
  lemma {:induction false} LateIff(ks: seq<Kept>)
    requires |ks| <= |Spread(ks)|
    ensures ([[]] + Spread(ks))[..|ks|] == TextsOf(ks) <==> AllEmpty(ks)
  {
    var X: seq<Text> := [[]] + Spread(ks);
    if X[..|ks|] == TextsOf(ks) {
      var j := 0;
      while j < |ks|
        invariant 0 <= j <= |ks| && forall i :: 0 <= i < j ==> ks[i].text == []
      {
        assert TextsOf(ks)[j] == X[..|ks|][j] == X[j];
        if j > 0 { EmptyAhead(ks, j - 1); }
        j := j + 1;
      }
    }
    if AllEmpty(ks) {
      forall j | 0 <= j < |ks| ensures X[..|ks|][j] == TextsOf(ks)[j] {
        if j > 0 { EmptyAhead(ks, j - 1); }
      }
    }
  }

  /** The reader gets the texts of the list if and only if behind the first string whose
      length is too large there are only empty ones. */
  lemma {:induction false} ArrivingIff(ks: seq<Kept>)
    ensures Arriving(ks) == TextsOf(ks) <==> ComesBack(ks)
    decreases |ks|
  {
    if ks != [] {
      hide Arriving, ComesBack;
      if ks[0].exact {
        ArrivingIff(ks[1..]);
        ComesBackTail(ks);
        ArrivingTail(ks);
      } else {
        LateFirst(ks);
        ComesBackFirst(ks);
      }
    }
  }

  lemma {:induction false} ArrivingTail(ks: seq<Kept>)
    requires ks != [] && ks[0].exact
    ensures Arriving(ks) == TextsOf(ks) <==> Arriving(ks[1..]) == TextsOf(ks[1..])
  {
    var t, tail := ks[0].text, ks[1..];
    SpreadSize(ks);
    SpreadSize(tail);
    SpreadExact(ks);
    hide Spread;
    TakeBehind(t, Spread(tail), |tail|);
    assert TextsOf(ks) == [t] + TextsOf(tail);
    SameTail(t, Arriving(tail), TextsOf(tail));
  }

  lemma {:induction false} SpreadExact(ks: seq<Kept>)
    requires ks != [] && ks[0].exact
    ensures Spread(ks) == [ks[0].text] + Spread(ks[1..])
  {}

  lemma {:induction false} LateFirst(ks: seq<Kept>)
    requires ks != [] && !ks[0].exact
    ensures Arriving(ks) == TextsOf(ks) <==> AllEmpty(ks[1..])
  {
    var t, tail := ks[0].text, ks[1..];
    SpreadSize(ks);
    SpreadSize(tail);
    LateIff(tail);
    SpreadLate(ks);
    hide Spread, AllEmpty;
    var X: seq<Text> := [[]] + Spread(tail);
    TakeBehind(t, X, |tail|);
    assert TextsOf(ks) == [t] + TextsOf(tail);
    SameTail(t, X[..|tail|], TextsOf(tail));
  }

  lemma {:induction false} SpreadLate(ks: seq<Kept>)
    requires ks != [] && !ks[0].exact
    ensures Spread(ks) == [ks[0].text] + ([[]] + Spread(ks[1..]))
  {}

  lemma {:induction false} TakeBehind(t: Text, x: seq<Text>, n: nat)
    requires n <= |x|
    ensures ([t] + x)[..n + 1] == [t] + x[..n]
  {}

  lemma {:induction false} SameTail(t: Text, a: seq<Text>, b: seq<Text>)
    ensures [t] + a == [t] + b <==> a == b
  {
    assert ([t] + a)[1..] == a && ([t] + b)[1..] == b;
  }

  lemma {:induction false} ComesBackTail(ks: seq<Kept>)
    requires ks != [] && ks[0].exact
    ensures ComesBack(ks) <==> ComesBack(ks[1..])
  {
    if ComesBack(ks[1..]) {
      forall i, j | 0 <= i < j < |ks| && !ks[i].exact ensures ks[j].text == [] {
        assert ks[1..][i - 1] == ks[i] && ks[1..][j - 1] == ks[j];
      }
    }
    if ComesBack(ks) {
      forall i, j | 0 <= i < j < |ks| - 1 && !ks[1..][i].exact ensures ks[1..][j].text == [] {
        assert ks[1..][i] == ks[i + 1] && ks[1..][j] == ks[j + 1];
      }
    }
  }

  lemma {:induction false} ComesBackFirst(ks: seq<Kept>)
    requires ks != [] && !ks[0].exact
    ensures ComesBack(ks) <==> AllEmpty(ks[1..])
  {
    if ComesBack(ks) {
      forall j | 0 <= j < |ks| - 1 ensures ks[1..][j].text == [] { assert ks[1..][j] == ks[j + 1]; }
    }
    if AllEmpty(ks[1..]) {
      forall i, j | 0 <= i < j < |ks| && !ks[i].exact ensures ks[j].text == [] { assert ks[1..][j - 1] == ks[j]; }
    }
  }

  lemma {:induction false} ExactArrives(ks: seq<Kept>)
    requires AllExact(ks)
    ensures Arriving(ks) == TextsOf(ks) && Wire(ks) == Encode(TextsOf(ks))
  {
    hide Spread, Wire, Encode;
    SpreadSize(ks);
    ArrivingIff(ks);
    WireIsEncode(ks);
    assert Spread(ks)[..|ks|] == Spread(ks);
  }

  /** A list of two, the first with a length one too large: the second never arrives, and
      a byte more than it has stays behind. */
  lemma {:induction false} InexactSplits(t: Text, u: Text, rest: Bytes)
    requires |t| < MAX_STRING_LEN && |u| < MAX_STRING_LEN
    ensures var ks := [Kept(t, false), Kept(u, true)];
            Readable(Wire(ks) + rest, 2) && Parse(Wire(ks) + rest, 2) == Parsed(true, [t, []], |t| + 2)
  {
    var ks := [Kept(t, false), Kept(u, true)];
    assert ks[1..] == [Kept(u, true)] && ks[1..][1..] == [];
    assert TextsOf(ks) == [t, u];
    assert Spread(ks) == [t, [], u] by { assert Spread([]) == []; }
    assert Arriving(ks) == [t, []];
    hide Parse, Readable, Encode, Spread, Terminated;
    ParseWire(ks, rest);
    EncodeOne(t);
    EncodeOne([]);
    EncodeAppend([t], [[]]);
    assert [t] + [[]] == [t, []];
  }

  lemma {:induction false} WireSnoc(ks: seq<Kept>, k: Kept)
    ensures Wire(ks + [k]) == Wire(ks) + Image(k)
  {
    hide Image;
    if ks == [] {
      assert [k][1..] == [];
      assert Wire([k]) == Image(k) + Wire([]);
    } else {
      assert (ks + [k])[1..] == ks[1..] + [k];
      WireSnoc(ks[1..], k);
    }
  }

  lemma {:induction false} WireGrows(ks: seq<Kept>, k: nat)
    requires k <= |ks|
    ensures |Wire(ks[..k])| <= |Wire(ks)|
    decreases |ks| - k
  {
    if k < |ks| {
      assert ks[..k + 1] == ks[..k] + [ks[k]];
      WireSnoc(ks[..k], ks[k]);
      WireGrows(ks, k + 1);
    } else {
      assert ks[..k] == ks;
    }
  }

  lemma {:induction false} WireUpTo(ks: seq<Kept>, i: nat)
    requires i < |ks|
    ensures Wire(ks[..i + 1]) == Wire(ks[..i]) + Image(ks[i])
  {
    assert ks[..i + 1] == ks[..i] + [ks[i]];
    WireSnoc(ks[..i], ks[i]);
  }

  /** The reading loop half way: done holds the strings already taken, left the bytes
      still to read and count the number of strings still expected in them. */
  ghost predicate HalfWay(all: Parsed, done: seq<Text>, used: nat, left: Bytes, count: nat) {
    Readable(left, count) && all == Behind(done, used, Parse(left, count))
  }

  lemma {:induction false} HalfWayStarts(all: Parsed, left: Bytes, count: nat)
    requires Readable(left, count) && all == Parse(left, count)
    ensures HalfWay(all, [], 0, left, count) && Reverse<Text>([]) == []
  {
    hide Parse, Readable;
    assert [] + all.texts == all.texts;
  }

  lemma {:induction false} HalfWayNext(all: Parsed, done: seq<Text>, used: nat, left: Bytes, count: nat)
    requires HalfWay(all, done, used, left, count) && count > 0 && left != []
    ensures StrLen(left).Some? && StrLen(left).value < MAX_STRING_LEN
    ensures var t := FirstText(left);
            HalfWay(all, done + [t], used + |t| + 1, left[|t| + 1..], count - 1)
            && Reverse(done + [t]) == [t] + Reverse(done)
  {
    hide StrLen, Reverse;
    var t := FirstText(left);
    Regroup(done, t, Parse(left[|t| + 1..], count - 1).texts);
    ReverseSnoc(done, t);
  }

  /** The outcome of the reading loop. */
  ghost predicate Received(all: Parsed, ok: bool, used: int, texts: seq<Text>) {
    (ok <==> all.whole) && used == all.used && (ok ==> texts == Reverse(all.texts))
  }

  lemma {:induction false} HalfWayEnds(all: Parsed, done: seq<Text>, used: nat, left: Bytes, count: nat)
    requires HalfWay(all, done, used, left, count) && (count == 0 || left == [])
    ensures all == Parsed(count == 0, done, used)
  {
    assert done + [] == done;
  }

  // ----- writing into a buffer

  /** The bytes b with w written over them from position at. */
  function Splice(b: Bytes, at: nat, w: Bytes): (r: Bytes)
    requires at + |w| <= |b|
    ensures |r| == |b|
  {
    b[..at] + w + b[at + |w|..]
  }

  /** w stands at its place and all around it is as before. */
  lemma {:induction false} SpliceParts(b: Bytes, at: nat, w: Bytes)
    requires at + |w| <= |b|
    ensures var r := Splice(b, at, w);
            r[at..at + |w|] == w && r[..at] == b[..at] && r[at + |w|..] == b[at + |w|..]
  {}

  lemma {:induction false} SpliceTwice(b: Bytes, at: nat, w: Bytes, v: Bytes)
    requires at + |w| + |v| <= |b|
    ensures Splice(Splice(b, at, w), at + |w|, v) == Splice(b, at, w + v)
  {}

  method MemCpy(dst: array<byte>, at: nat, src: array<byte>, n: nat)
    requires at + n <= dst.Length && n <= src.Length && dst != src
    modifies dst
    ensures dst[..] == Splice(old(dst[..]), at, src[..n])
  {
    for i := 0 to n
      invariant forall k :: 0 <= k < dst.Length && !(at <= k < at + i) ==> dst[k] == old(dst[k])
      invariant forall k :: 0 <= k < i ==> dst[at + k] == src[k]
    {
      dst[at + i] := src[i];
    }
  }

  lemma {:induction false} SpliceByte(b: Bytes, at: nat, w: Bytes)
    requires at + |w| < |b|
    ensures Splice(b, at, w)[at + |w| := 0] == Splice(b, at, w + [0])
  {}

  lemma {:induction false} SentNothing(ks: seq<Kept>, b: Bytes, at: nat)
    requires at <= |b|
    ensures Wire(ks[..0]) == [] && b == Splice(b, at, Wire(ks[..0]))
  {}

  lemma {:induction false} PacketOfNone(b: Bytes, at: nat)
    requires at < |b|
    ensures b[at := 0] == Splice(b, at, Packet([])) && Wire([]) == []
  {}

  lemma {:induction false} PacketBehindCount(ks: seq<Kept>, b: Bytes, at: nat)
    requires |ks| <= 127 && at + 1 + |Wire(ks)| <= |b|
    ensures Splice(b[at := |ks|], at + 1, Wire(ks)) == Splice(b, at, Packet(ks))
  {}

  /** From position at there stands the longest run of whole strings from the front that
      has room, and nothing else has changed. */
  ghost predicate SentUpTo(ks: seq<Kept>, k: nat, room: nat, before: Bytes, at: nat, after: Bytes, next: nat) {
    && k <= |ks| && at + room <= |before|
    && |Wire(ks[..k])| <= room
    && (k < |ks| ==> room < |Wire(ks[..k + 1])|)
    && after == Splice(before, at, Wire(ks[..k]))
    && next == at + |Wire(ks[..k])|
  }

  /** Everything went out behind the count byte, or the packet was too small. */
  lemma {:induction false} SentBehindCount(ks: seq<Kept>, k: nat, room: nat, b: Bytes, at: nat, after: Bytes, next: nat)
    requires |ks| <= 127 && 0 < room && at + room <= |b|
    requires SentUpTo(ks, k, room - 1, b[at := |ks|], at + 1, after, next)
    ensures k == |ks| <==> 1 + |Wire(ks)| <= room
    ensures k == |ks| ==> after == Splice(b, at, Packet(ks)) && next == at + 1 + |Wire(ks)|
  {
    hide Wire, Splice, Packet;
    if k == |ks| {
      assert ks[..k] == ks;
      PacketBehindCount(ks, b, at);
    } else {
      WireGrows(ks, k + 1);
    }
  }

  // ----- one string

  class StrO {
    var len: nat
    const str: array<byte>
    ghost var text: Text

    /** The bytes up to the first zero are the text. The stored length is that of the text
        or one too large, and a zero byte stands at it. */
    ghost predicate Valid()
      reads this, str
    {
      && str.Length == MAX_STRING_LEN
      && |text| <= len <= |text| + 1 && len < MAX_STRING_LEN
      && str[..|text|] == text && str[|text|] == 0 && str[len] == 0
    }

    ghost predicate Exact()
      reads this
    {
      len == |text|
    }

    /** What the string looks like on the wire. */
    ghost function Stored(): (b: Bytes)
      requires Valid()
      reads this, str
      ensures |b| == len + 1 && b == Image(Kept(text, Exact()))
    {
      str[..len + 1]
    }

    /** A new string is empty. */
    constructor ()
      ensures Valid() && Exact() && fresh(str) && text == []
    {
      len, text := 0, [];
      str := new byte[MAX_STRING_LEN](_ => 0);
    }

    /** Replaces the text; the empty one is reported as stored but is not, and one of 128
        bytes or more is refused. The stored length comes out right exactly when the old
        one was not that of the new text plus one. */
    method Set(src: Text) returns (r: nat)
      requires Valid()
      modifies this, str
      ensures Valid()
      ensures r == if src == [] then 1 else if |src| < MAX_STRING_LEN then |src| + 1 else 0
      ensures src == [] || |src| >= MAX_STRING_LEN ==> text == old(text) && len == old(len)
      ensures src != [] && |src| < MAX_STRING_LEN ==> text == src && (Exact() <==> old(len) != |src| + 1)
    {
      if src == [] { return 1; }
      var srcLen := |src| + 1;
      if srcLen > MAX_STRING_LEN { return 0; }
      if len != srcLen { len := srcLen - 1; }
      ghost var length := len;
      for i := 0 to |src|
        invariant len == length && str[..i] == src[..i]
        invariant forall k :: |src| < k < MAX_STRING_LEN ==> str[k] == old(str[k])
      {
        str[i] := src[i];
      }
      str[|src|] := 0;
      text := src;
      assert src[..|src|] == src;
      return srcLen;
    }

    /** Copies at most maxLen - 1 bytes and a zero byte. */
    method Get(dst: array<byte>, at: nat, maxLen: nat) returns (r: int)
      requires Valid() && dst != str && 0 < maxLen && at + maxLen <= dst.Length
      modifies dst
      ensures len == 0 ==> r == -1 && dst[..] == old(dst[..])
      ensures len != 0 ==>
        var n := if len < maxLen then len else maxLen - 1;
        r == n + 1 && dst[..] == Splice(old(dst[..]), at, Stored()[..n] + [0])
    {
      hide Image, Terminated;
      if len == 0 { return -1; }
      var dstLen := len;
      if dstLen + 1 > maxLen { dstLen := maxLen - 1; }
      MemCpy(dst, at, str, dstLen);
      assert str[..dstLen] == Stored()[..dstLen];
      SpliceByte(old(dst[..]), at, Stored()[..dstLen]);
      hide Splice, Stored, Image;
      dst[at + dstLen] := 0;
      return dstLen + 1;
    }

    /** Written whole or not at all. */
    method ToPkt(p: array<byte>, start: nat, end: nat) returns (ok: bool, next: nat)
      requires Valid() && p != str && start <= end <= p.Length
      modifies p
      ensures Valid()
      ensures ok <==> len + 1 <= end - start
      ensures !ok ==> next == start && p[..] == old(p[..])
      ensures ok ==> next == start + len + 1 && p[..] == Splice(old(p[..]), start, Stored())
    {
      if end - start < len + 1 { return false, start; }
      if len == 0 {
        p[start] := 0;
        assert Stored() == [0];
        SpliceByte(old(p[..]), start, []);
        assert [] + [0] == Stored();
        return true, start + 1;
      }
      var n := Get(p, start, end - start);
      assert Stored()[..len] + [0] == Stored();
      return true, start + n;
    }

    /** The string at the front of a packet; none when the packet is empty. */
    static method NewFromPkt(p: array<byte>, start: nat, end: nat) returns (s: StrO?, next: nat)
      requires start <= end <= p.Length
      requires start < end ==> StrLen(p[start..end]).Some? && StrLen(p[start..end]).value < MAX_STRING_LEN
      ensures s == null <==> start == end
      ensures s == null ==> next == start
      ensures s != null ==> s.Valid() && s.Exact() && fresh(s) && fresh(s.str) && s.text == FirstText(p[start..end])
      ensures s != null ==> next == start + |s.text| + 1
    {
      if end == start { return null, start; }
      var t := FirstText(p[start..end]);
      s := new StrO();
      var r := s.Set(t);
      return s, start + s.len + 1;
    }
  }

  // ----- lists of strings

  ghost function Texts(ms: seq<StrO>): (ts: seq<Text>)
    reads ms
    ensures |ts| == |ms| && forall i :: 0 <= i < |ms| ==> ts[i] == ms[i].text
  {
    seq(|ms|, i requires 0 <= i < |ms| reads ms => ms[i].text)
  }

  ghost function Kepts(ms: seq<StrO>): (ks: seq<Kept>)
    reads ms
    ensures |ks| == |ms| && forall i :: 0 <= i < |ms| ==> ks[i] == Kept(ms[i].text, ms[i].Exact())
  {
    seq(|ms|, i requires 0 <= i < |ms| reads ms => Kept(ms[i].text, ms[i].Exact()))
  }

  lemma {:induction false} TextsCons(m: StrO, ms: seq<StrO>)
    ensures Texts([m] + ms) == [m.text] + Texts(ms)
  {}

  /** Every string is in order and keeps its bytes outside the packet. */
  ghost predicate Ready(ms: seq<StrO>, p: array<byte>)
    reads ms, set m | m in ms :: m.str
  {
    forall m :: m in ms ==> m.Valid() && m.str != p
  }

  /** Moreover every string has its right length. */
  ghost predicate Sound(ms: seq<StrO>, p: array<byte>)
    reads ms, set m | m in ms :: m.str
  {
    forall m :: m in ms ==> m.Valid() && m.Exact() && m.str != p
  }

  /** Writes the strings one after another, up to the first without room. */
  method SendEach(list: SetObj<StrO>, p: array<byte>, start: nat, end: nat)
      returns (ok: bool, next: nat, ghost sent: nat)
    requires list.Valid() && Ready(list.members, p) && start <= end <= p.Length
    modifies p
    ensures Ready(list.members, p)
    ensures SentUpTo(Kepts(list.members), sent, end - start, old(p[..]), start, p[..], next)
    ensures ok <==> sent == |list.members|
  {
    hide Wire, Splice, Image, Kepts;
    ghost var ks := Kepts(list.members);
    sent, next := 0, start;
    SentNothing(ks, p[..], start);
    var i := 0;
    while i < list.length
      invariant i == sent <= list.length && list.Valid() && Ready(list.members, p)
      invariant next == start + |Wire(ks[..i])| <= end
      invariant p[..] == Splice(old(p[..]), start, Wire(ks[..i]))
    {
      WireUpTo(ks, i);
      ok, next := list.members[i].ToPkt(p, next, end);
      if !ok { return; }
      SpliceTwice(old(p[..]), start, Wire(ks[..i]), Image(ks[i]));
      i, sent := i + 1, sent + 1;
    }
    ok := true;
  }

  /** Writes the number of strings and then each of them, up to the first without room. */
  method ToPkt(list: SetObj<StrO>, p: array<byte>, start: nat, end: nat)
      returns (ok: bool, next: nat, ghost sent: nat)
    requires list.Valid() && Ready(list.members, p) && start <= end <= p.Length
    modifies p
    ensures Ready(list.members, p)
    ensures ok <==> |list.members| <= 127 && 1 + |Wire(Kepts(list.members))| <= end - start
    ensures ok ==> p[..] == Splice(old(p[..]), start, Packet(Kepts(list.members)))
                   && next == start + 1 + |Wire(Kepts(list.members))|
    ensures start == end || |list.members| > 127 ==> next == start && p[..] == old(p[..])
    ensures !ok && start < end && |list.members| <= 127 ==>
      var counted := old(p[..])[start := |list.members|];
      sent < |list.members|
      && SentUpTo(Kepts(list.members), sent, end - start - 1, counted, start + 1, p[..], next)
  {
    sent := 0;
    if end == start { return false, start, 0; }
    if list.length > 127 { return false, start, 0; }
    hide Wire, Splice, Image;
    ghost var ks := Kepts(list.members);
    p[start] := list.length;
    next := start + 1;
    if list.length == 0 {
      PacketOfNone(old(p[..]), start);
      assert ks == [];
      return true, next, 0;
    }
    hide SentUpTo, Packet;
    ok, next, sent := SendEach(list, p, next, end);
    SentBehindCount(ks, sent, end - start, old(p[..]), start, p[..], next);
  }

  /** The count byte is a signed character: above 127 it stands for a negative number. */
  function Count(c: byte): nat {
    if c < 128 then c else 0
  }

  /** Takes the next string from the packet into the list. */
  method TakeOne(list: SetObj<StrO>, p: array<byte>, start: nat, end: nat) returns (ok: bool, next: nat)
    requires list.Valid() && Sound(list.members, p) && start <= end <= p.Length
    requires start < end ==> StrLen(p[start..end]).Some? && StrLen(p[start..end]).value < MAX_STRING_LEN
    modifies list
    ensures list.Valid() && Sound(list.members, p)
    ensures ok <==> start < end
    ensures !ok ==> next == start
    ensures ok ==>
      var t := FirstText(p[start..end]);
      start + |t| + 1 == next <= end && p[next..end] == p[start..end][|t| + 1..]
      && Texts(list.members) == [t] + old(Texts(list.members))
  {
    hide StrLen, FirstText, Texts;
    ghost var before, ts := list.members, Texts(list.members);
    var elem;
    elem, next := StrO.NewFromPkt(p, start, end);
    if elem == null { return false, next; }
    assert Sound(before, p) && Texts(before) == ts;
    list.Put(elem);
    assert Sound(before, p) && Texts(before) == ts && elem.Valid();
    TextsCons(elem, before);
    return true, next;
  }

  /** One turn of the reading loop. */
  method TakeNext(list: SetObj<StrO>, p: array<byte>, start: nat, end: nat,
                  ghost all: Parsed, ghost done: seq<Text>, ghost used: nat, ghost count: nat)
      returns (ok: bool, next: nat, ghost more: seq<Text>)
    requires list.Valid() && Sound(list.members, p) && start <= end <= p.Length && count > 0
    requires Texts(list.members) == Reverse(done) && HalfWay(all, done, used, p[start..end], count)
    modifies list
    ensures list.Valid() && Sound(list.members, p)
    ensures !ok ==> next == start && more == done && all == Parsed(false, done, used)
    ensures ok ==> start < next <= end && Texts(list.members) == Reverse(more)
                   && HalfWay(all, more, used + (next - start), p[next..end], count - 1)
  {
    hide Parse, Readable, Reverse, HalfWay, FirstText, StrLen, Texts, Sound, Behind;
    ghost var left := p[start..end];
    more := done;
    if left == [] {
      HalfWayEnds(all, done, used, left, count);
    } else {
      HalfWayNext(all, done, used, left, count);
      more := done + [FirstText(left)];
    }
    ok, next := TakeOne(list, p, start, end);
  }

  /** The reading loop: every string is put in front of those before it. */
  method TakeEach(list: SetObj<StrO>, p: array<byte>, start: nat, end: nat, len: nat) returns (ok: bool, next: nat)
    requires list.Valid() && list.members == [] && start <= end <= p.Length
    requires Readable(p[start..end], len)
    modifies list
    ensures list.Valid() && Sound(list.members, p)
    ensures Received(Parse(p[start..end], len), ok, next - start, Texts(list.members))
  {
    hide *;
    next := start;
    ghost var done: seq<Text> := [];
    ghost var all := Parse(p[start..end], len);
    HalfWayStarts(all, p[start..end], len);
    SoundEmpty(list.members, p);
    var i := 0;
    while i < len
      invariant 0 <= i <= len && start <= next <= end && list.Valid()
      invariant Sound(list.members, p) && Texts(list.members) == Reverse(done)
      invariant HalfWay(all, done, next - start, p[next..end], len - i)
    {
      ok, next, done := TakeNext(list, p, next, end, all, done, next - start, len - i);
      if !ok {
        ReceivedAs(all, false, next - start, done, Texts(list.members));
        return;
      }
      i := i + 1;
    }
    HalfWayEnds(all, done, next - start, p[next..end], 0);
    ReceivedAs(all, true, next - start, done, Texts(list.members));
    ok := true;
  }

  lemma {:induction false} SoundEmpty(ms: seq<StrO>, p: array<byte>)
    requires ms == []
    ensures Sound(ms, p) && Texts(ms) == []
  {}

  lemma {:induction false} ReceivedAs(all: Parsed, ok: bool, used: nat, done: seq<Text>, texts: seq<Text>)
    requires all == Parsed(ok, done, used) && (ok ==> texts == Reverse(done))
    ensures Received(all, ok, used, texts)
  {}

  /** A new list of the strings in the packet, in reversed order; none when the packet is
      empty or ends too early. */
  method NewFromPkt(p: array<byte>, start: nat, end: nat) returns (list: SetObj?<StrO>, next: nat)
    requires start <= end <= p.Length
    requires start < end ==> Readable(p[start + 1..end], Count(p[start]))
    ensures start == end ==> list == null && next == start
    ensures start < end ==>
      var parsed := Parse(p[start + 1..end], Count(p[start]));
      && next == start + 1 + parsed.used
      && (list != null <==> parsed.whole)
      && (list != null ==> list.Valid() && fresh(list) && Sound(list.members, p)
                           && Texts(list.members) == Reverse(parsed.texts))
    ensures start < end && p[start] >= 128 ==> next == start + 1 && list != null && list.members == []
  {
    hide Parse, Readable, Texts, Reverse, Sound;
    if end == start { return null, start; }
    ParseNone(p[start + 1..end]);
    list := new SetObj<StrO>();
    var len := Count(p[start]);
    var ok;
    ok, next := TakeEach(list, p, start + 1, end, len);
    if !ok { list := null; }
  }

  lemma {:induction false} ParseNone(b: Bytes)
    ensures Parse(b, 0) == Parsed(true, [], 0) && Reverse<Text>([]) == []
  {}

  lemma {:induction false} ShortTexts(ms: seq<StrO>, p: array<byte>)
    requires Ready(ms, p)
    ensures Short(TextsOf(Kepts(ms))) && TextsOf(Kepts(ms)) == Texts(ms)
  {
    var ts := TextsOf(Kepts(ms));
    forall i | 0 <= i < |ms| ensures |ts[i]| < MAX_STRING_LEN && ts[i] == Texts(ms)[i] { assert ms[i].Valid(); }
  }

  /** Reading a packet back, whatever follows it in the buffer. */
  lemma {:induction false} PacketParses(ks: seq<Kept>, b: Bytes, start: nat, end: nat)
    requires Short(TextsOf(ks)) && |ks| <= 127 && start + |Packet(ks)| <= end <= |b|
    ensures var sent, ts := Splice(b, start, Packet(ks)), Arriving(ks);
            && Count(sent[start]) == |ks|
            && Readable(sent[start + 1..end], |ks|)
            && Parse(sent[start + 1..end], |ks|) == Parsed(true, ts, |Encode(ts)|)
            && |Encode(ts)| <= |Wire(ks)| && (|Encode(ts)| == |Wire(ks)| <==> AllExact(ks))
  {
    hide Parse, Readable, Encode, Short, Wire, Arriving, AllExact;
    var rest := b[start + |Packet(ks)|..end];
    assert Splice(b, start, Packet(ks))[start + 1..end] == Wire(ks) + rest;
    ParseWire(ks, rest);
  }

  lemma {:induction false} EncodeReverse(ts: seq<Text>)
    ensures |Encode(Reverse(ts))| == |Encode(ts)|
  {
    if ts == [] {
    } else {
      EncodeAppend(Reverse(ts[1..]), [ts[0]]);
      EncodeOne(ts[0]);
      EncodeReverse(ts[1..]);
    }
  }

  /** What becomes of a list that goes through a packet: the bytes written are consumed if
      and only if every string has its right length, and the texts come back, reversed, if
      and only if only empty ones stand behind a string that has not. */
  ghost predicate Relayed(ks: seq<Kept>, used: int, texts: seq<Text>)
    requires |ks| <= 127
  {
    && texts == Reverse(Arriving(ks))
    && used == 1 + |Encode(Arriving(ks))|
    && (used == |Packet(ks)| <==> AllExact(ks))
    && (texts == Reverse(TextsOf(ks)) <==> ComesBack(ks))
  }

  lemma {:induction false} RelayedAs(ks: seq<Kept>)
    requires |ks| <= 127 && Short(TextsOf(ks))
    ensures Relayed(ks, 1 + |Encode(Arriving(ks))|, Reverse(Arriving(ks)))
  {
    hide Parse, Readable, Encode, Short, Reverse, Wire, Arriving, ComesBack, AllExact;
    ParseWire(ks, []);
    ArrivingIff(ks);
    ReverseTwice(Arriving(ks));
    ReverseTwice(TextsOf(ks));
  }

  /** With room for it, any list of at most 127 strings goes through a packet. */
  method Relay(list: SetObj<StrO>, p: array<byte>, start: nat, end: nat) returns (copy: SetObj<StrO>, next: nat)
    requires list.Valid() && Ready(list.members, p) && start <= end <= p.Length
    requires |list.members| <= 127 && 1 + |Wire(Kepts(list.members))| <= end - start
    modifies p
    ensures copy.Valid() && fresh(copy) && Sound(copy.members, p)
    ensures Relayed(Kepts(list.members), next - start, Texts(copy.members))
  {
    hide *;
    ghost var ks := Kepts(list.members);
    ShortTexts(list.members, p);
    RelayedAs(ks);
    PacketSize(ks);
    PacketParses(ks, p[..], start, end);
    var ok, sent;
    ghost var k;
    ok, sent, k := ToPkt(list, p, start, end);
    var received;
    received, next := NewFromPkt(p, start, end);
    copy := received;
  }

  lemma {:induction false} PacketSize(ks: seq<Kept>)
    requires |ks| <= 127
    ensures |Packet(ks)| == 1 + |Wire(ks)|
  {}

  lemma {:induction false} SoundIsExact(ms: seq<StrO>, p: array<byte>)
    requires Sound(ms, p)
    ensures Ready(ms, p) && AllExact(Kepts(ms)) && TextsOf(Kepts(ms)) == Texts(ms)
  {
    forall i | 0 <= i < |ms| ensures Kepts(ms)[i].exact { assert ms[i].Exact(); }
  }

  /** The copies of a first trip have their right lengths, need no more room, and are in
      their first order again after a second trip. */
  lemma {:induction false} SecondTrip(ks: seq<Kept>, again: seq<Kept>, used: int, texts: seq<Text>)
    requires |ks| <= 127 && Short(TextsOf(ks)) && Relayed(ks, used, texts)
    requires AllExact(again) && TextsOf(again) == texts
    ensures |again| == |ks| && |Wire(again)| <= |Wire(ks)|
    ensures Reverse(Arriving(again)) == Arriving(ks)
  {
    var ts := Arriving(ks);
    EncodeReverse(ts);
    ReverseTwice(ts);
    ArrivingFits(ks);
    ExactArrives(again);
    hide Encode, Wire, Arriving, ComesBack, AllExact;
  }

  lemma {:induction false} RelayedTexts(ks: seq<Kept>, used: int, texts: seq<Text>)
    requires |ks| <= 127 && Relayed(ks, used, texts)
    ensures texts == Reverse(Arriving(ks))
  {}

  /** The second trip of a list that has made one. */
  method TripBack(once: SetObj<StrO>, p: array<byte>, ghost ks: seq<Kept>, ghost used: int) returns (back: SetObj<StrO>)
    requires once.Valid() && Sound(once.members, p)
    requires |ks| <= 127 && Short(TextsOf(ks)) && Relayed(ks, used, Texts(once.members))
    requires 1 + |Wire(ks)| <= p.Length
    modifies p
    ensures back.Valid() && Texts(back.members) == Arriving(ks)
  {
    hide *;
    ghost var again := Kepts(once.members);
    SoundIsExact(once.members, p);
    SecondTrip(ks, again, used, Texts(once.members));
    var n;
    back, n := Relay(once, p, 0, p.Length);
    RelayedTexts(again, n, Texts(back.members));
  }

  /** Two trips restore the texts of a list under the same condition. */
  method TwoTrips(list: SetObj<StrO>, p: array<byte>) returns (back: SetObj<StrO>)
    requires list.Valid() && Ready(list.members, p)
    requires |list.members| <= 127 && 1 + |Wire(Kepts(list.members))| <= p.Length
    modifies p
    ensures back.Valid()
    ensures Texts(back.members) == Arriving(old(Kepts(list.members)))
    ensures Texts(back.members) == old(Texts(list.members)) <==> ComesBack(old(Kepts(list.members)))
  {
    hide *;
    ghost var ks := Kepts(list.members);
    ShortTexts(list.members, p);
    ArrivingIff(ks);
    var once, n := Relay(list, p, 0, p.Length);
    back := TripBack(once, p, ks, n);
  }

  lemma {:induction false} ArrivingFits(ks: seq<Kept>)
    requires Short(TextsOf(ks))
    ensures |Encode(Arriving(ks))| <= |Wire(ks)|
  {
    ParseWire(ks, []);
  }

  /** A string object that is set to a text of two bytes and then to one of a single byte
      keeps the length two. */
  method StaleLength(a: Letter, b: Letter) returns (s: StrO)
    ensures s.Valid() && s.text == [b] && !s.Exact()
  {
    s := new StrO();
    var r := s.Set([a, a]);
    r := s.Set([b]);
  }
}
