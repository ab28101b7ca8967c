/** The string serialiser of utils/src/strdata.c. */
module StrData {
  import opened SetList
  import opened Words
  import opened Wrappers

  const BAR: Letter := 124
  const SEP: Text := [BAR, BAR]

  // ----- the wire format

  /** What strdata_write puts on the wire: every string followed by the separator. */
  function Join(l: seq<Text>): Text {
    if l == [] then [] else l[0] + SEP + Join(l[1..])
  }

  lemma {:induction false} JoinNext(done: Bytes, l: seq<Text>, i: nat)
    requires i < |l|
    ensures done + Join(l[i..]) == (done + (l[i] + SEP)) + Join(l[i + 1..])
  {
    assert l[i..][1..] == l[i + 1..];
    assert Join(l[i..]) == l[i] + SEP + Join(l[i + 1..]);
  }

  lemma {:induction false} JoinNothing(l: seq<Text>)
    ensures [] + Join(l[0..]) == Join(l) && Join(l[|l|..]) == []
  {
    assert l[0..] == l;
  }

  /** Position of the first separator, as strstr finds it: it stops at a zero byte. */
  function FindSep(s: Bytes): (r: Option<nat>)
    ensures r.Some? ==> r.value + 2 <= |s| && s[r.value] == BAR && s[r.value + 1] == BAR
    ensures r.Some? ==> forall k :: 0 <= k < r.value ==> s[k] != 0
  {
    if |s| < 2 || s[0] == 0 then None
    else if s[0] == BAR && s[1] == BAR then Some(0)
    else
      var r := FindSep(s[1..]);
      if r.Some? then Some(r.value + 1) else None
  }

  lemma {:induction false} FindSepIsFirst(s: Bytes, i: nat)
    requires i + 1 < |s| && forall k :: 0 <= k < i ==> s[k] != 0
    requires FindSep(s).None? || i < FindSep(s).value
    ensures !(s[i] == BAR && s[i + 1] == BAR)
  {
    if i > 0 { FindSepIsFirst(s[1..], i - 1); }
  }

  lemma {:induction false} FindSepAt(s: Bytes, i: nat)
    requires i + 2 <= |s| && s[i] == BAR && s[i + 1] == BAR
    requires forall k :: 0 <= k < i ==> s[k] != 0
    requires forall k :: 0 <= k < i ==> !(s[k] == BAR && s[k + 1] == BAR)
    ensures FindSep(s) == Some(i)
  {
    if i > 0 {
      assert !(s[0] == BAR && s[1] == BAR);
      forall k | 0 <= k < i - 1 ensures !(s[1..][k] == BAR && s[1..][k + 1] == BAR) {
        assert !(s[k + 1] == BAR && s[k + 2] == BAR);
      }
      FindSepAt(s[1..], i - 1);
    }
  }

  /** What the reading loop of strdata_read cuts a buffer into. */
  function Split(s: Bytes): seq<Text>
    decreases |s|
  {
    var r := FindSep(s);
    if r.None? then [] else [Piece(s, r.value)] + Split(s[r.value + 2..])
  }

  function Piece(s: Bytes, n: nat): (t: Text)
    requires n <= |s| && forall k :: 0 <= k < n ==> s[k] != 0
    ensures t == s[..n]
  {
    s[..n]
  }

  /** No separator inside, and no bar at the end that would pair with one. */
  predicate Clean(s: Text) {
    (forall k :: 0 <= k < |s| - 1 ==> !(s[k] == BAR && s[k + 1] == BAR))
    && (s != [] ==> s[|s| - 1] != BAR)
  }

  /** A string comes back as the first piece exactly when it is clean. */
  lemma {:induction false} FirstPieceIff(s: Text, rest: Bytes)
    ensures FindSep(s + SEP + rest) == Some(|s|) <==> Clean(s)
  {
    var t := s + SEP + rest;
    assert t[|s|] == BAR && t[|s| + 1] == BAR;
    if FindSep(t) == Some(|s|) {
      forall k | 0 <= k < |s| ensures !(t[k] == BAR && t[k + 1] == BAR) { FindSepIsFirst(t, k); }
      forall k | 0 <= k < |s| - 1 ensures !(s[k] == BAR && s[k + 1] == BAR) {
        assert t[k] == s[k] && t[k + 1] == s[k + 1];
      }
      if s != [] { assert t[|s| - 1] == s[|s| - 1]; }
    }
    if Clean(s) {
      forall k | 0 <= k < |s| ensures !(t[k] == BAR && t[k + 1] == BAR) {
        assert t[k] == s[k];
        if k < |s| - 1 { assert t[k + 1] == s[k + 1]; }
      }
      FindSepAt(t, |s|);
    }
  }

  lemma {:induction false} SplitNothing(s: Bytes)
    requires s == []
    ensures Split(s) == [] && Reverse<Text>([]) == []
  {
    assert FindSep(s).None?;
  }

  lemma {:induction false} SplitEnds(done: seq<Text>, left: Bytes)
    requires FindSep(left).None?
    ensures done + Split(left) == done
  {}

  /** One turn of the reading loop. */
  lemma {:induction false} SplitNext(done: seq<Text>, left: Bytes)
    requires FindSep(left).Some?
    ensures var n := FindSep(left).value;
            var str := Piece(left, n);
            done + Split(left) == (done + [str]) + Split(left[n + 2..])
            && Reverse(done + [str]) == [str] + Reverse(done)
  {
    hide FindSep, Reverse;
    var n := FindSep(left).value;
    ReverseSnoc(done, Piece(left, n));
    assert Split(left) == [Piece(left, n)] + Split(left[n + 2..]);
    Regroup(done, Piece(left, n), Split(left[n + 2..]));
  }

  predicate AllClean(l: seq<Text>) {
    forall i :: 0 <= i < |l| ==> Clean(l[i])
  }

  /** Splitting undoes joining if and only if every string is clean. */
  lemma {:induction false} SplitJoinIff(l: seq<Text>)
    ensures Split(Join(l)) == l <==> AllClean(l)
  {
    if l != [] {
      var s, rest := l[0], Join(l[1..]);
      FirstPieceIff(s, rest);
      SplitJoinIff(l[1..]);
      SplitStep(s, rest);
      var p := Split(s + SEP + rest);
      if p == l { assert p[0] == s; }
      if Clean(s) {
        assert p == [s] + Split(rest);
        assert p == l <==> Split(rest) == l[1..];
        assert AllClean(l) <==> AllClean(l[1..]) by {
          if AllClean(l[1..]) {
            forall i | 0 <= i < |l| ensures Clean(l[i]) { if i > 0 { assert l[i] == l[1..][i - 1]; } }
          }
        }
      }
    }
  }

  lemma {:induction false} CleanBothWays(l: seq<Text>)
    ensures AllClean(Reverse(l)) <==> AllClean(l)
  {
    forall i | 0 <= i < |l| ensures Reverse(l)[i] == l[|l| - 1 - i] { ReverseAt(l, i); }
    if AllClean(Reverse(l)) {
      forall i | 0 <= i < |l| ensures Clean(l[i]) { assert l[i] == Reverse(l)[|l| - 1 - i]; }
    }
  }

  lemma {:induction false} SplitStep(s: Text, rest: Bytes)
    ensures var p := Split(s + SEP + rest);
            && p != []
            && (p[0] == s <==> FindSep(s + SEP + rest) == Some(|s|))
            && (p[0] == s ==> p == [s] + Split(rest))
  {
    var t := s + SEP + rest;
    var r := FindSep(t);
    if r.None? {
      FindSepIsFirst(t, |s|);
      assert false;
    }
    assert t[..|s|] == s && t[|s| + 2..] == rest;
    if r.value == |s| {
      assert Split(t) == [s] + Split(rest);
    } else {
      assert |t[..r.value]| != |s|;
    }
  }

  /** What is read from any buffer: clean strings, each with a separator behind it, up to a
      tail without any, which is dropped. */
  lemma {:induction false} SplitParts(s: Bytes) returns (tail: Bytes)
    ensures s == Join(Split(s)) + tail && AllClean(Split(s)) && FindSep(tail).None?
    decreases |s|
  {
    hide Join, Split, FindSep, Clean;
    assert [] + Split(s) == Split(s);
    if FindSep(s).None? {
      tail := s;
      SplitEnds([], s);
      JoinNothing([]);
    } else {
      var n := FindSep(s).value;
      var t, more := Piece(s, n), s[n + 2..];
      tail := SplitParts(more);
      SplitNext([], s);
      assert s == t + SEP + more;
      FirstPieceIff(t, more);
      JoinFirst(t, Split(more));
      assert Split(s) == [t] + Split(more);
      assert t + SEP + (Join(Split(more)) + tail) == t + SEP + Join(Split(more)) + tail;
    }
  }

  lemma {:induction false} JoinFirst(t: Text, l: seq<Text>)
    ensures Join([t] + l) == t + SEP + Join(l)
  {
    assert ([t] + l)[1..] == l;
  }

  /** And nothing else is a way to read it so. */
  lemma {:induction false} SplitUnique(l: seq<Text>, tail: Bytes)
    requires AllClean(l) && FindSep(tail).None?
    ensures Split(Join(l) + tail) == l
  {
    hide FindSep, Clean;
    if l == [] {
      assert Join(l) + tail == tail;
      SplitEnds([], tail);
    } else {
      var more := Join(l[1..]) + tail;
      SplitUnique(l[1..], tail);
      assert Join(l) + tail == l[0] + SEP + more;
      FirstPieceIff(l[0], more);
      SplitStep(l[0], more);
    }
  }

  /** Four bytes in network order. */
  function NetworkInt(n: nat): (b: Bytes)
    requires n < 0x1_0000_0000
    ensures |b| == 4
  {
    var a := n / 0x100;
    var c := a / 0x100;
    [c / 0x100, c % 0x100, a % 0x100, n % 0x100]
  }

  function HostInt(b: Bytes): (n: nat)
    requires |b| == 4
    ensures n < 0x1_0000_0000
  {
    var b0, b1, b2, b3: int := b[0], b[1], b[2], b[3];
    ((b0 * 0x100 + b1) * 0x100 + b2) * 0x100 + b3
  }

  /** The first byte that differs decides. */
  predicate Precedes(a: Bytes, b: Bytes) {
    a != [] && b != [] && (a[0] < b[0] || (a[0] == b[0] && Precedes(a[1..], b[1..])))
  }

  /** Network order puts the most significant byte first: numbers compare as their bytes. */
  lemma {:induction false} NetworkOrder(m: nat, n: nat)
    requires m < 0x1_0000_0000 && n < 0x1_0000_0000
    ensures m < n <==> Precedes(NetworkInt(m), NetworkInt(n))
  {
    HostOfNetwork(m);
    HostOfNetwork(n);
    BytesDecide(NetworkInt(m), NetworkInt(n));
  }

  lemma {:induction false} BytesDecide(a: Bytes, b: Bytes)
    requires |a| == |b| == 4
    ensures HostInt(a) < HostInt(b) <==> Precedes(a, b)
  {
    assert a[1..][1..] == a[2..] && a[2..][1..] == a[3..] && a[3..][1..] == [];
    assert b[1..][1..] == b[2..] && b[2..][1..] == b[3..] && b[3..][1..] == [];
    assert Precedes(a[3..], b[3..]) <==> a[3] < b[3];
    assert Precedes(a[2..], b[2..]) <==> a[2] < b[2] || (a[2] == b[2] && a[3] < b[3]);
  }

  lemma {:induction false} HostOfNetwork(n: nat)
    requires n < 0x1_0000_0000
    ensures HostInt(NetworkInt(n)) == n
  {
    var a := n / 0x100;
    var c := a / 0x100;
    assert n == a * 0x100 + n % 0x100;
    assert a == c * 0x100 + a % 0x100;
    assert c == c / 0x100 * 0x100 + c % 0x100;
  }

  // ----- the operations

  class Serialiser {
    const strings: SetObj<Text>
    var curReaded: nat

    ghost predicate Valid()
      reads this, strings
    {
      strings.Valid()
    }

    constructor ()
      ensures Valid() && strings.members == [] && curReaded == 0 && fresh(strings)
    {
      strings := new SetObj();
      curReaded := 0;
    }

    method Push(s: Text)
      requires Valid()
      modifies strings
      ensures Valid() && strings.members == [s] + old(strings.members)
    {
      strings.Put(s);
    }

    /** The next string, from the front; the position advances even past the end. */
    method Pop() returns (r: Option<Text>)
      requires Valid()
      modifies this`curReaded
      ensures curReaded == old(curReaded) + 1
      ensures r == if old(curReaded) < |strings.members| then Some(strings.members[old(curReaded)]) else None
    {
      r := strings.Get(curReaded);
      curReaded := curReaded + 1;
    }

    /** The bytes written: the size in network order, then the joined strings. */
    method Write() returns (out: Bytes)
      requires Valid() && |Join(strings.members)| < 0x8000_0000
      modifies strings
      ensures Valid() && strings.members == []
      ensures out == NetworkInt(|Join(old(strings.members))|) + Join(old(strings.members))
    {
      hide Join, NetworkInt;
      ghost var l := strings.members;
      var buffer: Bytes := [];
      var i := 0;
      JoinNothing(l);
      while i < strings.length
        invariant 0 <= i <= |l| && strings.members == l && Valid()
        invariant buffer + Join(l[i..]) == Join(l)
      {
        var str := strings.Get(i).value;
        JoinNext(buffer, l, i);
        buffer := buffer + (str + SEP);
        i := i + 1;
      }
      assert buffer == Join(l);
      out := NetworkInt(|buffer|) + buffer;
      strings.Clear();
    }

    /** The reading loop: one string per separator, the first one put in first. */
    method CutUp(buffer: Bytes) returns (j: nat)
      requires Valid() && strings.members == []
      modifies strings
      ensures Valid() && strings.members == Reverse(Split(buffer)) && j == |Split(buffer)|
    {
      hide FindSep, Reverse, Split;
      var n := 0;
      var left := buffer;
      j := 0;
      ghost var done: seq<Text> := [];
      SplitNothing([]);
      assert done + Split(left) == Split(buffer);
      while n < |buffer|
        invariant 0 <= n <= |buffer| && Valid() && |left| == |buffer| - n
        invariant done + Split(left) == Split(buffer)
        invariant strings.members == Reverse(done) && j == |done|
        decreases |left|
      {
        var r := FindSep(left);
        if r.None? {
          SplitEnds(done, left);
          return;
        }
        var str := Piece(left, r.value);
        SplitNext(done, left);
        strings.Put(str);
        done := done + [str];
        left := left[r.value + 2..];
        n := n + r.value + 2;
        j := j + 1;
      }
      SplitNothing(left);
      assert done == Split(buffer);
    }

    /** Reads one message from a stream and returns the number of strings, or -1 for a
        negative size. */
    method Read(input: Bytes) returns (j: int, rest: Bytes)
      requires Valid() && |input| >= 4
      requires HostInt(input[..4]) < 0x8000_0000 ==> |input| >= 4 + HostInt(input[..4])
      modifies this`curReaded, strings
      ensures Valid() && curReaded == 0
      ensures HostInt(input[..4]) >= 0x8000_0000 ==> j == -1 && strings.members == []
      ensures HostInt(input[..4]) < 0x8000_0000 ==>
        var size := HostInt(input[..4]);
        var pieces := Split(input[4..4 + size]);
        strings.members == Reverse(pieces) && j == |pieces| && rest == input[4 + size..]
    {
      hide HostInt, Split;
      strings.Clear();
      curReaded := 0;
      var size := HostInt(input[..4]);
      if size >= 0x8000_0000 { return -1, input[4..]; }
      rest := input[4 + size..];
      if size == 0 {
        SplitNothing(input[4..4]);
        return 0, rest;
      }
      j := CutUp(input[4..4 + size]);
    }

    /** Everything pushed since the last write, sent and read back by another serialiser,
        pops in the order of pushing if and only if every string is clean. */
    method SendTo(other: Serialiser)
      requires Valid() && other.Valid() && strings != other.strings
      requires |Join(strings.members)| < 0x8000_0000
      modifies strings, other`curReaded, other.strings
      ensures other.Valid() && other.curReaded == 0
      ensures other.strings.members == Reverse(old(strings.members)) <==> AllClean(old(strings.members))
    {
      ghost var l := strings.members;
      var out := Write();
      HostOfNetwork(|Join(l)|);
      assert out[..4] == NetworkInt(|Join(l)|);
      assert out[4..4 + |Join(l)|] == Join(l);
      var j, rest := other.Read(out);
      SplitJoinIff(l);
      if Reverse(Split(Join(l))) == Reverse(l) {
        ReverseTwice(Split(Join(l)));
        ReverseTwice(l);
      }
    }

    /** Strings pushed into an empty serialiser, written, read by another and popped until
        nothing is left come out in the order of pushing if and only if every one is clean. */
    method Exchange(items: seq<Text>, other: Serialiser) returns (popped: seq<Text>)
      requires Valid() && other.Valid() && strings != other.strings && strings.members == []
      requires |Join(Reverse(items))| < 0x8000_0000
      modifies strings, other`curReaded, other.strings
      ensures popped == items <==> AllClean(items)
    {
      hide Join, AllClean, Reverse;
      var i := 0;
      ReverseNone<Text>();
      assert items[..0] == [];
      while i < |items|
        invariant 0 <= i <= |items| && Valid() && other.Valid()
        invariant strings.members == Reverse(items[..i])
      {
        Push(items[i]);
        ReverseSnoc(items[..i], items[i]);
        assert items[..i + 1] == items[..i] + [items[i]];
        i := i + 1;
      }
      assert items[..i] == items;
      SendTo(other);
      ReverseTwice(items);
      CleanBothWays(items);
      popped := [];
      ghost var all := other.strings.members;
      var next := other.Pop();
      while next.Some?
        invariant other.Valid() && other.strings.members == all && 0 < other.curReaded <= |all| + 1
        invariant popped == all[..other.curReaded - 1]
        invariant next == if other.curReaded <= |all| then Some(all[other.curReaded - 1]) else None
        decreases |all| + 1 - other.curReaded
      {
        popped := popped + [next.value];
        next := other.Pop();
      }
      assert popped == all;
    }
  }
}
