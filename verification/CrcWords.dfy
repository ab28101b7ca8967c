/** The word arithmetic of the CRC engine, read as polynomial arithmetic. */
module CrcWords {
  import opened Arithmetic
  import opened Words
  import opened Gf2

  /** The bits of a byte buffer, most significant bit of each byte first. */
  function ByteBits(s: seq<byte>): (b: Poly)
    ensures |b| == 8 * |s|
  {
    if s == [] then [] else ByteBits(s[..|s| - 1]) + Bits(s[|s| - 1], 8)
  }

  lemma {:induction false} ByteBitsAppend(s: seq<byte>, t: seq<byte>)
    ensures ByteBits(s + t) == ByteBits(s) + ByteBits(t)
    decreases |t|
  {
    if t == [] {
      assert s + t == s;
    } else {
      var k := |t| - 1;
      assert (s + t)[..|s| + k] == s + t[..k];
      ByteBitsAppend(s, t[..k]);
    }
  }

  lemma {:induction false} ByteBitsSnoc(s: seq<byte>, b: byte)
    ensures ByteBits(s + [b]) == ByteBits(s) + Bits(b, 8)
  {
    assert (s + [b])[..|s + [b]| - 1] == s;
  }

  lemma {:induction false} ByteBitsInjective(s: seq<byte>, t: seq<byte>)
    requires ByteBits(s) == ByteBits(t)
    ensures s == t
    decreases |s|
  {
    if s != [] {
      var k := |s| - 1;
      assert |t| == k + 1;
      assert ByteBits(s)[..8 * k] == ByteBits(s[..k]) && ByteBits(t)[..8 * k] == ByteBits(t[..k]);
      assert ByteBits(s)[8 * k..] == Bits(s[k], 8) && ByteBits(t)[8 * k..] == Bits(t[k], 8);
      ByteBitsInjective(s[..k], t[..k]);
      Pow2Values();
      BitsInjective(s[k], t[k], 8);
      assert s == s[..k] + [s[k]] && t == t[..k] + [t[k]];
    }
  }

  lemma {:induction false} BitsTail(w: nat, n: nat)
    requires n >= 1
    ensures Bits(w, n)[1..] == Bits(w, n - 1)
  {
    BitsPrefix(w, n, n - 1);
  }

  /** A word below 2^n has clear bits from n on; one in [2^n, 2^(n+1)) has bit n set. */
  lemma {:induction false} BitsLead(w: nat, n: nat)
    requires w < Pow2(n + 1)
    ensures Bits(w, n + 1)[0] == (w >= Pow2(n))
  {
    if n == 0 {
      assert w == 0 || w == 1;
    } else {
      BitsLead(w / 2, n - 1);
    }
  }

  lemma {:induction false} BitsExtend(w: nat, n: nat)
    requires w < Pow2(n)
    ensures Bits(w, n + 1) == [false] + Bits(w, n)
  {
    BitsLead(w, n);
    BitsTail(w, n + 1);
  }

  /** The generator a polynomial word stands for: x^n and the terms below it. */
  function GeneratorOf(p: nat, n: nat): (P: Poly)
    ensures |P| == n + 1
  {
    [true] + Bits(p, n)
  }

  lemma {:induction false} OddWord(p: nat, n: nat)
    requires n >= 1 && p % 2 == 1
    ensures IsGenerator(GeneratorOf(p, n))
  {}

  /** A word that writes out its x^n term holds the whole generator. */
  lemma {:induction false} WholeWord(p: nat, n: nat)
    requires p < Pow2(n + 1)
    ensures Bits(p, n + 1) == [p >= Pow2(n)] + Bits(p, n)
  {
    hide Bits, Pow2;
    BitsLead(p, n);
    BitsTail(p, n + 1);
  }

  /** Shift, test of the high bit and conditional subtraction are one register step. */
  lemma {:induction false} WordStep(w: nat, n: nat, p: nat)
    requires 1 <= n <= 63
    ensures var s := Shl(w, 1);
            var w' := if And(w, Pow2(n - 1)) != 0 then Xor(s, p) else s;
            Bits(w', n) == Step(GeneratorOf(p, n), Bits(w, n))
  {
    AndBit(w, n - 1);
    BitsOfShl(w, 1, n - 1);
    assert Zeros(1) == [false];
    BitsTail(w, n);
    BitsOfXor(Shl(w, 1), p, n);
    hide Bits, And, Xor, Shl, Pow2;
    assert GeneratorOf(p, n)[1..] == Bits(p, n);
  }

  /** The backward stepper divides the register by x. */
  lemma {:induction false} WordBack(w: nat, n: nat, p: nat)
    requires n >= 1 && w < Pow2(n) && p < Pow2(n + 1)
    ensures var w' := Shr(if And(1, w) == 1 then Xor(w, p) else w, 1);
            w' < Pow2(n) && Bits(w', n) == Back(Bits(p, n + 1), Bits(w, n))
  {
    hide Bits, Xor, Xors, Pow2, And, Zeros;
    LowBit(w, n);
    var v := if w % 2 == 1 then Xor(w, p) else w;
    assert Pow2(n + 1) == 2 * Pow2(n) by { Pow2Double(n); }
    XorBound(w, p, n + 1);
    BitsOfShr(v, 1, n);
    BitsExtend(w, n);
    BitsOfXor(w, p, n + 1);
    var R, P := Bits(w, n), Bits(p, n + 1);
    assert Shr(v, 1) == v / 2;
    if w % 2 == 1 {
      assert Xors([false] + R, P)[..n] == [P[0]] + Xors(R[..n - 1], P[1..n]);
    } else {
      assert ([false] + R)[..n] == [false] + R[..n - 1];
    }
  }

  lemma {:induction false} LowBit(w: nat, n: nat)
    requires n >= 1
    ensures And(1, w) == w % 2
    ensures Bits(w, n)[n - 1] == (w % 2 == 1)
  {
    assert And(0, w / 2) == 0;
  }

  lemma {:induction false} LowByte(w: nat)
    ensures And(w, 0xff) < 256
    ensures Bits(And(w, 0xff), 8) == Bits(w, 8)
  {
    Pow2Values();
    AndMask(w, 8);
    BitsOfLow(w, 8);
  }

  function TableIndex(w: nat, b: byte, n: nat): (i: nat)
    requires n >= 8
    ensures i < 256
  {
    LowByte(Shr(w, n - 8));
    Pow2Values();
    XorBound(And(Shr(w, n - 8), 0xff), b, 8);
    Xor(And(Shr(w, n - 8), 0xff), b)
  }

  lemma {:induction false} IndexBits(w: nat, b: byte, n: nat)
    requires n >= 8
    ensures Bits(TableIndex(w, b, n), 8) == Xors(Bits(w, n)[..8], Bits(b, 8))
  {
    LowByte(Shr(w, n - 8));
    BitsOfXor(And(Shr(w, n - 8), 0xff), b, 8);
    BitsOfShr(w, n - 8, 8);
  }

  /** What the lookup table must hold: eight steps from byte i at the top. */
  ghost predicate EntryFor(entry: nat, i: nat, n: nat, P: Poly)
    requires 8 <= n && |P| == n + 1
  {
    entry < Pow2(n) && Bits(entry, n) == StepN(P, Bits(i, 8) + Zeros(n - 8), 8)
  }

  /** One table lookup divides eight message bits, whatever lies above bit n of w. */
  lemma {:induction false} WordByte(w: nat, b: byte, n: nat, P: Poly, entry: nat)
    requires 8 <= n <= 56 && |P| == n + 1
    requires EntryFor(entry, TableIndex(w, b, n), n, P)
    ensures Bits(Xor(Shl(w, 8), entry), n) == Feed(P, Bits(w, n), Bits(b, 8))
  {
    var R, B := Bits(w, n), Bits(b, 8);
    BitsOfXor(Shl(w, 8), entry, n);
    BitsOfShl(w, 8, n - 8);
    BitsPrefix(w, n, n - 8);
    IndexBits(w, b, n);
    FeedBlock(P, R, B);
  }

  lemma {:induction false} TopByte(i: nat, n: nat)
    requires 8 <= n <= 64
    ensures Bits(Shl(i, n - 8), n) == Bits(i, 8) + Zeros(n - 8)
  {
    BitsOfShl(i, n - 8, 8);
  }

  lemma {:induction false} XorFits64(a: u64, b: u64)
    ensures Xor(a, b) < U64
  {
    Pow2Is64();
    XorBound(a, b, 64);
  }

  lemma {:induction false} Pow2Mono(a: nat, b: nat)
    requires a <= b
    ensures Pow2(a) <= Pow2(b)
    decreases b
  {
    if a < b { Pow2Mono(a, b - 1); }
  }

  lemma {:induction false} ShlOne(w: nat, k: nat)
    requires k < 64 && w * Pow2(k) < U64
    ensures Shl(w, k) == w * Pow2(k)
    decreases k
  {
    if k > 0 {
      var p := Pow2(k - 1);
      assert Pow2(k) == 2 * p && Shl(w, k) == Shl((2 * w) % U64, k - 1);
      hide Pow2, Shl;
      ShlStep(w, p);
      ShlOne(2 * w, k - 1);
    }
  }

  lemma {:induction false} ShlStep(w: nat, p: nat)
    requires p >= 1 && w * (2 * p) < U64
    ensures (2 * w) * p == w * (2 * p) && (2 * w) % U64 == 2 * w
  {
    MoveDouble(w, p);
    MulLeft(2 * w, 1, p);
  }

  lemma {:induction false} OrZero(w: nat)
    ensures Or(w, 0) == w
  {
    if w > 0 { OrZero(w / 2); }
  }

  /** The mask 2^n - 1 as the source builds it, without shifting by n. */
  lemma {:induction false} MaskWord(n: nat)
    requires 1 <= n <= 63
    ensures Shl(1, n - 1) == Pow2(n - 1)
    ensures Or(Shl(Pow2(n - 1) - 1, 1), 1) == Pow2(n) - 1
  {
    hide Pow2, Shl, Or;
    Pow2Mono(n, 63);
    Pow2Double(63);
    Pow2Double(n - 1);
    Pow2Is64();
    ShlOne(1, n - 1);
    var m := Pow2(n - 1) - 1;
    ShlByOne(m);
    OrLastBit(m);
  }

  lemma {:induction false} ShlByOne(m: nat)
    requires 2 * m < U64
    ensures Shl(m, 1) == 2 * m
  {
    assert Shl(2 * m % U64, 0) == 2 * m;
  }

  lemma {:induction false} OrLastBit(m: nat)
    ensures Or(2 * m, 1) == 2 * m + 1
  {
    OrZero(m);
    assert Or(2 * m, 1) == 2 * Or(m, 0) + 1;
  }

  lemma {:induction false} MaskFits(n: nat)
    requires 1 <= n <= 32
    ensures Shl(1, n - 1) == Pow2(n - 1)
    ensures Or(Shl(Shl(1, n - 1) - 1, 1), 1) == Pow2(n) - 1 < U64
  {
    MaskWord(n);
    Pow2Mono(n, 32);
    Pow2Values();
  }

  /** Byte i of m, counted from the most significant. */
  function ByteOf(w: nat, m: nat, i: nat): (b: byte)
    requires i < m
  {
    LowByte(Shr(w, 8 * (m - 1 - i)));
    And(Shr(w, 8 * (m - 1 - i)), 0xff)
  }

  lemma {:induction false} ByteAt(w: nat, m: nat, i: nat)
    requires i < m
    ensures Bits(w, 8 * m)[..8 * i] + Bits(ByteOf(w, m, i), 8) == Bits(w, 8 * m)[..8 * (i + 1)]
  {
    var s := 8 * (m - 1 - i);
    LowByte(Shr(w, s));
    BitsOfShr(w, s, 8);
    BitsPrefix(w, 8 * m, 8 + s);
  }

  /** The bytes of a word, most significant first, hold its bits. */
  lemma {:induction false} BitsOfBytes(s: seq<byte>, w: nat, m: nat)
    requires |s| <= m && forall k :: 0 <= k < |s| ==> s[k] == ByteOf(w, m, k)
    ensures ByteBits(s) == Bits(w, 8 * m)[..8 * |s|]
    decreases |s|
  {
    if s != [] {
      var k := |s| - 1;
      BitsOfBytes(s[..k], w, m);
      ByteAt(w, m, k);
      hide Bits, ByteOf;
      assert s == s[..k] + [s[k]];
      ByteBitsSnoc(s[..k], s[k]);
    }
  }

  lemma {:induction false} BitsOfOr(a: nat, b: nat, n: nat)
    ensures forall i :: 0 <= i < n ==> Bits(Or(a, b), n)[i] == (Bits(a, n)[i] || Bits(b, n)[i])
  {
    if n > 0 {
      if a == 0 && b == 0 { BitsOfZero(n); }
      BitsOfOr(a / 2, b / 2, n - 1);
    }
  }

  lemma {:induction false} BitsOfFlag(f: nat, n: nat)
    requires f <= 1 && n >= 1
    ensures Bits(f, n) == Zeros(n - 1) + [f == 1]
  {
    BitsOfZero(n - 1);
  }

  /** Adding the flag of position i to a byte whose first i bits are set up. */
  lemma {:induction false} OrFlag(value: byte, f: byte, i: nat, done: Poly)
    requires i < 8 && f <= 1 && |done| == i && Bits(value, 8) == done + Zeros(8 - i)
    ensures var v := Or(value, Shl(f, 7 - i));
            v < 256 && Bits(v, 8) == done + [f == 1] + Zeros(7 - i)
  {
    hide Bits, Or, Shl, Pow2;
    var s := Shl(f, 7 - i);
    BitsOfShl(f, 7 - i, i + 1);
    BitsOfFlag(f, i + 1);
    BitsOfOr(value, s, 8);
    FlagFits(f, i);
    Pow2Values();
    OrBound(value, s, 8);
    assert Bits(Or(value, s), 8) == done + [f == 1] + Zeros(7 - i);
  }

  lemma {:induction false} FlagFits(f: byte, i: nat)
    requires i < 8 && f <= 1
    ensures Shl(f, 7 - i) < 256
  {
    var p := Pow2(7 - i);
    Pow2Mono(7 - i, 7);
    assert Pow2(7) == 2 * Pow2(6) && Pow2(6) == 2 * Pow2(5) && Pow2(5) == 2 * Pow2(4) && Pow2(4) == 16;
    hide Shl, Pow2;
    if f == 0 { assert f * p == 0; } else { assert f * p == p; }
    ShlOne(f, 7 - i);
  }

  lemma {:induction false} OrBound(a: nat, b: nat, n: nat)
    requires a < Pow2(n) && b < Pow2(n)
    ensures Or(a, b) < Pow2(n)
  {
    if n > 0 { OrBound(a / 2, b / 2, n - 1); }
  }

  lemma {:induction false} BitAt(w: nat, n: nat, i: nat)
    requires i < n
    ensures And(Shr(w, n - i - 1), 1) == if Bits(w, n)[i] then 1 else 0
  {
    var v := Shr(w, n - i - 1);
    BitsOfShr(w, n - i - 1, i + 1);
    assert Bits(v, i + 1)[i] == (v % 2 == 1);
    assert And(v / 2, 0) == 0;
  }

  /** Whether a word has an odd number of bits set. */
  function OddWeight(w: nat): bool {
    if w == 0 then false else OddWeight(w / 2) != (w % 2 == 1)
  }

  /** Appending the four bits of a hexadecimal digit. */
  lemma {:induction false} HexWeight(hi: nat, a: nat, b: nat, c: nat, d: nat)
    requires a <= 1 && b <= 1 && c <= 1 && d <= 1
    ensures OddWeight(16 * hi + 8 * a + 4 * b + 2 * c + d) == (OddWeight(hi) != ((a + b + c + d) % 2 == 1))
  {
    hide OddWeight;
    OddSnoc(hi, a);
    OddSnoc(2 * hi + a, b);
    OddSnoc(4 * hi + 2 * a + b, c);
    OddSnoc(8 * hi + 4 * a + 2 * b + c, d);
  }

  lemma {:induction false} OddZero()
    ensures !OddWeight(0)
  {}

  lemma {:induction false} OddSnoc(w: nat, b: nat)
    requires b <= 1
    ensures OddWeight(2 * w + b) == (OddWeight(w) != (b == 1))
  {}

  lemma {:induction false} ParityOfBits(w: nat, n: nat)
    requires w < Pow2(n)
    ensures Parity(Bits(w, n)) == OddWeight(w)
  {
    if n > 0 {
      ParityOfBits(w / 2, n - 1);
      assert Bits(w, n)[..n - 1] == Bits(w / 2, n - 1);
    }
  }
}
