/** C machine words as natural numbers: shifts, masks and exclusive or, and the
    bit sequence (most significant bit first) that a word stands for. */
module Words {
  import opened Arithmetic

  const U64 := 0x1_0000_0000_0000_0000

  type u64 = x: int | 0 <= x < 0x1_0000_0000_0000_0000
  type u32 = x: int | 0 <= x < 0x1_0000_0000
  type byte = x: int | 0 <= x < 256

  type Bytes = seq<byte>

  /** The contents of a C string: no byte is zero. */
  type Letter = b: byte | b != 0 witness 1
  type Text = seq<Letter>

  function Pow2(k: nat): (p: nat)
    ensures p >= 1
  {
    if k == 0 then 1 else 2 * Pow2(k - 1)
  }

  /** Bitwise exclusive or. */
  function Xor(a: nat, b: nat): nat {
    if a == 0 && b == 0 then 0
    else 2 * Xor(a / 2, b / 2) + (if a % 2 != b % 2 then 1 else 0)
  }

  /** Bitwise and. */
  function And(a: nat, b: nat): nat {
    if a == 0 || b == 0 then 0
    else 2 * And(a / 2, b / 2) + (if a % 2 == 1 && b % 2 == 1 then 1 else 0)
  }

  /** Bitwise or. */
  function Or(a: nat, b: nat): nat {
    if a == 0 && b == 0 then 0
    else 2 * Or(a / 2, b / 2) + (if a % 2 == 1 || b % 2 == 1 then 1 else 0)
  }

  /** A left shift by k places of a 64-bit word: the bits pushed out are lost. */
  function Shl(w: nat, k: nat): u64
    decreases k
  {
    if k == 0 then w % U64 else Shl((2 * w) % U64, k - 1)
  }

  /** A right shift by k places. */
  function Shr(w: nat, k: nat): nat
    decreases k
  {
    if k == 0 then w else Shr(w / 2, k - 1)
  }

  // ----- bit sequences

  /** The low n bits of w, most significant first. */
  function Bits(w: nat, n: nat): (s: seq<bool>)
    ensures |s| == n
  {
    if n == 0 then [] else Bits(w / 2, n - 1) + [w % 2 == 1]
  }

  function Zeros(n: nat): (s: seq<bool>)
    ensures |s| == n && forall i :: 0 <= i < n ==> !s[i]
  {
    seq(n, i => false)
  }

  /** Sum of two polynomials over GF(2). */
  function Xors(a: seq<bool>, b: seq<bool>): (s: seq<bool>)
    requires |a| == |b|
    ensures |s| == |a| && forall i :: 0 <= i < |a| ==> s[i] == (a[i] != b[i])
  {
    seq(|a|, i requires 0 <= i < |a| => a[i] != b[i])
  }

  // ----- laws

  lemma {:induction false} XorsCancel(a: seq<bool>, y: seq<bool>, x: seq<bool>)
    requires |a| == |y| == |x|
    ensures Xors(Xors(a, y), x) == Xors(a, x) <==> y == Zeros(|y|)
  {
    var l, r := Xors(Xors(a, y), x), Xors(a, x);
    if l == r {
      forall i | 0 <= i < |y| ensures y[i] == Zeros(|y|)[i] {
        assert l[i] == r[i];
      }
    }
  }

  lemma {:induction false} Pow2Add(a: nat, b: nat)
    ensures Pow2(a + b) == Pow2(a) * Pow2(b)
  {
    if a == 0 {
    } else {
      var p, q, r := Pow2(a - 1), Pow2(b), Pow2(a - 1 + b);
      assert Pow2(a) == 2 * p && Pow2(a + b) == 2 * r;
      Pow2Add(a - 1, b);
      hide Pow2;
      DoubleProduct(p, q);
    }
  }

  lemma {:induction false} Pow2Double(n: nat)
    ensures Pow2(n + 1) == 2 * Pow2(n)
  {}

  /** Bit i from the top, by arithmetic. */
  lemma {:induction false} BitByDivision(w: nat, n: nat, i: nat)
    requires i < n
    ensures Bits(w, n)[i] <==> w / Pow2(n - 1 - i) % 2 == 1
  {
    if i < n - 1 {
      BitByDivision(w / 2, n - 1, i);
      DivTwice(w, Pow2(n - 2 - i));
    }
  }

  lemma {:induction false} DivTwice(w: nat, p: nat)
    requires p >= 1
    ensures w / 2 / p == w / (2 * p)
  {
    var a := w / 2;
    var q, r := a / p, a % p;
    assert w == 2 * a + w % 2 && a == p * q + r;
    DoubleProduct(p, q);
    DivModUnique(w, 2 * p, q, 2 * r + w % 2);
  }

  lemma {:induction false} BitsOfXor(a: nat, b: nat, n: nat)
    ensures Bits(Xor(a, b), n) == Xors(Bits(a, n), Bits(b, n))
  {
    if n > 0 {
      XorHalves(a, b);
      BitsOfXor(a / 2, b / 2, n - 1);
    }
  }

  lemma {:induction false} XorHalves(a: nat, b: nat)
    ensures Xor(a, b) / 2 == Xor(a / 2, b / 2)
    ensures Xor(a, b) % 2 == (if a % 2 != b % 2 then 1 else 0)
  {
    if a == 0 && b == 0 {
      assert Xor(0, 0) == 0;
    }
  }

  /** Two words with the same low n bits below 2^n are the same word. */
  lemma {:induction false} BitsInjective(a: nat, b: nat, n: nat)
    requires a < Pow2(n) && b < Pow2(n) && Bits(a, n) == Bits(b, n)
    ensures a == b
  {
    if n > 0 {
      var x, y := Bits(a / 2, n - 1), Bits(b / 2, n - 1);
      assert x == Bits(a, n)[..n - 1] && y == Bits(b, n)[..n - 1];
      assert Bits(a, n)[n - 1] == (a % 2 == 1) && Bits(b, n)[n - 1] == (b % 2 == 1);
      BitsInjective(a / 2, b / 2, n - 1);
    }
  }

  lemma {:induction false} BitsOfZero(n: nat)
    ensures Bits(0, n) == Zeros(n)
  {
    if n > 0 { BitsOfZero(n - 1); }
  }

  lemma {:induction false} BitsOfMod(w: nat, m: nat, n: nat)
    requires n <= m
    ensures Bits(w % Pow2(m), n) == Bits(w, n)
  {
    if n > 0 {
      var p := Pow2(m - 1);
      assert Pow2(m) == 2 * p;
      ModHalf(w, p);
      BitsOfMod(w / 2, m - 1, n - 1);
    }
  }

  lemma {:induction false} ModHalf(w: nat, p: nat)
    requires p >= 1
    ensures (w % (2 * p)) / 2 == (w / 2) % p
    ensures (w % (2 * p)) % 2 == w % 2
  {
    var q, r := (w / 2) / p, (w / 2) % p;
    DoubleProduct(p, q);
    DivModUnique(w, 2 * p, q, 2 * r + w % 2);
  }

  lemma {:induction false} Pow2Values()
    ensures Pow2(8) == 0x100 && Pow2(16) == 0x1_0000 && Pow2(24) == 0x100_0000
    ensures Pow2(32) == 0x1_0000_0000
  {
    assert Pow2(4) == 16;
    Pow2Add(4, 4);
    Pow2Add(8, 8);
    Pow2Add(16, 8);
    Pow2Add(16, 16);
  }

  lemma {:induction false} Pow2Is64()
    ensures Pow2(64) == U64
  {
    Pow2Values();
    Pow2Add(32, 32);
  }

  /** Shifting left appends zero bits, whatever falls out at the top. */
  lemma {:induction false} BitsOfShl(w: nat, k: nat, n: nat)
    requires n + k <= 64
    ensures Bits(Shl(w, k), n + k) == Bits(w, n) + Zeros(k)
    decreases k
  {
    hide Pow2, Zeros;
    Pow2Is64();
    if k == 0 {
      BitsOfMod(w, 64, n);
      assert Zeros(0) == [];
    } else {
      var w' := (2 * w) % U64;
      BitsOfShl(w', k - 1, n + 1);
      BitsOfMod(2 * w, 64, n + 1);
      assert Bits(2 * w, n + 1) == Bits(w, n) + [false];
      assert Zeros(k) == [false] + Zeros(k - 1);
      assert Bits(w, n) + Zeros(k) == Bits(w, n) + [false] + Zeros(k - 1);
    }
  }

  lemma {:induction false} BitsPrefix(w: nat, n: nat, m: nat)
    requires m <= n
    ensures Bits(w, n)[n - m..] == Bits(w, m)
  {
    if m > 0 {
      BitsPrefix(w / 2, n - 1, m - 1);
      assert Bits(w, n)[n - m..] == Bits(w / 2, n - 1)[n - 1 - (m - 1)..] + [w % 2 == 1];
    }
  }

  lemma {:induction false} BitsOfShr(w: nat, k: nat, n: nat)
    ensures Bits(Shr(w, k), n) == Bits(w, n + k)[..n]
    decreases k
  {
    if k > 0 {
      BitsOfShr(w / 2, k - 1, n);
      assert Bits(w, n + k)[..n] == Bits(w / 2, n + k - 1)[..n];
    }
  }

  /** The low n bits of w as a number. */
  function Low(w: nat, n: nat): (r: nat)
    ensures r < Pow2(n)
  {
    if n == 0 then 0 else 2 * Low(w / 2, n - 1) + w % 2
  }

  /** Masking with 2^n - 1 keeps the low n bits and clears the rest. */
  lemma {:induction false} AndMask(w: nat, n: nat)
    ensures And(w, Pow2(n) - 1) == Low(w, n)
  {
    if n > 0 {
      AndMask(w / 2, n - 1);
      AndOdd(w, Pow2(n - 1) - 1);
    }
  }

  lemma {:induction false} AndOdd(w: nat, h: nat)
    ensures And(w, 2 * h + 1) == 2 * And(w / 2, h) + w % 2
  {
    assert (2 * h + 1) / 2 == h;
    if w == 0 { assert And(0, h) == 0; }
  }

  lemma {:induction false} BitsOfLow(w: nat, n: nat)
    ensures Bits(Low(w, n), n) == Bits(w, n)
  {
    if n > 0 { BitsOfLow(w / 2, n - 1); }
  }

  lemma {:induction false} LowSmall(w: nat, n: nat)
    ensures Low(w, n) == w <==> w < Pow2(n)
  {
    if n > 0 { LowSmall(w / 2, n - 1); }
  }

  /** Testing one bit: a mask with the single bit n selects bit n. */
  lemma {:induction false} AndBit(w: nat, n: nat)
    ensures And(w, Pow2(n)) != 0 <==> Bits(w, n + 1)[0]
  {
    if n == 0 {
      assert And(w / 2, 0) == 0;
    } else {
      AndBit(w / 2, n - 1);
      assert Pow2(n) / 2 == Pow2(n - 1) && Pow2(n) % 2 == 0;
      if w == 0 { BitsOfZero(n + 1); }
    }
  }

  lemma {:induction false} XorBound(a: nat, b: nat, n: nat)
    requires a < Pow2(n) && b < Pow2(n)
    ensures Xor(a, b) < Pow2(n)
  {
    if n > 0 { XorBound(a / 2, b / 2, n - 1); }
  }
}
