/** Polynomials over GF(2) as bit sequences, highest power first, and the shift
    register that divides by a generator. Multiplication is the reference: what a
    remainder is, is stated through products, not through the register. */
module Gf2 {
  import opened Words

  type Poly = seq<bool>

  /** A generator of degree n >= 1 written with its x^n term and its constant term. */
  predicate IsGenerator(P: Poly) {
    |P| >= 2 && P[0] && P[|P| - 1]
  }

  /** The product q * P, one bit of q at a time. */
  function Mul(q: Poly, P: Poly): (r: Poly)
    requires |P| >= 1
    ensures |r| == |q| + |P| - 1
  {
    if q == [] then Zeros(|P| - 1)
    else
      var k := |q| - 1;
      var hi := Mul(q[..k], P) + [false];
      if q[k] then Xors(hi, Zeros(k) + P) else hi
  }

  /** S is a multiple of P (leading zeros of S do not matter). */
  ghost predicate MultipleOf(P: Poly, S: Poly)
    requires |P| >= 1
  {
    exists q: Poly :: |q| == |S| && Mul(q, P) == Zeros(|P| - 1) + S
  }

  /** The register times x, reduced by P. */
  function Step(P: Poly, R: Poly): (r: Poly)
    requires |P| == |R| + 1 && |R| >= 1
    ensures |r| == |R|
  {
    var t := R[1..] + [false];
    if R[0] then Xors(t, P[1..]) else t
  }

  function StepN(P: Poly, R: Poly, k: nat): (r: Poly)
    requires |P| == |R| + 1 && |R| >= 1
    ensures |r| == |R|
    decreases k
  {
    if k == 0 then R else StepN(P, Step(P, R), k - 1)
  }

  /** One bit of long division: the message bit is added at the top. */
  function FeedBit(P: Poly, R: Poly, b: bool): (r: Poly)
    requires |P| == |R| + 1 && |R| >= 1
    ensures |r| == |R|
  {
    var t := R[1..] + [false];
    if R[0] != b then Xors(t, P[1..]) else t
  }

  function Feed(P: Poly, R: Poly, S: Poly): (r: Poly)
    requires |P| == |R| + 1 && |R| >= 1
    ensures |r| == |R|
  {
    if S == [] then R
    else FeedBit(P, Feed(P, R, S[..|S| - 1]), S[|S| - 1])
  }

  /** What long division leaves of S * x^n. */
  function Remainder(P: Poly, S: Poly): (r: Poly)
    requires |P| >= 2
    ensures |r| == |P| - 1
  {
    Feed(P, Zeros(|P| - 1), S)
  }

  function Quotient(P: Poly, S: Poly): (q: Poly)
    requires |P| >= 2
    ensures |q| == |S|
  {
    if S == [] then []
    else
      var k := |S| - 1;
      Quotient(P, S[..k]) + [Remainder(P, S[..k])[0] != S[k]]
  }

  /** The register divided by x: undoes Step. */
  function Back(P: Poly, R: Poly): (r: Poly)
    requires |P| == |R| + 1 && |R| >= 1
    ensures |r| == |R|
  {
    var n := |R|;
    if R[n - 1] then [P[0]] + Xors(R[..n - 1], P[1..n]) else [false] + R[..n - 1]
  }

  function BackN(P: Poly, R: Poly, k: nat): (r: Poly)
    requires |P| == |R| + 1 && |R| >= 1
    ensures |r| == |R|
    decreases k
  {
    if k == 0 then R else BackN(P, Back(P, R), k - 1)
  }

  // ----- linearity

  lemma {:induction false} StepLinear(P: Poly, A: Poly, B: Poly)
    requires |P| == |A| + 1 == |B| + 1 && |A| >= 1
    ensures Step(P, Xors(A, B)) == Xors(Step(P, A), Step(P, B))
  {
    assert Step(P, Xors(A, B)) == Xors(Step(P, A), Step(P, B));
  }

  lemma {:induction false} StepNLinear(P: Poly, A: Poly, B: Poly, k: nat)
    requires |P| == |A| + 1 == |B| + 1 && |A| >= 1
    ensures StepN(P, Xors(A, B), k) == Xors(StepN(P, A, k), StepN(P, B, k))
    decreases k
  {
    if k > 0 {
      StepLinear(P, A, B);
      StepNLinear(P, Step(P, A), Step(P, B), k - 1);
    }
  }

  lemma {:induction false} FeedLinear(P: Poly, A: Poly, B: Poly, S: Poly, T: Poly)
    requires |P| == |A| + 1 == |B| + 1 && |A| >= 1 && |S| == |T|
    ensures Feed(P, Xors(A, B), Xors(S, T)) == Xors(Feed(P, A, S), Feed(P, B, T))
    decreases |S|
  {
    if S != [] {
      var k := |S| - 1;
      FeedLinear(P, A, B, S[..k], T[..k]);
      assert Xors(S, T)[..k] == Xors(S[..k], T[..k]);
      hide FeedBit;
      FeedBitLinear(P, Feed(P, A, S[..k]), Feed(P, B, T[..k]), S[k], T[k]);
    }
  }

  lemma {:induction false} FeedBitLinear(P: Poly, a: Poly, b: Poly, s: bool, t: bool)
    requires |P| == |a| + 1 == |b| + 1 && |a| >= 1
    ensures FeedBit(P, Xors(a, b), s != t) == Xors(FeedBit(P, a, s), FeedBit(P, b, t))
  {
    var l, r := FeedBit(P, Xors(a, b), s != t), Xors(FeedBit(P, a, s), FeedBit(P, b, t));
    assert l == r;
  }

  lemma {:induction false} MulLinear(a: Poly, b: Poly, P: Poly)
    requires |P| >= 1 && |a| == |b|
    ensures Mul(Xors(a, b), P) == Xors(Mul(a, P), Mul(b, P))
    decreases |a|
  {
    hide Zeros, Xors;
    if a == [] {
      assert Xors(a, b) == [];
      assert Xors(Zeros(|P| - 1), Zeros(|P| - 1)) == Zeros(|P| - 1);
    } else {
      var k := |a| - 1;
      MulLinear(a[..k], b[..k], P);
      assert Xors(a, b)[..k] == Xors(a[..k], b[..k]);
      assert Mul(Xors(a, b), P) == Xors(Mul(a, P), Mul(b, P));
    }
  }

  // ----- feeding

  lemma {:induction false} FeedAppend(P: Poly, R: Poly, S: Poly, T: Poly)
    requires |P| == |R| + 1 && |R| >= 1
    ensures Feed(P, R, S + T) == Feed(P, Feed(P, R, S), T)
    decreases |T|
  {
    if T == [] {
      assert S + T == S;
    } else {
      var k := |T| - 1;
      assert (S + T)[..|S| + k] == S + T[..k];
      FeedAppend(P, R, S, T[..k]);
    }
  }

  /** Feeding up to n bits is adding them at the top and then shifting that often. */
  lemma {:induction false} FeedIsStep(P: Poly, R: Poly, B: Poly)
    requires |P| == |R| + 1 && |R| >= 1 && |B| <= |R|
    ensures Feed(P, R, B) == StepN(P, Xors(R, B + Zeros(|R| - |B|)), |B|)
    decreases |B|
  {
    hide Step, FeedBit, Zeros, Xors;
    var n := |R|;
    if B == [] {
      assert Xors(R, B + Zeros(n)) == R;
    } else {
      FeedFirst(P, R, B);
      FeedIsStep(P, FeedBit(P, R, B[0]), B[1..]);
      StepAbsorbs(P, R, B + Zeros(n - |B|));
      assert (B + Zeros(n - |B|))[1..] + [false] == B[1..] + Zeros(n - |B[1..]|);
    }
  }

  lemma {:induction false} FeedFirst(P: Poly, R: Poly, B: Poly)
    requires |P| == |R| + 1 && |R| >= 1 && B != []
    ensures Feed(P, R, B) == Feed(P, FeedBit(P, R, B[0]), B[1..])
  {
    var b, B' := B[0], B[1..];
    calc {
      Feed(P, R, B);
      { assert B == [b] + B'; }
      Feed(P, R, [b] + B');
      { FeedAppend(P, R, [b], B'); }
      Feed(P, Feed(P, R, [b]), B');
      { FeedOne(P, R, b); }
      Feed(P, FeedBit(P, R, b), B');
    }
  }

  lemma {:induction false} FeedOne(P: Poly, R: Poly, b: bool)
    requires |P| == |R| + 1 && |R| >= 1
    ensures Feed(P, R, [b]) == FeedBit(P, R, b)
  {
    assert [b][..|[b]| - 1] == [];
  }

  lemma {:induction false} StepAbsorbs(P: Poly, R: Poly, T: Poly)
    requires |P| == |R| + 1 && |R| >= 1 && |T| == |R|
    ensures Step(P, Xors(R, T)) == Xors(FeedBit(P, R, T[0]), T[1..] + [false])
  {
    var l, r := Step(P, Xors(R, T)), Xors(FeedBit(P, R, T[0]), T[1..] + [false]);
    forall i | 0 <= i < |R| ensures l[i] == r[i] {
      if i < |R| - 1 {
        assert Xors(R, T)[1..][i] == (R[i + 1] != T[i + 1]);
      }
    }
  }

  lemma {:induction false} FeedZeros(P: Poly, R: Poly, k: nat)
    requires |P| == |R| + 1 && |R| >= 1
    ensures Feed(P, R, Zeros(k)) == StepN(P, R, k)
    decreases k
  {
    if k > 0 {
      assert Zeros(k) == [false] + Zeros(k - 1);
      FeedAppend(P, R, [false], Zeros(k - 1));
      FeedOne(P, R, false);
      FeedZeros(P, Step(P, R), k - 1);
    }
  }

  /** No bit reaches the top in the first k shifts when the k top bits are clear. */
  lemma {:induction false} StepNFree(P: Poly, R: Poly, k: nat)
    requires |P| == |R| + 1 && |R| >= 1 && k <= |R|
    requires forall i :: 0 <= i < k ==> !R[i]
    ensures StepN(P, R, k) == R[k..] + Zeros(k)
    decreases k
  {
    if k == 0 {
      assert R[0..] + Zeros(0) == R;
    } else {
      var R' := Step(P, R);
      assert R' == R[1..] + [false];
      StepNFree(P, R', k - 1);
      assert R'[k - 1..] == R[k..] + [false];
      assert [false] + Zeros(k - 1) == Zeros(k);
      assert R'[k - 1..] + Zeros(k - 1) == R[k..] + ([false] + Zeros(k - 1));
    }
  }

  /** A whole block at once: the bits that leave the register, corrected by the new
      ones, are looked up; the rest only moves. */
  lemma {:induction false} FeedBlock(P: Poly, R: Poly, B: Poly)
    requires |P| == |R| + 1 && |R| >= 1 && |B| <= |R|
    ensures Feed(P, R, B)
         == var k, n := |B|, |R|;
            Xors(R[k..] + Zeros(k), StepN(P, Xors(R[..k], B) + Zeros(n - k), k))
  {
    hide Feed, StepN, Zeros, Xors;
    var k, n := |B|, |R|;
    var lo := Zeros(k) + R[k..];
    var hi := Xors(R[..k], B) + Zeros(n - k);
    FeedIsStep(P, R, B);
    assert Xors(R, B + Zeros(n - k)) == Xors(lo, hi);
    StepNLinear(P, lo, hi, k);
    StepNFree(P, lo, k);
    assert lo[k..] == R[k..];
  }

  lemma {:induction false} StepNZero(P: Poly, n: nat, k: nat)
    requires |P| == n + 1 && n >= 1
    ensures StepN(P, Zeros(n), k) == Zeros(n)
    decreases k
  {
    if k > 0 {
      assert Step(P, Zeros(n)) == Zeros(n);
      StepNZero(P, n, k - 1);
    }
  }

  // ----- division

  /** Division: message * x^n == quotient * P + remainder. */
  lemma {:induction false} DivisionIdentity(P: Poly, S: Poly)
    requires IsGenerator(P)
    ensures Mul(Quotient(P, S), P) == S + Remainder(P, S)
    decreases |S|
  {
    assert |P| >= 2;
    hide *;
    if S == [] {
      DivisionBase(P, S);
    } else {
      var k := |S| - 1;
      var q, R := Quotient(P, S[..k]), Remainder(P, S[..k]);
      DivisionTurn(P, S);
      DivisionIdentity(P, S[..k]);
      MulSnoc(q, R[0] != S[k], P);
      DivisionStep(P, S[..k], R, S[k]);
      SplitLast(S);
    }
  }

  lemma {:induction false} SplitLast(S: Poly)
    requires S != []
    ensures S == S[..|S| - 1] + [S[|S| - 1]]
  {}

  lemma {:induction false} DivisionBase(P: Poly, S: Poly)
    requires |P| >= 2 && S == []
    ensures Mul(Quotient(P, S), P) == S + Remainder(P, S)
  {
    assert S + Remainder(P, S) == Remainder(P, S);
  }

  lemma {:induction false} DivisionTurn(P: Poly, S: Poly)
    requires |P| >= 2 && S != []
    ensures var k := |S| - 1;
            var R := Remainder(P, S[..k]);
            && Quotient(P, S) == Quotient(P, S[..k]) + [R[0] != S[k]]
            && Remainder(P, S) == FeedBit(P, R, S[k])
  {
    hide FeedBit, Zeros;
  }

  /** Subtracting P under the bit that leaves the register restores the message bit. */
  lemma {:induction false} DivisionStep(P: Poly, S: Poly, R: Poly, b: bool)
    requires IsGenerator(P) && |P| == |R| + 1
    ensures S + [b] + FeedBit(P, R, b)
         == var hi := S + R + [false]; if R[0] != b then Xors(hi, Zeros(|S|) + P) else hi
  {
    hide FeedBit, Xors, Zeros;
    FeedBitTurn(P, R, b);
    XorsBehind(S, R + [false], P);
    Joined(S, [b], FeedBit(P, R, b));
    Joined(S, R, [false]);
  }

  lemma {:induction false} Joined(a: Poly, b: Poly, c: Poly)
    ensures a + b + c == a + (b + c)
  {}

  lemma {:induction false} FeedBitTurn(P: Poly, R: Poly, b: bool)
    requires IsGenerator(P) && |P| == |R| + 1
    ensures [b] + FeedBit(P, R, b) == if R[0] != b then Xors(R + [false], P) else R + [false]
  {
    FeedBitAt(P, R, b);
    var f, t := FeedBit(P, R, b), R + [false];
    hide *;
    if R[0] != b {
      var x := Xors(t, P);
      forall i | 0 < i <= |R| ensures f[i - 1] == x[i] { assert t[i] == ((i - 1) + 1 < |R| && R[(i - 1) + 1]); }
      SameFirst(b, f, x);
    } else {
      forall i | 0 < i <= |R| ensures f[i - 1] == t[i] { assert t[i] == ((i - 1) + 1 < |R| && R[(i - 1) + 1]); }
      SameFirst(b, f, t);
    }
  }

  lemma {:induction false} SameFirst(b: bool, f: Poly, x: Poly)
    requires |x| == |f| + 1 && x[0] == b && forall i :: 0 < i <= |f| ==> f[i - 1] == x[i]
    ensures [b] + f == x
  {}

  lemma {:induction false} FeedBitAt(P: Poly, R: Poly, b: bool)
    requires |P| == |R| + 1 && |R| >= 1
    ensures forall i :: 0 <= i < |R| ==>
              FeedBit(P, R, b)[i] == ((i < |R| - 1 && R[i + 1]) != (R[0] != b && P[i + 1]))
  {}

  lemma {:induction false} XorsBehind(a: Poly, b: Poly, c: Poly)
    requires |b| == |c|
    ensures Xors(a + b, Zeros(|a|) + c) == a + Xors(b, c)
  {}

  /** A product whose top |d| coefficients vanish has the factor zero. */
  lemma {:induction false} MulZeroTop(d: Poly, P: Poly)
    requires IsGenerator(P)
    requires forall i :: 0 <= i < |d| ==> !Mul(d, P)[i]
    ensures d == Zeros(|d|) && Mul(d, P) == Zeros(|d| + |P| - 1)
    decreases |d|
  {
    if d != [] {
      var k := |d| - 1;
      var hi := Mul(d[..k], P) + [false];
      forall i | 0 <= i < k ensures !Mul(d[..k], P)[i] {
        assert !Mul(d, P)[i];
        assert Mul(d, P)[i] == hi[i] == Mul(d[..k], P)[i];
      }
      MulZeroTop(d[..k], P);
      assert !hi[k];
      assert Mul(d, P)[k] == d[k];
      assert d == d[..k] + [d[k]];
    }
  }

  /** Only one word of n bits completes a message to a multiple of P. */
  lemma {:induction false} RemainderUnique(P: Poly, S: Poly, q: Poly, R: Poly)
    requires IsGenerator(P) && |q| == |S| && |R| == |P| - 1
    requires Mul(q, P) == S + R
    ensures R == Remainder(P, S) && q == Quotient(P, S)
  {
    var q', R' := Quotient(P, S), Remainder(P, S);
    DivisionIdentity(P, S);
    MulLinear(q, q', P);
    var d := Xors(q, q');
    hide Mul, Quotient, Remainder, IsGenerator;
    assert Mul(d, P) == Xors(S + R, S + R');
    MulZeroTop(d, P);
    forall i | 0 <= i < |R| ensures R[i] == R'[i] {
      assert Mul(d, P)[|S| + i] == (R[i] != R'[i]);
    }
    forall i | 0 <= i < |q| ensures q[i] == q'[i] {
      assert !d[i];
    }
  }

  lemma {:induction false} MulLowZeros(q: Poly, k: nat, P: Poly)
    requires |P| >= 1
    ensures Mul(q + Zeros(k), P) == Mul(q, P) + Zeros(k)
    decreases k
  {
    hide Mul, Zeros, Xors;
    if k == 0 {
      assert q + Zeros(0) == q && Mul(q, P) + Zeros(0) == Mul(q, P);
    } else {
      MulLowZeros(q, k - 1, P);
      MulSnoc(q + Zeros(k - 1), false, P);
      ZerosSnoc(q, k - 1);
      ZerosSnoc(Mul(q, P), k - 1);
    }
  }

  lemma {:induction false} ZerosSnoc(s: Poly, k: nat)
    ensures s + Zeros(k + 1) == s + Zeros(k) + [false]
  {}

  lemma {:induction false} XorsPrefix(k: nat, a: Poly, b: Poly)
    requires |a| == |b|
    ensures Xors(Zeros(k) + a, Zeros(k) + b) == Zeros(k) + Xors(a, b)
  {
    var l, r := Xors(Zeros(k) + a, Zeros(k) + b), Zeros(k) + Xors(a, b);
    forall i | 0 <= i < |l| ensures l[i] == r[i] {
      if i >= k { assert (Zeros(k) + a)[i] == a[i - k] && (Zeros(k) + b)[i] == b[i - k]; }
    }
  }

  lemma {:induction false} MulHighZeros(q: Poly, k: nat, P: Poly)
    requires |P| >= 1
    ensures Mul(Zeros(k) + q, P) == Zeros(k) + Mul(q, P)
    decreases |q|
  {
    if q == [] {
      assert Zeros(k) + q == [] + Zeros(k);
      MulLowZeros([], k, P);
      assert Zeros(|P| - 1) + Zeros(k) == Zeros(k) + Zeros(|P| - 1);
    } else {
      var j := |q| - 1;
      var p, b := q[..j], q[j];
      MulHighZeros(p, k, P);
      calc {
        Mul(Zeros(k) + q, P);
        { assert Zeros(k) + q == Zeros(k) + p + [b]; }
        Mul(Zeros(k) + p + [b], P);
        { MulHighSnoc(p, b, k, P); }
        Zeros(k) + Mul(p + [b], P);
        { assert p + [b] == q; }
        Zeros(k) + Mul(q, P);
      }
    }
  }

  lemma {:induction false} MulHighSnoc(p: Poly, b: bool, k: nat, P: Poly)
    requires |P| >= 1 && Mul(Zeros(k) + p, P) == Zeros(k) + Mul(p, P)
    ensures Mul(Zeros(k) + p + [b], P) == Zeros(k) + Mul(p + [b], P)
  {
    hide Mul, Zeros, Xors;
    var hi := Mul(p, P) + [false];
    MulSnoc(Zeros(k) + p, b, P);
    MulSnoc(p, b, P);
    assert Mul(Zeros(k) + p, P) + [false] == Zeros(k) + hi;
    assert Zeros(k + |p|) + P == Zeros(k) + (Zeros(|p|) + P);
    XorsPrefix(k, hi, Zeros(|p|) + P);
  }

  lemma {:induction false} MulSnoc(q: Poly, b: bool, P: Poly)
    requires |P| >= 1
    ensures Mul(q + [b], P)
         == var hi := Mul(q, P) + [false]; if b then Xors(hi, Zeros(|q|) + P) else hi
  {
    assert (q + [b])[..|q + [b]| - 1] == q;
  }

  /** A constant term keeps x out of P: if x^k divides a product, it divides the factor. */
  lemma {:induction false} TrimZeros(q: Poly, P: Poly, k: nat)
    requires IsGenerator(P) && k <= |q|
    requires forall i :: |q| + |P| - 1 - k <= i < |q| + |P| - 1 ==> !Mul(q, P)[i]
    ensures q == q[..|q| - k] + Zeros(k)
    decreases k
  {
    if k > 0 {
      var j := |q| - 1;
      var hi := Mul(q[..j], P) + [false];
      var last := |hi| - 1;
      assert Mul(q, P)[last] == q[j];
      assert Mul(q, P) == hi;
      forall i | |q[..j]| + |P| - 1 - (k - 1) <= i < |q[..j]| + |P| - 1
        ensures !Mul(q[..j], P)[i]
      {
        assert Mul(q, P)[i] == Mul(q[..j], P)[i];
      }
      TrimZeros(q[..j], P, k - 1);
      assert Zeros(k - 1) + [false] == Zeros(k);
      assert q == q[..j] + [false];
      assert q[..j][..j - (k - 1)] == q[..|q| - k];
      assert q == q[..|q| - k] + (Zeros(k - 1) + [false]);
    }
  }

  /** Leading zeros do not matter to the remainder. */
  lemma {:induction false} RemainderOfPadded(P: Poly, S: Poly)
    requires |P| >= 2
    ensures Remainder(P, Zeros(|P| - 1) + S) == Remainder(P, S)
  {
    hide Feed, StepN, Zeros;
    var n := |P| - 1;
    FeedAppend(P, Zeros(n), Zeros(n), S);
    FeedZeros(P, Zeros(n), n);
    StepNZero(P, n, n);
  }

  lemma {:induction false} ZeroRemainderDivides(P: Poly, S: Poly)
    requires IsGenerator(P) && Remainder(P, S) == Zeros(|P| - 1)
    ensures MultipleOf(P, S)
  {
    hide Remainder, Quotient, Mul, Zeros;
    var n := |P| - 1;
    var T := Zeros(n) + S;
    RemainderOfPadded(P, S);
    DivisionIdentity(P, T);
    var q := Quotient(P, T);
    assert forall i :: |q| + |P| - 1 - n <= i < |q| + |P| - 1 ==> !Mul(q, P)[i];
    TrimZeros(q, P, n);
    var q' := q[..|q| - n];
    MulLowZeros(q', n, P);
    PrefixUnique(Mul(q', P), T, Zeros(n));
    assert |q'| == |S| && Mul(q', P) == Zeros(|P| - 1) + S;
  }

  lemma {:induction false} PrefixUnique(a: Poly, b: Poly, z: Poly)
    requires a + z == b + z
    ensures a == b
  {
    assert |a| == |b|;
    assert (a + z)[..|a|] == a && (b + z)[..|b|] == b;
  }

  lemma {:induction false} MultipleHasZeroRemainder(P: Poly, S: Poly)
    requires IsGenerator(P) && MultipleOf(P, S)
    ensures Remainder(P, S) == Zeros(|P| - 1)
  {
    var q: Poly :| |q| == |S| && Mul(q, P) == Zeros(|P| - 1) + S;
    hide Remainder, Quotient, Mul, Zeros;
    var n := |P| - 1;
    RemainderOfPadded(P, S);
    MulLowZeros(q, n, P);
    RemainderUnique(P, Zeros(n) + S, q + Zeros(n), Zeros(n));
  }

  /** The remainder is zero exactly when the generator divides the stream. */
  lemma {:induction false} RemainderZeroIffMultiple(P: Poly, S: Poly)
    requires IsGenerator(P)
    ensures Remainder(P, S) == Zeros(|P| - 1) <==> MultipleOf(P, S)
  {
    hide Remainder, MultipleOf, Zeros;
    if Remainder(P, S) == Zeros(|P| - 1) { ZeroRemainderDivides(P, S); }
    if MultipleOf(P, S) { MultipleHasZeroRemainder(P, S); }
  }

  /** A message followed by its remainder is a multiple of the generator. */
  lemma {:induction false} CodewordIsMultiple(P: Poly, S: Poly)
    requires IsGenerator(P)
    ensures MultipleOf(P, S + Remainder(P, S))
    ensures Remainder(P, S + Remainder(P, S)) == Zeros(|P| - 1)
  {
    var n := |P| - 1;
    DivisionIdentity(P, S);
    var q := Quotient(P, S);
    MulHighZeros(q, n, P);
    var C := S + Remainder(P, S);
    assert |Zeros(n) + q| == |C| && Mul(Zeros(n) + q, P) == Zeros(|P| - 1) + C;
    RemainderZeroIffMultiple(P, C);
  }

  /** Dividing a message followed by its own register, disturbed by X, leaves a
      residue that depends on X alone. */
  lemma {:induction false} Residue(P: Poly, I: Poly, S: Poly, X: Poly)
    requires |P| == |I| + 1 == |X| + 1 && |I| >= 1
    ensures Feed(P, I, S + Xors(Feed(P, I, S), X)) == StepN(P, X, |X|)
  {
    var R := Feed(P, I, S);
    var T := Xors(R, X);
    FeedAppend(P, I, S, T);
    FeedIsStep(P, R, T);
    assert Xors(R, T + Zeros(0)) == X;
  }

  /** The n bits that complete a message to a multiple of P are its remainder. */
  lemma {:induction false} CompletesIffRemainder(P: Poly, S: Poly, C: Poly)
    requires IsGenerator(P) && |C| == |P| - 1
    ensures C == Remainder(P, S) <==> MultipleOf(P, S + C)
  {
    var n := |P| - 1;
    CodewordIsMultiple(P, S);
    if MultipleOf(P, S + C) {
      RemainderZeroIffMultiple(P, S + C);
      FeedAppend(P, Zeros(n), S, C);
      var R := Remainder(P, S);
      FeedIsStep(P, R, C);
      assert C + Zeros(0) == C;
      if Xors(R, C) != Zeros(n) { StepNNonZero(P, Xors(R, C), n); }
      forall i | 0 <= i < n ensures R[i] == C[i] {
        assert !Xors(R, C)[i];
      }
    }
  }

  // ----- invertibility and error bursts

  /** Back undoes Step when P has its x^n term and its constant term. */
  lemma {:induction false} BackStep(P: Poly, R: Poly)
    requires IsGenerator(P) && |P| == |R| + 1
    ensures Back(P, Step(P, R)) == R
  {
    var n := |R|;
    var T := Step(P, R);
    assert T[n - 1] == R[0];
    assert R == [R[0]] + R[1..];
    if R[0] {
      assert Xors(T[..n - 1], P[1..n]) == R[1..];
    } else {
      assert T[..n - 1] == R[1..];
    }
  }

  lemma {:induction false} BackStepN(P: Poly, R: Poly, k: nat)
    requires IsGenerator(P) && |P| == |R| + 1
    ensures BackN(P, StepN(P, R, k), k) == R
    decreases k
  {
    hide Step, Back, Xors;
    if k > 0 {
      BackStepN(P, Step(P, R), k - 1);
      BackNTail(P, StepN(P, R, k), k - 1);
      BackStep(P, R);
    }
  }

  lemma {:induction false} BackNTail(P: Poly, R: Poly, k: nat)
    requires |P| == |R| + 1 && |R| >= 1
    ensures BackN(P, R, k + 1) == Back(P, BackN(P, R, k))
    decreases k
  {
    hide Back;
    if k > 0 { BackNTail(P, Back(P, R), k - 1); }
  }

  lemma {:induction false} StepBack(P: Poly, R: Poly)
    requires IsGenerator(P) && |P| == |R| + 1
    ensures Step(P, Back(P, R)) == R
  {
    var n := |R|;
    var T := Back(P, R);
    assert T[1..] == if R[n - 1] then Xors(R[..n - 1], P[1..n]) else R[..n - 1];
    forall i | 0 <= i < n ensures Step(P, T)[i] == R[i] {
      if i < n - 1 {
        assert T[1..][i] == if R[n - 1] then R[i] != P[i + 1] else R[i];
      }
    }
  }

  /** Going back from a register that is not zero never reaches zero, and conversely. */
  lemma {:induction false} BackNZero(P: Poly, R: Poly, k: nat)
    requires IsGenerator(P) && |P| == |R| + 1
    ensures BackN(P, R, k) == Zeros(|R|) <==> R == Zeros(|R|)
    decreases k
  {
    hide Step, Back, Zeros;
    if k > 0 {
      BackNZero(P, Back(P, R), k - 1);
      StepBack(P, R);
      ZeroFixed(P, |R|);
    }
  }

  lemma {:induction false} ZeroFixed(P: Poly, n: nat)
    requires |P| == n + 1 && n >= 1
    ensures Step(P, Zeros(n)) == Zeros(n)
    ensures Back(P, Zeros(n)) == Zeros(n)
  {
    assert [false] + Zeros(n)[..n - 1] == Zeros(n);
    assert Zeros(n)[1..] + [false] == Zeros(n);
  }

  lemma {:induction false} BackNOfZero(P: Poly, n: nat, k: nat)
    requires |P| == n + 1 && n >= 1
    ensures BackN(P, Zeros(n), k) == Zeros(n)
    decreases k
  {
    hide Back, Zeros;
    if k > 0 {
      ZeroFixed(P, n);
      BackNOfZero(P, n, k - 1);
    }
  }

  lemma {:induction false} BackLinear(P: Poly, A: Poly, B: Poly, k: nat)
    requires |P| == |A| + 1 == |B| + 1 && |A| >= 1
    ensures BackN(P, Xors(A, B), k) == Xors(BackN(P, A, k), BackN(P, B, k))
    decreases k
  {
    hide Back, Xors;
    if k > 0 {
      BackOneLinear(P, A, B);
      BackLinear(P, Back(P, A), Back(P, B), k - 1);
    }
  }

  lemma {:induction false} BackOneLinear(P: Poly, A: Poly, B: Poly)
    requires |P| == |A| + 1 == |B| + 1 && |A| >= 1
    ensures Back(P, Xors(A, B)) == Xors(Back(P, A), Back(P, B))
  {
    var l, r := Back(P, Xors(A, B)), Xors(Back(P, A), Back(P, B));
    hide Back;
    forall i | 0 <= i < |A| ensures l[i] == r[i] {
      BackAt(P, A, i);
      BackAt(P, B, i);
      BackAt(P, Xors(A, B), i);
    }
  }

  lemma {:induction false} BackAt(P: Poly, R: Poly, i: nat)
    requires |P| == |R| + 1 && i < |R|
    ensures var n := |R|;
            Back(P, R)[i] == if i == 0 then R[n - 1] && P[0] else R[i - 1] != (R[n - 1] && P[i])
  {
    var n := |R|;
    if i > 0 {
      assert R[..n - 1][i - 1] == R[i - 1];
      if R[n - 1] { assert P[1..n][i - 1] == P[i]; }
    }
  }

  /** Going back and forth. */
  lemma {:induction false} StepBackN(P: Poly, R: Poly, k: nat)
    requires IsGenerator(P) && |P| == |R| + 1
    ensures StepN(P, BackN(P, R, k), k) == R
    decreases k
  {
    hide Step, Back;
    if k > 0 {
      BackNTail(P, R, k - 1);
      StepBack(P, BackN(P, R, k - 1));
      StepBackN(P, R, k - 1);
    }
  }

  /** Whatever stands in front of them, n more bits can lead to any register. */
  lemma {:induction false} AnyRegister(P: Poly, I: Poly, S: Poly, T: Poly) returns (B: Poly)
    requires IsGenerator(P) && |P| == |I| + 1 == |T| + 1
    ensures |B| == |T| && Feed(P, I, S + B) == T
  {
    hide Feed, StepN, BackN;
    var R, D := Feed(P, I, S), BackN(P, T, |T|);
    B := Xors(R, D);
    assert Xors(R, B) == D;
    assert Zeros(0) == [] && B + [] == B;
    FeedIsStep(P, R, B);
    StepBackN(P, T, |T|);
    FeedAppend(P, I, S, B);
  }

  predicate TopClear(R: Poly, k: nat)
    requires k <= |R|
  {
    forall i :: 0 <= i < k ==> !R[i]
  }

  /** The bits that leave the register at the top in k shifts, the first one first. */
  function Leaving(P: Poly, R: Poly, k: nat): (l: Poly)
    requires |P| == |R| + 1 && |R| >= 1
    ensures |l| == k
    decreases k
  {
    if k == 0 then [] else [R[0]] + Leaving(P, Step(P, R), k - 1)
  }

  /** Nothing leaves exactly when the top is clear beforehand. */
  lemma {:induction false} LeavingClear(P: Poly, R: Poly, k: nat)
    requires |P| == |R| + 1 && |R| >= 1 && k <= |R|
    ensures Leaving(P, R, k) == Zeros(k) <==> TopClear(R, k)
    decreases k
  {
    if k > 0 {
      assert Zeros(k) == [false] + Zeros(k - 1);
      if R[0] {
        assert Leaving(P, R, k)[0] && !Zeros(k)[0];
      } else {
        var R', l := Step(P, R), Leaving(P, Step(P, R), k - 1);
        LeavingClear(P, R', k - 1);
        assert R' == R[1..] + [false] && Leaving(P, R, k)[1..] == l;
        TopShifts(R, R', k);
      }
    }
  }

  lemma {:induction false} TopShifts(R: Poly, R': Poly, k: nat)
    requires |R| == |R'| && 1 <= k <= |R| && !R[0] && R' == R[1..] + [false]
    ensures TopClear(R, k) <==> TopClear(R', k - 1)
  {
    if TopClear(R', k - 1) {
      forall i | 0 <= i < k ensures !R[i] { if i > 0 { assert R[i] == R'[i - 1]; } }
    }
  }

  /** A generator written without its x^n term. */
  function Truncated(P: Poly): (w: Poly)
    requires |P| >= 1
    ensures |w| == |P|
  {
    P[0 := false]
  }

  /** The register but for the bits that leave it, which are missing in its top places. */
  function Lossy(P: Poly, R: Poly, k: nat): (r: Poly)
    requires |P| == |R| + 1 && |R| >= 1 && k <= |R|
    ensures |r| == |R|
  {
    Xors(R, Leaving(P, R, k) + Zeros(|R| - k))
  }

  /** What stepping back with such a word leaves of the register. */
  lemma {:induction false} TruncatedBack(P: Poly, R: Poly, k: nat)
    requires IsGenerator(P) && |P| == |R| + 1 && k <= |R|
    ensures BackN(Truncated(P), StepN(P, R, k), k) == Lossy(P, R, k)
    decreases k
  {
    hide Lossy, Truncated, Step, Back;
    if k == 0 {
      LossyStart(P, R);
    } else {
      var R' := Step(P, R);
      TruncatedBack(P, R', k - 1);
      BackNTail(Truncated(P), StepN(P, R', k - 1), k - 1);
      LossyTurn(P, R, k);
    }
  }

  lemma {:induction false} LossyStart(P: Poly, R: Poly)
    requires |P| == |R| + 1 && |R| >= 1
    ensures Lossy(P, R, 0) == R
  {
    XorsNothing(R, Leaving(P, R, 0) + Zeros(|R|));
  }

  lemma {:induction false} LossyTurn(P: Poly, R: Poly, k: nat)
    requires IsGenerator(P) && |P| == |R| + 1 && 1 <= k <= |R|
    ensures Back(Truncated(P), Lossy(P, Step(P, R), k - 1)) == Lossy(P, R, k)
  {
    hide Step, Back, Xors, Truncated, IsGenerator;
    TruncatedTurn(P, R, Step(P, R), Leaving(P, Step(P, R), k - 1));
  }

  /** One turn more, when the bits l are missing from R'. */
  lemma {:induction false} TruncatedTurn(P: Poly, R: Poly, R': Poly, l: Poly)
    requires IsGenerator(P) && |P| == |R| + 1 && |l| < |R| && R' == Step(P, R)
    ensures Back(Truncated(P), Xors(R', l + Zeros(|R| - |l|)))
         == Xors(R, [R[0]] + l + Zeros(|R| - (|l| + 1)))
  {
    hide *;
    var W, k := Truncated(P), |R| - |l| - 1;
    BackOneLinear(W, R', l + Zeros(k + 1));
    BackShifts(W, l, k);
    TruncatedStep(P, R);
    XorsNested(R, R[0], l + Zeros(k));
    assert [R[0]] + (l + Zeros(k)) == [R[0]] + l + Zeros(k);
  }

  lemma {:induction false} XorsNothing(R: Poly, Z: Poly)
    requires Z == Zeros(|R|)
    ensures Xors(R, Z) == R
  {}

  /** A clear low bit just shifts. */
  lemma {:induction false} BackShifts(P: Poly, l: Poly, k: nat)
    requires |P| == |l| + k + 2
    ensures Back(P, l + Zeros(k + 1)) == [false] + (l + Zeros(k))
  {
    var R := l + Zeros(k + 1);
    assert !R[|l| + k];
    assert R[..|l| + k] == l + Zeros(k);
  }

  /** One step and back: the top bit is lost. */
  lemma {:induction false} TruncatedStep(P: Poly, R: Poly)
    requires IsGenerator(P) && |P| == |R| + 1
    ensures Back(Truncated(P), Step(P, R)) == [false] + R[1..]
  {
    var n, W, T := |R|, Truncated(P), Step(P, R);
    assert T[n - 1] == R[0];
    var r := [false] + R[1..];
    forall i | 0 <= i < n ensures Back(W, T)[i] == r[i] {
      BackAt(W, T, i);
      if i > 0 {
        StepAt(P, R, i - 1);
        assert r[i] == R[i];
      }
    }
  }

  lemma {:induction false} StepAt(P: Poly, R: Poly, i: nat)
    requires |P| == |R| + 1 && i + 1 < |R|
    ensures Step(P, R)[i] == (R[i + 1] != (R[0] && P[i + 1]))
  {
    assert (R[1..] + [false])[i] == R[i + 1] && P[1..][i] == P[i + 1];
  }

  lemma {:induction false} XorsNested(R: Poly, b: bool, l: Poly)
    requires |R| == |l| + 1 && b == R[0]
    ensures Xors([false] + R[1..], [false] + l) == Xors(R, [b] + l)
  {}

  /** So the register comes back whole exactly when no bit has left it on the way. */
  lemma {:induction false} TruncatedBackIff(P: Poly, R: Poly, k: nat)
    requires IsGenerator(P) && |P| == |R| + 1 && k <= |R|
    ensures BackN(Truncated(P), StepN(P, R, k), k) == R <==> TopClear(R, k)
  {
    var l, n := Leaving(P, R, k), |R|;
    hide Step, StepN, BackN, Xors, Truncated;
    TruncatedBack(P, R, k);
    LeavingClear(P, R, k);
    XorsSelf(R, l + Zeros(n - k));
    ZerosBehind(l, n);
  }

  lemma {:induction false} ZerosBehind(l: Poly, n: nat)
    requires |l| <= n
    ensures l + Zeros(n - |l|) == Zeros(n) <==> l == Zeros(|l|)
  {
    var k := |l|;
    assert (l + Zeros(n - k))[..k] == l && Zeros(n)[..k] == Zeros(k);
    assert Zeros(k) + Zeros(n - k) == Zeros(n);
  }

  /** A register that is not zero stays so under any number of shifts. */
  lemma {:induction false} StepNNonZero(P: Poly, R: Poly, k: nat)
    requires IsGenerator(P) && |P| == |R| + 1 && R != Zeros(|R|)
    ensures StepN(P, R, k) != Zeros(|R|)
  {
    if StepN(P, R, k) == Zeros(|R|) {
      StepNZero(P, |R|, k);
      BackStepN(P, R, k);
      BackStepN(P, Zeros(|R|), k);
    }
  }

  /** A window of at most n bits leaves the register nonzero. */
  lemma {:induction false} WindowNonZero(P: Poly, W: Poly)
    requires IsGenerator(P) && |W| <= |P| - 1 && true in W
    ensures Remainder(P, W) != Zeros(|P| - 1)
  {
    hide Feed, StepN, Zeros, Xors;
    var n := |P| - 1;
    var top := W + Zeros(n - |W|);
    FeedIsStep(P, Zeros(n), W);
    assert Xors(Zeros(n), top) == top;
    var i :| 0 <= i < |W| && W[i];
    assert top[i] && !Zeros(n)[i];
    StepNNonZero(P, top, |W|);
  }

  /** An error confined to a window of at most n bits never divides by P. */
  lemma {:induction false} BurstNonZero(P: Poly, before: nat, W: Poly, after: nat)
    requires IsGenerator(P) && |W| <= |P| - 1 && true in W
    ensures Remainder(P, Zeros(before) + W + Zeros(after)) != Zeros(|P| - 1)
  {
    var n := |P| - 1;
    var Z := Zeros(n);
    FeedZeros(P, Z, before);
    StepNZero(P, n, before);
    FeedAppend(P, Z, Zeros(before), W);
    WindowNonZero(P, W);
    var R := Remainder(P, W);
    FeedAppend(P, Z, Zeros(before) + W, Zeros(after));
    FeedZeros(P, R, after);
    StepNNonZero(P, R, after);
  }

  /** Two streams agree except inside a window of n bits from lo on. */
  predicate SameOutside(S: Poly, T: Poly, lo: nat, n: nat)
    requires |S| == |T|
  {
    forall i :: 0 <= i < |S| && !(lo <= i < lo + n) ==> S[i] == T[i]
  }

  /** The registers of two streams differ by the remainder of their difference. */
  lemma {:induction false} RegisterDifference(P: Poly, I: Poly, S: Poly, T: Poly)
    requires |P| == |I| + 1 && |I| >= 1 && |S| == |T|
    ensures Feed(P, I, T) == Xors(Feed(P, I, S), Remainder(P, Xors(S, T)))
  {
    var Z := Zeros(|I|);
    FeedLinear(P, I, Z, S, Xors(S, T));
    assert Xors(I, Z) == I;
    assert Xors(S, Xors(S, T)) == T;
  }

  lemma {:induction false} BurstChangesRegister(P: Poly, I: Poly, S: Poly, T: Poly, lo: nat)
    requires IsGenerator(P) && |P| == |I| + 1 && |S| == |T| && S != T
    requires SameOutside(S, T, lo, |I|)
    ensures Feed(P, I, T) != Feed(P, I, S)
  {
    hide Feed, Remainder;
    var n := |I|;
    var E := Xors(S, T);
    var hi := if lo + n <= |S| then lo + n else |S|;
    BurstWindow(S, T, lo, n, hi);
    hide SameOutside, Zeros, Xors;
    BurstNonZero(P, lo, E[lo..hi], |S| - hi);
    RegisterDifference(P, I, S, T);
    XorsSelf(Feed(P, I, S), Remainder(P, E));
  }

  /** The difference is a window with zeros around it. */
  lemma {:induction false} BurstWindow(S: Poly, T: Poly, lo: nat, n: nat, hi: nat)
    requires |S| == |T| && S != T && SameOutside(S, T, lo, n)
    requires hi == if lo + n <= |S| then lo + n else |S|
    ensures lo <= hi <= |S|
    ensures true in Xors(S, T)[lo..hi]
    ensures Xors(S, T) == Zeros(lo) + Xors(S, T)[lo..hi] + Zeros(|S| - hi)
  {
    var E := Xors(S, T);
    var k :| 0 <= k < |S| && S[k] != T[k];
    assert E[lo..hi][k - lo];
  }

  lemma {:induction false} XorsSelf(a: Poly, d: Poly)
    requires |a| == |d|
    ensures Xors(a, d) == a <==> d == Zeros(|d|)
  {
    if Xors(a, d) == a {
      assert forall i :: 0 <= i < |d| ==> Xors(a, d)[i] == a[i] && d[i] == Zeros(|d|)[i];
    }
  }

  // ----- parity

  /** Whether an odd number of coefficients is set, that is, the value at x = 1. */
  function Parity(S: Poly): bool {
    if S == [] then false else Parity(S[..|S| - 1]) != S[|S| - 1]
  }

  lemma {:induction false} ParityAppend(S: Poly, T: Poly)
    ensures Parity(S + T) == (Parity(S) != Parity(T))
    decreases |T|
  {
    if T == [] {
      assert S + T == S;
    } else {
      var k := |T| - 1;
      assert (S + T)[..|S| + k] == S + T[..k];
      ParityAppend(S, T[..k]);
    }
  }

  lemma {:induction false} ParityZeros(k: nat)
    ensures !Parity(Zeros(k))
  {
    if k > 0 {
      assert Zeros(k)[..k - 1] == Zeros(k - 1);
      ParityZeros(k - 1);
    }
  }

  lemma {:induction false} ParityXors(S: Poly, T: Poly)
    requires |S| == |T|
    ensures Parity(Xors(S, T)) == (Parity(S) != Parity(T))
    decreases |S|
  {
    if S != [] {
      var k := |S| - 1;
      assert Xors(S, T)[..k] == Xors(S[..k], T[..k]);
      ParityXors(S[..k], T[..k]);
    }
  }

  /** Evaluation at x = 1 is multiplicative. */
  lemma {:induction false} ParityMul(q: Poly, P: Poly)
    requires |P| >= 1
    ensures Parity(Mul(q, P)) == (Parity(q) && Parity(P))
    decreases |q|
  {
    if q == [] {
      ParityZeros(|P| - 1);
    } else {
      var k := |q| - 1;
      var hi := Mul(q[..k], P) + [false];
      ParityMul(q[..k], P);
      ParityAppend(Mul(q[..k], P), [false]);
      assert Parity([false]) == false by { assert [false][..0] == []; }
      if q[k] {
        ParityXors(hi, Zeros(k) + P);
        ParityAppend(Zeros(k), P);
        ParityZeros(k);
      }
    }
  }

  /** A generator with an even number of terms only has multiples of even weight. */
  lemma {:induction false} MultipleIsEven(P: Poly, S: Poly)
    requires |P| >= 1 && !Parity(P) && MultipleOf(P, S)
    ensures !Parity(S)
  {
    var q: Poly :| |q| == |S| && Mul(q, P) == Zeros(|P| - 1) + S;
    hide *;
    ProductIsEven(q, P, S);
  }

  lemma {:induction false} ProductIsEven(q: Poly, P: Poly, S: Poly)
    requires |P| >= 1 && !Parity(P) && Mul(q, P) == Zeros(|P| - 1) + S
    ensures !Parity(S)
  {
    hide Mul, Parity, Zeros;
    ParityMul(q, P);
    ParityAppend(Zeros(|P| - 1), S);
    ParityZeros(|P| - 1);
  }

  lemma {:induction false} OddChangesRegister(P: Poly, I: Poly, S: Poly, T: Poly)
    requires IsGenerator(P) && !Parity(P) && |P| == |I| + 1 && |S| == |T|
    requires Parity(Xors(S, T))
    ensures Feed(P, I, T) != Feed(P, I, S)
  {
    var E := Xors(S, T);
    RegisterDifference(P, I, S, T);
    XorsSelf(Feed(P, I, S), Remainder(P, E));
    RemainderZeroIffMultiple(P, E);
    if MultipleOf(P, E) { MultipleIsEven(P, E); }
  }
}
