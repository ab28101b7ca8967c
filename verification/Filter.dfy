/** The streaming interpolating and decimating filter of modules/CPLX_FILTER, in exact
    arithmetic, against its definition: stuff zeros, convolve, keep every D-th value. */
module Filter {
  import opened Arithmetic

  datatype Complex = Complex(re: real, im: real)

  const ZERO := Complex(0.0, 0.0)

  function Add(a: Complex, b: Complex): Complex {
    Complex(a.re + b.re, a.im + b.im)
  }

  function Times(a: Complex, b: Complex): Complex {
    Complex(a.re * b.re - a.im * b.im, a.re * b.im + a.im * b.re)
  }

  type Samples = seq<Complex>

  // ----- the numbers

  const ONE := Complex(1.0, 0.0)
  const UNIT := Complex(0.0, 1.0)

  function Real(a: real): Complex { Complex(a, 0.0) }

  function SquaredNorm(a: Complex): real {
    a.re * a.re + a.im * a.im
  }

  /** Sums: associative, commutative, with a zero; real numbers keep theirs. */
  lemma {:induction false} Sums(a: Complex, b: Complex, c: Complex, x: real, y: real)
    ensures Add(a, b) == Add(b, a) && Add(Add(a, b), c) == Add(a, Add(b, c)) && Add(a, ZERO) == a
    ensures Add(Real(x), Real(y)) == Real(x + y)
  {}

  /** Products: associative, commutative, with a one, and distributive; real numbers keep
      theirs, and i is a root of -1 that makes every number from two real ones. */
  lemma {:induction false} Products(a: Complex, b: Complex, c: Complex, x: real, y: real)
    ensures Times(a, b) == Times(b, a) && Times(a, ONE) == a && Times(a, ZERO) == ZERO
    ensures Times(Times(a, b), c) == Times(a, Times(b, c))
    ensures Times(a, Add(b, c)) == Add(Times(a, b), Times(a, c))
    ensures Times(Real(x), Real(y)) == Real(x * y)
    ensures Times(UNIT, UNIT) == Real(-1.0)
    ensures a == Add(Real(a.re), Times(UNIT, Real(a.im)))
  {
    TimesAssociative(a, b, c);
    TimesDistributes(a, b, c);
  }

  lemma {:induction false} TimesAssociative(a: Complex, b: Complex, c: Complex)
    ensures Times(Times(a, b), c) == Times(a, Times(b, c))
  {
    var l, r := Times(Times(a, b), c), Times(a, Times(b, c));
    assert l.re == a.re * b.re * c.re - a.im * b.im * c.re - a.re * b.im * c.im - a.im * b.re * c.im;
    assert r.re == a.re * b.re * c.re - a.re * b.im * c.im - a.im * b.re * c.im - a.im * b.im * c.re;
    assert l.im == a.re * b.re * c.im - a.im * b.im * c.im + a.re * b.im * c.re + a.im * b.re * c.re;
    assert r.im == a.re * b.re * c.im + a.re * b.im * c.re + a.im * b.re * c.re - a.im * b.im * c.im;
  }

  lemma {:induction false} TimesDistributes(a: Complex, b: Complex, c: Complex)
    ensures Times(a, Add(b, c)) == Add(Times(a, b), Times(a, c))
  {}

  /** The squared norm of a product is the product of the squared norms. */
  lemma {:induction false} NormOfProduct(a: Complex, b: Complex)
    ensures SquaredNorm(Times(a, b)) == SquaredNorm(a) * SquaredNorm(b)
  {
    var x, y, z, w := a.re * b.re, a.im * b.im, a.re * b.im, a.im * b.re;
    assert x * y == z * w;
    assert SquaredNorm(Times(a, b)) == (x * x + y * y) + (z * z + w * w);
    assert x * x == (a.re * a.re) * (b.re * b.re) && y * y == (a.im * a.im) * (b.im * b.im);
    assert z * z == (a.re * a.re) * (b.im * b.im) && w * w == (a.im * a.im) * (b.re * b.re);
  }

  // ----- definition

  /** The input with I - 1 zeros after every sample; zero outside the input. */
  function Stuffed(x: Samples, I: nat, t: int): Complex
    requires I >= 1
  {
    if t < 0 || t % I != 0 || t / I >= |x| then ZERO else x[t / I]
  }

  /** The first T terms of the convolution of the stuffed input with h, at p. */
  function Convolution(x: Samples, h: Samples, I: nat, p: nat, T: nat): Complex
    requires I >= 1 && T <= |h|
  {
    if T == 0 then ZERO
    else Add(Convolution(x, h, I, p, T - 1), Times(Under(x, I, p, T - 1), h[T - 1]))
  }

  /** The stuffed sample that tap t meets at position p. */
  function Under(x: Samples, I: nat, p: nat, t: nat): Complex
    requires I >= 1
  {
    Stuffed(x, I, p - t)
  }

  /** The taps that the polyphase form uses: a whole number per phase. */
  function UsedTaps(h: Samples, I: nat): (T: nat)
    requires I >= 1
    ensures T <= |h| && T == |h| / I * I
  {
    assert |h| == I * (|h| / I) + |h| % I;
    |h| / I * I
  }

  /** Value p of the interpolated and filtered signal. */
  function Filtered(x: Samples, h: Samples, I: nat, p: nat): Complex
    requires I >= 1
  {
    Convolution(x, h, I, p, UsedTaps(h, I))
  }

  /** The filtered values at positions 0, D, 2D, ... below end. */
  function Decimated(x: Samples, h: Samples, I: nat, D: nat, end: nat): Samples
    requires I >= 1 && D >= 1
  {
    if end == 0 then []
    else
      Decimated(x, h, I, D, end - 1)
      + if (end - 1) % D == 0 then [Filtered(x, h, I, end - 1)] else []
  }

  /** All that the filter owes for the input x. */
  function Outputs(x: Samples, h: Samples, I: nat, D: nat): Samples
    requires I >= 1 && D >= 1
  {
    Decimated(x, h, I, D, |x| * I)
  }

  // ----- polyphase form

  /** What the delay line holds at j after c samples. */
  function Delayed(x: Samples, c: nat, j: nat): Complex
    requires c <= |x|
  {
    if j < c then x[c - 1 - j] else ZERO
  }

  /** The inner sum of phase n over the first J delayed samples. */
  function PhaseSum(x: Samples, h: Samples, I: nat, c: nat, n: nat, J: nat): Complex
    requires c <= |x| && n < I && J * I <= |h|
  {
    if J == 0 then ZERO
    else
      TapInRange(I, J, n);
      Add(PhaseSum(x, h, I, c, n, J - 1), Times(Delayed(x, c, J - 1), h[(J - 1) * I + n]))
  }

  lemma {:induction false} TapInRange(I: nat, J: nat, n: nat)
    requires n < I && J >= 1
    ensures 0 <= (J - 1) * I && (J - 1) * I + n < J * I
  {
    assert J * I == (J - 1) * I + I;
  }

  /** Of the I stuffed samples under one block of taps, only the one of phase n is not zero. */
  lemma {:induction false} StuffedBlock(x: Samples, I: nat, c: nat, n: nat, k: nat, s: nat)
    requires n < I && s < I && 1 <= c <= |x|
    ensures Stuffed(x, I, (c - 1) * I + n - (k * I + s)) == if s == n then Delayed(x, c, k) else ZERO
  {
    var p := (c - 1) * I + n - (k * I + s);
    if k < c {
      var q: nat := c - 1 - k;
      assert p == q * I + (n - s) by { MulMinus(I, c - 1, k); }
      if n >= s {
        DivModUnique(p, I, q, n - s);
      } else if q > 0 {
        assert I * (q - 1) == I * q - I;
        DivModUnique(p, I, q - 1, I + n - s);
      }
    } else {
      MulLeft(I, c, k);
      assert (c - 1) * I == c * I - I;
    }
  }

  lemma {:induction false} MulMinus(I: nat, a: nat, b: nat)
    requires b <= a
    ensures a * I - b * I == (a - b) * I
  {}

  lemma {:induction false} AddZero(a: Complex, b: Complex)
    ensures Add(a, Times(ZERO, b)) == a
  {}

  /** Taps base .. base + I meet a single sample v, at base + n. */
  ghost predicate OneSample(x: Samples, I: nat, p: nat, base: nat, n: nat, v: Complex)
    requires I >= 1
  {
    forall t :: base <= t < base + I ==> Under(x, I, p, t) == if t == base + n then v else ZERO
  }

  lemma {:induction false} BlockSum(x: Samples, h: Samples, I: nat, p: nat, base: nat, n: nat, s: nat, v: Complex)
    requires n < I && s <= I && base + I <= |h| && OneSample(x, I, p, base, n, v)
    ensures Convolution(x, h, I, p, base + s)
         == var before := Convolution(x, h, I, p, base);
            if s <= n then before else Add(before, Times(v, h[base + n]))
    decreases s
  {
    if s > 0 {
      hide Under, Add, Times;
      BlockSum(x, h, I, p, base, n, s - 1, v);
      AddZero(Convolution(x, h, I, p, base + s - 1), h[base + s - 1]);
    }
  }

  lemma {:induction false} PhaseBlock(x: Samples, I: nat, c: nat, n: nat, k: nat)
    requires n < I && 1 <= c <= |x|
    ensures OneSample(x, I, (c - 1) * I + n, k * I, n, Delayed(x, c, k))
  {
    hide Stuffed, Delayed;
    var p, base := (c - 1) * I + n, k * I;
    forall t | base <= t < base + I
      ensures Under(x, I, p, t) == if t == base + n then Delayed(x, c, k) else ZERO
    {
      StuffedBlock(x, I, c, n, k, t - base);
    }
  }

  lemma {:induction false} PhaseSumLast(x: Samples, h: Samples, I: nat, c: nat, n: nat, J: nat, base: nat)
    requires c <= |x| && n < I && J * I <= |h| && J >= 1 && base == (J - 1) * I
    ensures base + I == J * I
    ensures PhaseSum(x, h, I, c, n, J)
         == Add(PhaseSum(x, h, I, c, n, J - 1), Times(Delayed(x, c, J - 1), h[base + n]))
  {
    hide Delayed, Add, Times;
    assert J * I == (J - 1) * I + I;
  }

  lemma {:induction false} PhaseIsConvolution(x: Samples, h: Samples, I: nat, c: nat, n: nat, p: nat, J: nat)
    requires n < I && 1 <= c <= |x| && J * I <= |h| && p == (c - 1) * I + n
    ensures PhaseSum(x, h, I, c, n, J) == Convolution(x, h, I, p, J * I)
    decreases J
  {
    if J == 0 {
      assert J * I == 0;
    } else {
      hide Delayed, Add, Times, Convolution, OneSample, PhaseSum;
      var base := (J - 1) * I;
      PhaseSumLast(x, h, I, c, n, J, base);
      PhaseIsConvolution(x, h, I, c, n, p, J - 1);
      PhaseBlock(x, I, c, n, J - 1);
      BlockSum(x, h, I, p, base, n, I, Delayed(x, c, J - 1));
    }
  }

  /** Each phase of the fused loop computes the definition at its position. */
  lemma {:induction false} PhaseIsFiltered(x: Samples, h: Samples, I: nat, c: nat, n: nat)
    requires n < I && 1 <= c <= |x|
    ensures |h| / I * I <= |h|
    ensures PhaseSum(x, h, I, c, n, |h| / I) == Filtered(x, h, I, (c - 1) * I + n)
  {
    var T := UsedTaps(h, I);
    PhaseIsConvolution(x, h, I, c, n, (c - 1) * I + n, |h| / I);
  }

  // ----- the definition over a growing input

  lemma {:induction false} IndexBelow(I: nat, t: nat, n: nat)
    requires I >= 1 && t < n * I
    ensures t / I < n
  {
    if t / I >= n { MulLeft(I, n, t / I); }
  }

  /** A value depends on the input up to its position only. */
  lemma {:induction false} Causal(x: Samples, y: Samples, h: Samples, I: nat, p: nat, T: nat)
    requires I >= 1 && x <= y && p < |x| * I && T <= |h|
    ensures Convolution(x, h, I, p, T) == Convolution(y, h, I, p, T)
  {
    hide Add, Times;
    if T > 0 {
      Causal(x, y, h, I, p, T - 1);
      var t := p - (T - 1);
      if t >= 0 { IndexBelow(I, t, |x|); }
      assert Under(x, I, p, T - 1) == Under(y, I, p, T - 1);
    }
  }

  lemma {:induction false} DecimatedCausal(x: Samples, y: Samples, h: Samples, I: nat, D: nat, end: nat)
    requires I >= 1 && D >= 1 && x <= y && end <= |x| * I
    ensures Decimated(x, h, I, D, end) == Decimated(y, h, I, D, end)
  {
    hide Convolution, UsedTaps;
    if end > 0 {
      DecimatedCausal(x, y, h, I, D, end - 1);
      Causal(x, y, h, I, end - 1, UsedTaps(h, I));
    }
  }

  lemma {:induction false} DecimatedPrefix(x: Samples, h: Samples, I: nat, D: nat, a: nat, b: nat)
    requires I >= 1 && D >= 1 && a <= b
    ensures Decimated(x, h, I, D, a) <= Decimated(x, h, I, D, b)
    decreases b
  {
    hide Filtered;
    if a < b { DecimatedPrefix(x, h, I, D, a, b - 1); }
  }

  /** More input never changes the outputs already due. */
  lemma {:induction false} OutputsGrow(x: Samples, y: Samples, h: Samples, I: nat, D: nat)
    requires I >= 1 && D >= 1 && x <= y
    ensures Outputs(x, h, I, D) <= Outputs(y, h, I, D)
    ensures Outputs(x, h, I, D) == Decimated(y, h, I, D, |x| * I)
    ensures |x| * I <= |y| * I
  {
    hide Decimated;
    MulLeft(I, |x|, |y|);
    DecimatedCausal(x, y, h, I, D, |x| * I);
    DecimatedPrefix(y, h, I, D, |x| * I, |y| * I);
  }

  /** Output i is the filtered value at i * D; there is one for every multiple of D. */
  lemma {:induction false} DecimatedAt(x: Samples, h: Samples, I: nat, D: nat, end: nat)
    requires I >= 1 && D >= 1
    ensures |Decimated(x, h, I, D, end)| == (end + D - 1) / D
    ensures forall i :: 0 <= i < |Decimated(x, h, I, D, end)| ==>
              Decimated(x, h, I, D, end)[i] == Filtered(x, h, I, i * D)
  {
    hide Filtered;
    if end == 0 {
      DivModUnique(D - 1, D, 0, D - 1);
    } else {
      DecimatedAt(x, h, I, D, end - 1);
      var q, r := (end - 1) / D, (end - 1) % D;
      assert end - 1 == D * q + r;
      if r == 0 {
        if D > 1 { DivModUnique(end - 1 + D - 1, D, q, D - 1); } else { DivModUnique(end - 1, 1, q, 0); }
        assert D * (q + 1) == D * q + D;
        DivModUnique(end + D - 1, D, q + 1, 0);
        assert end - 1 == q * D;
      } else {
        assert D * (q + 1) == D * q + D;
        DivModUnique(end - 1 + D - 1, D, q + 1, r - 1);
        DivModUnique(end + D - 1, D, q + 1, r);
      }
    }
  }

  // ----- superposition and impulse response

  function Plus(x: Samples, y: Samples): (r: Samples)
    requires |x| == |y|
    ensures |r| == |x|
  {
    seq(|x|, i requires 0 <= i < |x| => Add(x[i], y[i]))
  }

  function Scaled(c: Complex, x: Samples): (r: Samples)
    ensures |r| == |x|
  {
    seq(|x|, i requires 0 <= i < |x| => Times(c, x[i]))
  }

  /** The sample that stands at position t, or -1 for a stuffed zero. */
  function StuffedIndex(I: nat, t: int, n: nat): (k: int)
    requires I >= 1
    ensures -1 <= k < n
  {
    if t < 0 || t % I != 0 || t / I >= n then -1 else t / I
  }

  lemma {:induction false} StuffedAt(x: Samples, I: nat, t: int)
    requires I >= 1
    ensures Stuffed(x, I, t) == var k := StuffedIndex(I, t, |x|); if k < 0 then ZERO else x[k]
  {}

  lemma {:induction false} UnderLinear(x: Samples, y: Samples, c: Complex, I: nat, p: nat, t: nat)
    requires I >= 1 && |x| == |y|
    ensures Under(Plus(x, Scaled(c, y)), I, p, t) == Add(Under(x, I, p, t), Times(c, Under(y, I, p, t)))
  {
    hide Stuffed, StuffedIndex, Add, Times;
    StuffedAt(x, I, p - t);
    StuffedAt(y, I, p - t);
    StuffedAt(Plus(x, Scaled(c, y)), I, p - t);
    ZeroTerm(c);
  }

  lemma {:induction false} ZeroTerm(c: Complex)
    ensures Add(ZERO, Times(c, ZERO)) == ZERO
  {}

  lemma {:induction false} ConvolutionNone(x: Samples, h: Samples, I: nat, p: nat)
    requires I >= 1
    ensures Convolution(x, h, I, p, 0) == ZERO
  {}

  lemma {:induction false} ConvolutionLast(x: Samples, h: Samples, I: nat, p: nat, T: nat)
    requires I >= 1 && 1 <= T <= |h|
    ensures Convolution(x, h, I, p, T) == Add(Convolution(x, h, I, p, T - 1), Times(Under(x, I, p, T - 1), h[T - 1]))
  {
    hide Under, Add, Times;
  }

  /** A term of the sum. */
  lemma {:induction false} TermLinear(s: Complex, t: Complex, u: Complex, v: Complex, c: Complex, h: Complex)
    ensures Add(Add(s, Times(c, t)), Times(Add(u, Times(c, v)), h))
         == Add(Add(s, Times(u, h)), Times(c, Add(t, Times(v, h))))
  {
    Products(h, u, Times(c, v), 0.0, 0.0);
    Products(Add(u, Times(c, v)), h, ZERO, 0.0, 0.0);
    Products(u, h, ZERO, 0.0, 0.0);
    Products(h, Times(c, v), ZERO, 0.0, 0.0);
    Products(c, v, h, 0.0, 0.0);
    Products(c, t, Times(v, h), 0.0, 0.0);
    hide Times;
  }

  lemma {:induction false} ConvolutionLinear(x: Samples, y: Samples, c: Complex, h: Samples, I: nat, p: nat, T: nat)
    requires I >= 1 && |x| == |y| && T <= |h|
    ensures Convolution(Plus(x, Scaled(c, y)), h, I, p, T)
         == Add(Convolution(x, h, I, p, T), Times(c, Convolution(y, h, I, p, T)))
  {
    hide *;
    var z := Plus(x, Scaled(c, y));
    if T == 0 {
      ZeroTerm(c);
      ConvolutionNone(x, h, I, p);
      ConvolutionNone(y, h, I, p);
      ConvolutionNone(z, h, I, p);
    } else {
      ConvolutionLinear(x, y, c, h, I, p, T - 1);
      UnderLinear(x, y, c, I, p, T - 1);
      TermLinear(Convolution(x, h, I, p, T - 1), Convolution(y, h, I, p, T - 1),
                 Under(x, I, p, T - 1), Under(y, I, p, T - 1), c, h[T - 1]);
      ConvolutionLast(x, h, I, p, T);
      ConvolutionLast(y, h, I, p, T);
      ConvolutionLast(z, h, I, p, T);
    }
  }

  /** The filter is linear: what it owes for a sum of inputs, one of them scaled, is the
      sum of what it owes for each, scaled likewise. */
  lemma {:induction false} OutputsLinear(x: Samples, y: Samples, c: Complex, h: Samples, I: nat, D: nat)
    requires I >= 1 && D >= 1 && |x| == |y|
    ensures |Outputs(x, h, I, D)| == |Outputs(y, h, I, D)|
    ensures Outputs(Plus(x, Scaled(c, y)), h, I, D)
         == Plus(Outputs(x, h, I, D), Scaled(c, Outputs(y, h, I, D)))
  {
    hide Decimated, Convolution, Add, Times, UsedTaps;
    var z := Plus(x, Scaled(c, y));
    DecimatedAt(x, h, I, D, |x| * I);
    DecimatedAt(y, h, I, D, |x| * I);
    DecimatedAt(z, h, I, D, |x| * I);
    forall i | 0 <= i < |Outputs(z, h, I, D)|
      ensures Outputs(z, h, I, D)[i] == Plus(Outputs(x, h, I, D), Scaled(c, Outputs(y, h, I, D)))[i]
    {
      ConvolutionLinear(x, y, c, h, I, i * D, UsedTaps(h, I));
    }
  }

  /** n samples, all zero but for a one at k. */
  function Impulse(n: nat, k: nat): (x: Samples)
    ensures |x| == n && forall i :: 0 <= i < n ==> x[i] == if i == k then ONE else ZERO
  {
    seq(n, i => if i == k then ONE else ZERO)
  }

  lemma {:induction false} ImpulseUnder(n: nat, k: nat, I: nat, p: nat, t: nat)
    requires I >= 1 && k < n
    ensures Under(Impulse(n, k), I, p, t) == if p - t == k * I then ONE else ZERO
  {
    if p - t == k * I {
      DivModUnique(p - t, I, k, 0);
    } else if p - t >= 0 && (p - t) % I == 0 {
      assert p - t == I * ((p - t) / I);
    }
  }

  lemma {:induction false} ImpulseSum(n: nat, k: nat, h: Samples, I: nat, p: nat, T: nat)
    requires I >= 1 && k < n && T <= |h|
    ensures Convolution(Impulse(n, k), h, I, p, T) == if 0 <= p - k * I < T then h[p - k * I] else ZERO
  {
    hide *;
    var x, at := Impulse(n, k), p - k * I;
    if T == 0 {
      ConvolutionNone(x, h, I, p);
    } else {
      ImpulseSum(n, k, h, I, p, T - 1);
      ConvolutionLast(x, h, I, p, T);
      ImpulseUnder(n, k, I, p, T - 1);
      AddZero(Convolution(x, h, I, p, T - 1), h[T - 1]);
      OneTerm(h[T - 1]);
    }
  }

  lemma {:induction false} OneTerm(a: Complex)
    ensures Add(ZERO, Times(ONE, a)) == a
  {}

  /** The response to a single one at sample k: every D-th tap, from k * I positions on,
      and zero before and behind. */
  lemma {:induction false} ImpulseResponse(n: nat, k: nat, h: Samples, I: nat, D: nat, i: nat)
    requires I >= 1 && D >= 1 && k < n && i * D < n * I
    ensures i < |Outputs(Impulse(n, k), h, I, D)|
    ensures Outputs(Impulse(n, k), h, I, D)[i]
         == if 0 <= i * D - k * I < UsedTaps(h, I) then h[i * D - k * I] else ZERO
  {
    hide Convolution, Decimated;
    DecimatedAt(Impulse(n, k), h, I, D, n * I);
    var q := (n * I + D - 1) / D;
    if i >= q {
      assert D * q + (n * I + D - 1) % D == n * I + D - 1;
      MulLeft(D, q, i);
    }
    ImpulseSum(n, k, h, I, i * D, UsedTaps(h, I));
  }

  // ----- any sequence of calls

  function Flatten(blocks: seq<Samples>): Samples {
    if blocks == [] then [] else Flatten(blocks[..|blocks| - 1]) + blocks[|blocks| - 1]
  }

  /** What a call writes when x has been heard before and b arrives. */
  function CallOutput(x: Samples, b: Samples, h: Samples, I: nat, D: nat): Samples
    requires I >= 1 && D >= 1
  {
    OutputsGrow(x, x + b, h, I, D);
    Outputs(x + b, h, I, D)[|Outputs(x, h, I, D)|..]
  }

  /** The outputs due at positions a to b. */
  ghost function Due(x: Samples, h: Samples, I: nat, D: nat, a: nat, b: nat): Samples
    requires I >= 1 && D >= 1 && a <= b
  {
    DecimatedPrefix(x, h, I, D, a, b);
    Decimated(x, h, I, D, b)[|Decimated(x, h, I, D, a)|..]
  }

  lemma {:induction false} DueStep(x: Samples, h: Samples, I: nat, D: nat, a: nat, p: nat, end: nat)
    requires I >= 1 && D >= 1 && a <= p < end
    ensures Due(x, h, I, D, a, p + 1)
         == Due(x, h, I, D, a, p) + if p % D == 0 then [Filtered(x, h, I, p)] else []
    ensures |Due(x, h, I, D, a, p + 1)| <= |Due(x, h, I, D, a, end)|
  {
    hide Filtered;
    DecimatedPrefix(x, h, I, D, a, p);
    DecimatedPrefix(x, h, I, D, p + 1, end);
  }

  lemma {:induction false} DueNothing(x: Samples, h: Samples, I: nat, D: nat, a: nat)
    requires I >= 1 && D >= 1
    ensures Due(x, h, I, D, a, a) == []
  {
    hide Decimated;
    DecimatedPrefix(x, h, I, D, a, a);
  }

  lemma {:induction false} DueAll(x: Samples, b: Samples, h: Samples, I: nat, D: nat)
    requires I >= 1 && D >= 1
    ensures |x| * I <= |x + b| * I
    ensures Due(x + b, h, I, D, |x| * I, |x + b| * I) == CallOutput(x, b, h, I, D)
    ensures Due(x + b, h, I, D, |x| * I, |x| * I) == []
  {
    hide Decimated;
    OutputsGrow(x, x + b, h, I, D);
  }

  function CallOutputs(blocks: seq<Samples>, h: Samples, I: nat, D: nat): Samples
    requires I >= 1 && D >= 1
  {
    if blocks == [] then []
    else
      var k := |blocks| - 1;
      CallOutputs(blocks[..k], h, I, D) + CallOutput(Flatten(blocks[..k]), blocks[k], h, I, D)
  }

  /** However the input is cut into calls, the outputs join to those of the whole. */
  lemma {:induction false} StreamingIsWhole(blocks: seq<Samples>, h: Samples, I: nat, D: nat)
    requires I >= 1 && D >= 1
    ensures CallOutputs(blocks, h, I, D) == Outputs(Flatten(blocks), h, I, D)
  {
    hide Decimated;
    if blocks == [] {
      assert 0 * I == 0;
      DecimatedAt([], h, I, D, 0);
      DivModUnique(D - 1, D, 0, D - 1);
    } else {
      var k := |blocks| - 1;
      StreamingIsWhole(blocks[..k], h, I, D);
      var x := Flatten(blocks[..k]);
      OutputsGrow(x, x + blocks[k], h, I, D);
    }
  }

  // ----- the returned count

  /** Samples written by a call that handles total positions from phase m on. */
  function Written(m: nat, total: nat, D: nat): nat
    requires D >= 1 && m < D
  {
    if m == 0 then (total + D - 1) / D else (m + total + D - 1) / D - 1
  }

  /** The count that a call returns. */
  function Returned(datalength: nat, I: nat, D: nat): nat
    requires D >= 1
  {
    datalength * I / D
  }

  /** The returned count is what a call wrote only in these cases. */
  lemma {:induction false} ReturnedCountExact(x: Samples, b: Samples, h: Samples, I: nat, D: nat)
    requires I >= 1 && D >= 1
    ensures |CallOutput(x, b, h, I, D)| == Returned(|b|, I, D) <==>
              var m, left := PhaseAt(|x|, I, D), |b| * I % D;
              left == 0 || (m > 0 && m + left <= D)
  {
    hide CallOutput, Written;
    WrittenIsGrowth(x, b, h, I, D);
    WrittenExact(PhaseAt(|x|, I, D), |b| * I, D);
  }

  lemma {:induction false} WrittenExact(m: nat, total: nat, D: nat)
    requires D >= 1 && m < D
    ensures Written(m, total, D) == total / D <==>
              total % D == 0 || (m > 0 && m + total % D <= D)
  {
    var q, b := total / D, total % D;
    ShiftDiv(b + D - 1, D, q);
    ShiftDiv(m + b + D - 1, D, q);
    assert total == D * q + b;
    CeilingBelowTwo(b, D);
    CeilingBelowTwo(m + b, D);
  }

  lemma {:induction false} CeilingBelowTwo(s: nat, D: nat)
    requires D >= 1 && s < 2 * D
    ensures (s + D - 1) / D == if s == 0 then 0 else if s <= D then 1 else 2
  {
    if s == 0 {
      DivModUnique(D - 1, D, 0, D - 1);
    } else if s <= D {
      DivModUnique(s + D - 1, D, 1, s - 1);
    } else {
      DivModUnique(s + D - 1, D, 2, s - 1 - D);
    }
  }

  /** One input sample, no interpolation, keeping one value in three: the first call
      writes a sample and reports none. */
  lemma {:induction false} ReturnedCountTooLow(x: Complex, h: Samples)
    ensures |CallOutput([], [x], h, 1, 3)| == 1 && Returned(|[x]|, 1, 3) == 0
  {
    WrittenIsGrowth([], [x], h, 1, 3);
  }

  lemma {:induction false} WrittenIsGrowth(x: Samples, b: Samples, h: Samples, I: nat, D: nat)
    requires I >= 1 && D >= 1
    ensures |CallOutput(x, b, h, I, D)| == Written((|x| * I) % D, |b| * I, D)
  {
    hide Decimated, Filtered, Written;
    var base, total := |x| * I, |b| * I;
    assert |x + b| * I == base + total;
    OutputsGrow(x, x + b, h, I, D);
    DecimatedAt(x, h, I, D, base);
    DecimatedAt(x + b, h, I, D, base + total);
    CeilingGrowth(base, total, D);
  }

  lemma {:induction false} CeilingGrowth(base: nat, total: nat, D: nat)
    requires D >= 1
    ensures (base + total + D - 1) / D - (base + D - 1) / D == Written(base % D, total, D)
  {
    var a, m := base / D, base % D;
    assert base == D * a + m;
    ShiftDiv(m + D - 1, D, a);
    ShiftDiv(m + total + D - 1, D, a);
    if m == 0 { DivModUnique(D - 1, D, 0, D - 1); } else { DivModUnique(m + D - 1, D, 1, m - 1); }
  }

  lemma {:induction false} ShiftDiv(y: nat, D: nat, a: nat)
    requires D >= 1
    ensures (D * a + y) / D == a + y / D
  {
    var q, r := y / D, y % D;
    assert D * (a + q) == D * a + D * q;
    DivModUnique(D * a + y, D, a + q, r);
  }

  /** The decimation phase after k samples. */
  function PhaseAt(k: nat, I: nat, D: nat): nat
    requires D >= 1
  {
    (k * I) % D
  }

  lemma {:induction false} PhaseAtEnd(a: nat, b: nat, I: nat, D: nat)
    requires D >= 1
    ensures PhaseAt(a, I, D) == (a * I) % D
    ensures (a + b) * I == a * I + b * I
    ensures PhaseAt(a + b, I, D) == (a * I + b * I) % D
  {}

  // ----- the operations

  const FILTERLENGTH := 2048

  /** The static state of the filter: delay line and the two phase counters. */
  class PolyphaseFilter {
    const coeffs: Samples
    const interp: nat
    const decim: nat
    const aux: array<Complex>
    var first: bool
    var n: nat
    var m: nat
    ghost var heard: Samples

    /** At every call boundary the delay line holds the last inputs, the interpolation
        phase is 0 and the decimation phase counts all positions so far. */
    ghost predicate Valid()
      reads this, aux
    {
      && interp >= 1 && decim >= 1
      && |coeffs| <= FILTERLENGTH == aux.Length
      && (!first ==> heard == [])
      && n == 0 && m == PhaseAt(|heard|, interp, decim)
      && Holds(heard, |heard|)
    }

    /** The delay line after c samples of x. */
    ghost predicate Holds(x: Samples, c: nat)
      reads aux
      requires |coeffs| <= aux.Length && c <= |x|
    {
      forall j :: 0 <= j < |coeffs| ==> aux[j] == Delayed(x, c, j)
    }

    constructor (h: Samples, ninterpol: nat, ndecimate: nat)
      requires |h| <= FILTERLENGTH && ninterpol >= 1 && ndecimate >= 1
      ensures Valid() && heard == [] && fresh(aux)
      ensures coeffs == h && interp == ninterpol && decim == ndecimate
    {
      coeffs, interp, decim := h, ninterpol, ndecimate;
      aux := new Complex[FILTERLENGTH](_ => ZERO);
      first, n, m := false, 0, 0;
      heard := [];
      new;
      DivModUnique(0, decim, 0, 0);
      assert |heard| * interp == 0;
    }

    /** Moves the delay line by one place and enters a sample. */
    method ShiftIn(sample: Complex, ghost x: Samples, ghost c: nat)
      requires |coeffs| <= FILTERLENGTH == aux.Length
      requires c < |x| && sample == x[c] && Holds(x, c)
      modifies aux
      ensures Holds(x, c + 1)
    {
      var j := |coeffs| - 2;
      while j >= 0
        invariant -1 <= j <= |coeffs| - 2 || (|coeffs| <= 1 && j == |coeffs| - 2)
        invariant forall i :: 0 <= i <= j + 1 && i < |coeffs| ==> aux[i] == Delayed(x, c, i)
        invariant forall i :: j + 1 < i < |coeffs| ==> aux[i] == Delayed(x, c, i - 1)
        decreases j
      {
        aux[j + 1] := aux[j];
        j := j - 1;
      }
      aux[0] := sample;
    }

    /** The inner product of phase ph. */
    method PhaseProduct(ph: nat, ghost x: Samples, ghost c: nat) returns (acc: Complex)
      requires |coeffs| <= FILTERLENGTH == aux.Length
      requires ph < interp && c <= |x| && Holds(x, c)
      ensures |coeffs| / interp * interp <= |coeffs|
      ensures acc == PhaseSum(x, coeffs, interp, c, ph, |coeffs| / interp)
    {
      hide Delayed, Add, Times;
      acc := ZERO;
      var j := 0;
      var taps := |coeffs| / interp;
      ghost var used := UsedTaps(coeffs, interp);
      assert 0 * interp == 0;
      while j < taps
        invariant 0 <= j <= taps && j * interp <= |coeffs|
        invariant acc == PhaseSum(x, coeffs, interp, c, ph, j)
      {
        TapStep(interp, j, taps);
        PhaseSumLast(x, coeffs, interp, c, ph, j + 1, j * interp);
        acc := Add(acc, Times(aux[j], coeffs[j * interp + ph]));
        j := j + 1;
      }
    }

    static lemma {:induction false} TapStep(I: nat, j: nat, J: nat)
      requires I >= 1 && j < J
      ensures j < J * I && (j + 1) * I == j * I + I <= J * I
    {
      MulLeft(J, 1, I);
      MulLeft(I, j + 1, J);
    }

    /** The loop over all positions of a block: x is the input up to its end, H the length
        of the input before it. */
    method RunBlock(input: array<Complex>, datalength: nat, output: array<Complex>, ghost x: Samples, ghost H: nat)
      returns (out: nat)
      requires interp >= 1 && decim >= 1 && |coeffs| <= FILTERLENGTH == aux.Length
      requires output != aux && output != input && input != aux
      requires H + datalength == |x| && datalength <= input.Length && x[H..] == input[..datalength]
      requires n == 0 && m == PhaseAt(H, interp, decim) && Holds(x, H)
      requires |Due(x, coeffs, interp, decim, H * interp, H * interp + datalength * interp)| <= output.Length
      modifies this`n, this`m, aux, output
      ensures n == 0 && m == PhaseAt(|x|, interp, decim) && Holds(x, |x|)
      ensures out <= output.Length && output[out..] == old(output[out..])
      ensures output[..out] == Due(x, coeffs, interp, decim, H * interp, H * interp + datalength * interp)
    {
      hide Decimated, Filtered, Holds, Due, PhaseAt, AtPosition, IsPosition;
      ghost var base := H * interp;
      var total := datalength * interp;
      PhaseAtEnd(H, datalength, interp, decim);
      DueNothing(x, coeffs, interp, decim, base);
      out := 0;
      ghost var q := 0;
      var i := 0;
      Started(interp, datalength);
      while i < total
        invariant i <= total && AtPosition(interp, q, n, i, datalength) && m == (base + i) % decim
        invariant H + q + Begun(n) <= |x| && Holds(x, H + q + Begun(n))
        invariant out <= output.Length && output[out..] == old(output[out..])
        invariant output[..out] == Due(x, coeffs, interp, decim, base, base + i)
      {
        Locate(interp, H, q, n, i, datalength);
        DueStep(x, coeffs, interp, decim, base, base + i, base + total);
        assert x[H..][q] == x[H + q];
        out := OnePosition(input[i / interp], output, out, x, H + q + 1, base + i);
        if n == 0 { q := q + 1; }
        i := i + 1;
      }
      Finished(interp, q, n, datalength);
    }

    /** stream_conv_CPLX_INT_DEC: interpolate, filter and decimate one block. The samples
        written, k of them, are exactly those that the new input makes due. */
    method StreamConvIntDec(input: array<Complex>, datalength: nat, output: array<Complex>)
      returns (count: nat, ghost k: nat)
      requires Valid() && datalength <= input.Length
      requires output != aux && input != aux && output != input
      requires |CallOutput(heard, input[..datalength], coeffs, interp, decim)| <= output.Length
      modifies this, aux, output
      ensures Valid() && heard == old(heard) + input[..datalength]
      ensures k <= output.Length && output[k..] == old(output[k..])
      ensures output[..k] == CallOutput(old(heard), input[..datalength], coeffs, interp, decim)
      ensures count == Returned(datalength, interp, decim)
    {
      hide Holds, Due, CallOutput, PhaseAt, Outputs, Decimated, Returned;
      count := Returned(datalength, interp, decim);
      ghost var x := heard + input[..datalength];
      DueAll(heard, input[..datalength], coeffs, interp, decim);
      PhaseAtEnd(|heard|, datalength, interp, decim);
      if !first {
        ClearDelayLine();
        first := true;
      }
      HoldsMore(heard, x);
      k := RunBlock(input, datalength, output, x, |heard|);
      heard := x;
    }

    /** 1 while the phases of an entered sample are still to be computed. */
    static function Begun(phase: nat): nat {
      if phase > 0 then 1 else 0
    }

    /** i of the positions of a block are done: q samples and ph phases. */
    static ghost predicate AtPosition(I: nat, q: nat, ph: nat, i: nat, datalength: nat) {
      ph < I && i == q * I + ph && i <= datalength * I && q + Begun(ph) <= datalength
    }

    /** Position p is phase ph of the sample number c - 1. */
    static ghost predicate IsPosition(I: nat, c: nat, ph: nat, p: nat) {
      c >= 1 && ph < I && p == (c - 1) * I + ph
    }

    static lemma {:induction false} Locate(I: nat, H: nat, q: nat, ph: nat, i: nat, datalength: nat)
      requires AtPosition(I, q, ph, i, datalength) && i < datalength * I
      ensures I >= 1 && i / I == q < datalength
      ensures IsPosition(I, H + q + 1, ph, H * I + i)
      ensures var wrap := ph + 1 == I;
              AtPosition(I, if wrap then q + 1 else q, if wrap then 0 else ph + 1, i + 1, datalength)
    {
      DivModUnique(i, I, q, ph);
      IndexBelow(I, i, datalength);
      SplitPosition(H, q, I);
      MulLeft(I, q + 1, datalength);
      assert (q + 1) * I == q * I + I;
    }

    static lemma {:induction false} Finished(I: nat, q: nat, ph: nat, datalength: nat)
      requires AtPosition(I, q, ph, datalength * I, datalength)
      ensures ph == 0 && q == datalength
    {
      DivModUnique(datalength * I, I, q, ph);
      DivModUnique(datalength * I, I, datalength, 0);
    }

    static lemma {:induction false} Started(I: nat, datalength: nat)
      requires I >= 1
      ensures AtPosition(I, 0, 0, 0, datalength)
    {}

    /** The loop body: position p of the interpolated signal, whose sample is x[c - 1]. */
    method OnePosition(sample: Complex, output: array<Complex>, out: nat, ghost x: Samples, ghost c: nat, ghost p: nat)
      returns (next: nat)
      requires interp >= 1 && decim >= 1 && |coeffs| <= FILTERLENGTH == aux.Length && output != aux
      requires n < interp && m == p % decim && 1 <= c <= |x| && IsPosition(interp, c, n, p)
      requires Holds(x, c - 1 + Begun(n)) && (n == 0 ==> sample == x[c - 1])
      requires out <= output.Length && (p % decim == 0 ==> out < output.Length)
      modifies this`n, this`m, aux, output
      ensures Holds(x, c) && m == (p + 1) % decim
      ensures n == if old(n) + 1 == interp then 0 else old(n) + 1
      ensures next == out + if p % decim == 0 then 1 else 0
      ensures output[..next] == old(output[..out])
                              + if p % decim == 0 then [Filtered(x, coeffs, interp, p)] else []
      ensures output[next..] == old(output[next..])
    {
      hide PhaseSum, Delayed, UsedTaps, Filtered, Holds;
      if n == 0 { ShiftIn(sample, x, c - 1); }
      next := out;
      if m == 0 {
        var y := PhaseProduct(n, x, c);
        PhaseIsFiltered(x, coeffs, interp, c, n);
        output[out] := y;
        next := next + 1;
        assert output[..next] == output[..out] + [y];
      }
      ModSucc(p, decim);
      n := n + 1;
      if n == interp { n := 0; }
      m := m + 1;
      if m == decim { m := 0; }
    }

    /** stream_conv_CPLX: the same delay line without interpolation or decimation. */
    method StreamConv(input: array<Complex>, datalength: nat, output: array<Complex>) returns (count: nat)
      requires Valid() && interp == 1 && decim == 1
      requires datalength <= input.Length && datalength <= output.Length
      requires output != aux && input != aux && output != input
      modifies this, aux, output
      ensures Valid() && heard == old(heard) + input[..datalength] && count == datalength
      ensures forall i :: 0 <= i < datalength ==> output[i] == Filtered(heard, coeffs, 1, |old(heard)| + i)
      ensures output[datalength..] == old(output[datalength..])
    {
      hide Filtered, Holds, PhaseSum;
      ghost var x := heard + input[..datalength];
      ghost var H := |heard|;
      if !first {
        ClearDelayLine();
        first := true;
      }
      HoldsMore(heard, x);
      var i := 0;
      while i < datalength
        invariant 0 <= i <= datalength && first && n == 0 && m == 0
        invariant Holds(x, H + i)
        invariant forall k :: 0 <= k < i ==> output[k] == Filtered(x, coeffs, 1, H + k)
        invariant output[datalength..] == old(output[datalength..])
      {
        ShiftIn(input[i], x, H + i);
        var y := PhaseProduct(0, x, H + i + 1);
        PhaseIsFiltered(x, coeffs, 1, H + i + 1, 0);
        output[i] := y;
        i := i + 1;
      }
      heard := x;
      count := datalength;
    }

    /** The first call clears the delay line. */
    method ClearDelayLine()
      requires |coeffs| <= FILTERLENGTH == aux.Length && heard == []
      modifies aux
      ensures Holds(heard, |heard|)
    {
      var j := 0;
      while j < |coeffs|
        invariant 0 <= j <= |coeffs|
        invariant forall i :: 0 <= i < j ==> aux[i] == ZERO
      {
        aux[j] := ZERO;
        j := j + 1;
      }
    }

    lemma {:induction false} HoldsMore(x: Samples, y: Samples)
      requires |coeffs| <= aux.Length && x <= y && Holds(x, |x|)
      ensures Holds(y, |x|)
    {}

    static lemma {:induction false} SplitPosition(a: nat, q: nat, I: nat)
      ensures (a + q) * I == a * I + q * I
    {}
  }
}
