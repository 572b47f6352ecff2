/**
  The Goertzel filter of hw1/src/goertzel.c over the reals, with any cosine and sine that satisfy
  cos(a)^2 + sin(a)^2 = 1, and the DFT bin whose energy it computes.
*/
module Goertzel {
  const TWO32 := 0x1_0000_0000

  datatype Complex = Complex(re: real, im: real)

  const ONE := Complex(1.0, 0.0)
  const ZERO := Complex(0.0, 0.0)

  function Add(a: Complex, b: Complex): Complex {
    Complex(a.re + b.re, a.im + b.im)
  }

  function Mul(a: Complex, b: Complex): Complex {
    Complex(a.re * b.re - a.im * b.im, a.re * b.im + a.im * b.re)
  }

  function Scale(x: real, a: Complex): Complex {
    Complex(x * a.re, x * a.im)
  }

  /** The squared magnitude. */
  function Norm(a: Complex): real {
    a.re * a.re + a.im * a.im
  }

  predicate Unit(a: Complex) {
    Norm(a) == 1.0
  }

  lemma NormOfMul(a: Complex, b: Complex)
    ensures Norm(Mul(a, b)) == Norm(a) * Norm(b)
  {
    var p, q, r, s := a.re * b.re, a.im * b.im, a.re * b.im, a.im * b.re;
    assert p * q == r * s;
    assert Norm(Mul(a, b)) == p * p + q * q + r * r + s * s;
    assert p * p == (a.re * a.re) * (b.re * b.re) && q * q == (a.im * a.im) * (b.im * b.im);
    assert r * r == (a.re * a.re) * (b.im * b.im) && s * s == (a.im * a.im) * (b.re * b.re);
  }

  lemma MulAssociates(a: Complex, b: Complex, c: Complex)
    ensures Mul(Mul(a, b), c) == Mul(a, Mul(b, c))
  {
  }

  lemma MulDistributes(a: Complex, b: Complex, c: Complex)
    ensures Mul(a, Add(b, c)) == Add(Mul(a, b), Mul(a, c))
  {
  }

  // ----- the reference: one bin of the discrete Fourier transform -----

  /** turn^n. With turn = e^(-iA) this is e^(-iAn). */
  function Power(turn: Complex, n: nat): Complex {
    if n == 0 then ONE else Mul(turn, Power(turn, n - 1))
  }

  /** The sum of x[n] * turn^n. */
  function Bin(turn: Complex, x: seq<real>): Complex {
    if x == [] then ZERO
    else var n := |x| - 1; Add(Bin(turn, x[..n]), Scale(x[n], Power(turn, n)))
  }

  // ----- the recurrence -----

  datatype Delays = Delays(s1: real, s2: real)

  /** One iteration: x + B s1 - s2 becomes s1, and s1 becomes s2. */
  function Next(b: real, d: Delays, x: real): Delays {
    Delays(S0(b, d, x), d.s1)
  }

  function S0(b: real, d: Delays, x: real): real {
    x + b * d.s1 - d.s2
  }

  /** The filter state after the samples x. */
  function Filter(b: real, x: seq<real>): Delays {
    if x == [] then Delays(0.0, 0.0) else Next(b, Filter(b, x[..|x| - 1]), x[|x| - 1])
  }

  /** y = s1 - s2 * e^(-iA) for the state d. */
  function OutputOf(c: real, s: real, d: Delays): Complex {
    Complex(RealY(d.s1, d.s2, c), Times(d.s2, s))
  }

  function RealY(s0: real, s1: real, c: real): real {
    s0 - s1 * c
  }

  function Times(a: real, b: real): real {
    a * b
  }

  function Output(c: real, s: real, x: seq<real>): Complex {
    OutputOf(c, s, Filter(2.0 * c, x))
  }

  /** One more sample turns y by e^(iA) and adds the sample. */
  lemma OutputTurns(c: real, s: real, x: seq<real>)
    requires Unit(Complex(c, -s)) && x != []
    ensures var n := |x| - 1;
            Output(c, s, x) == Add(Complex(x[n], 0.0), Mul(Complex(c, s), Output(c, s, x[..n])))
  {
    NextTurns(c, s, Filter(2.0 * c, x[..|x| - 1]), x[|x| - 1]);
  }

  lemma NextTurns(c: real, s: real, d: Delays, x: real)
    requires Unit(Complex(c, -s))
    ensures OutputOf(c, s, Next(2.0 * c, d, x)) == Add(Complex(x, 0.0), Mul(Complex(c, s), OutputOf(c, s, d)))
  {
    var s1, s2 := d.s1, d.s2;
    assert c * (s1 - s2 * c) - s * (s2 * s) == c * s1 - s2 * (c * c + s * s);
    assert c * (s2 * s) + s * (s1 - s2 * c) == s * s1;
  }

  lemma {:induction false} PowerIsUnit(turn: Complex, n: nat)
    requires Unit(turn)
    ensures Unit(Power(turn, n))
  {
    if n > 0 {
      PowerIsUnit(turn, n - 1);
      NormOfMul(turn, Power(turn, n - 1));
    }
  }

  /** Turning the output back by the angle of the last sample gives the bin. */
  lemma {:induction false} OutputIsBin(c: real, s: real, x: seq<real>)
    requires Unit(Complex(c, -s))
    ensures x != [] ==> Mul(Power(Complex(c, -s), |x| - 1), Output(c, s, x)) == Bin(Complex(c, -s), x)
  {
    var turn, back := Complex(c, -s), Complex(c, s);
    var n := |x| - 1;
    if n == 0 {
      assert x[..0] == [];
      OutputTurns(c, s, x);
    } else if n > 0 {
      OutputIsBin(c, s, x[..n]);
      OutputTurns(c, s, x);
      BinGrows(turn, back, Power(turn, n - 1), Output(c, s, x[..n]), x[n], Bin(turn, x[..n]));
    }
  }

  lemma BinGrows(turn: Complex, back: Complex, p: Complex, y: Complex, x: real, bin: Complex)
    requires Mul(turn, back) == ONE && Mul(p, y) == bin
    ensures Mul(Mul(turn, p), Add(Complex(x, 0.0), Mul(back, y))) == Add(bin, Scale(x, Mul(turn, p)))
  {
    var q := Mul(turn, p);
    MulDistributes(q, Complex(x, 0.0), Mul(back, y));
    assert Mul(q, Complex(x, 0.0)) == Scale(x, q);
    MulAssociates(q, back, y);
    assert q == Mul(p, turn);
    MulAssociates(p, turn, back);
    assert Mul(p, ONE) == p;
  }

  /** The filter's output and the bin have the same energy. */
  lemma EnergyIsBins(c: real, s: real, x: seq<real>)
    requires Unit(Complex(c, -s)) && x != []
    ensures Norm(Output(c, s, x)) == Norm(Bin(Complex(c, -s), x))
  {
    var turn := Complex(c, -s);
    OutputIsBin(c, s, x);
    PowerIsUnit(turn, |x| - 1);
    NormOfMul(Power(turn, |x| - 1), Output(c, s, x));
  }

  // ----- the program's state -----

  function Abs(x: real): real {
    if x < 0.0 then -x else x
  }

  /** N * N in the 32 bits of its unsigned type. */
  function Square(n: nat): nat {
    n * n % TWO32
  }

  /** A double as the result of a division: the division by a square that has wrapped around to 0 is not finite. */
  datatype Quotient = Finite(value: real) | Infinite | NaN

  function Divided(x: real, d: nat): Quotient {
    if d != 0 then Finite(x / d as real) else if x == 0.0 then NaN else Infinite
  }

  /** What goertzel_strength makes of the last output y; d is the unit factor it multiplies with. */
  function StrengthOf(y: Complex, d: Complex, n: nat): Quotient {
    Combined(y.re, Abs(y.im), d.re, d.im, n)
  }

  /** Twice the squared magnitude of (re + im i)(dr + di i), divided by n * n. */
  function Combined(re: real, im: real, dr: real, di: real, n: nat): Quotient {
    var a, b := re * dr - im * di, re * di + im * dr;
    Divided(2.0 * Abs(a * a + b * b), Square(n))
  }

  /** Neither the absolute value nor the unit factor changes the energy. */
  lemma StrengthIsEnergy(y: Complex, d: Complex, n: nat)
    requires Unit(d)
    ensures StrengthOf(y, d, n) == Divided(2.0 * Norm(y), Square(n))
  {
    var a := Complex(y.re, Abs(y.im));
    NormOfMul(a, d);
    assert Norm(a) == Norm(y);
    assert Norm(y) >= 0.0;
  }

  lemma SquareExact(n: nat)
    requires 0 < n < TWO32
    ensures Square(n) == n * n <==> n < 0x1_0000
    ensures n >= 0x1_0000 ==> Square(n) < n * n
  {
    if n < 0x1_0000 {
      assert n * n <= 0xFFFF * 0xFFFF by {
        SquareGrows(n, 0xFFFF);
      }
    } else {
      SquareGrows(0x1_0000, n);
    }
  }

  lemma SquareGrows(m: nat, n: nat)
    requires m <= n
    ensures m * m <= n * n
  {
  }

  /**
    The result is twice the energy over N^2 exactly when N^2 fits in 32 bits, or there is no energy
    and N^2 does not wrap around to 0.
  */
  lemma StrengthExact(energy: real, n: nat)
    requires 0 < n < TWO32 && energy >= 0.0
    ensures Divided(2.0 * energy, Square(n)) == Finite(2.0 * energy / (n * n) as real)
       <==> n < 0x1_0000 || (energy == 0.0 && Square(n) != 0)
  {
    SquareExact(n);
    if n >= 0x1_0000 && Square(n) != 0 {
      var a, b := Square(n) as real, (n * n) as real;
      assert 0.0 < a < b;
      if energy > 0.0 {
        QuotientsDiffer(2.0 * energy, a, b);
      }
    }
  }

  lemma QuotientsDiffer(x: real, a: real, b: real)
    requires x > 0.0 && 0.0 < a < b
    ensures x / a != x / b
  {
    var p, q := x / a, x / b;
    assert p * a == x && q * b == x;
    assert p > 0.0;
    assert p * b > p * a by {
      assert p * (b - a) > 0.0;
    }
  }

  lemma FilterGrows(b: real, x: seq<real>, more: real)
    ensures Filter(b, x + [more]) == Next(b, Filter(b, x), more)
  {
    assert (x + [more])[..|x|] == x;
  }

  /** goertzel_strength, given the cosine and sine of its two angles. */
  function StrengthOfSample(cosA: real, sinA: real, cosD: real, sinD: real, b: real, d: Delays, x: real, n: nat)
    : Quotient
  {
    Combined(RealY(S0(b, d, x), d.s1, cosA), Abs(Times(d.s1, Opposite(sinA))), cosD, Opposite(sinD), n)
  }

  function Opposite(x: real): real {
    -1.0 * x
  }

  /** The products written out are the strength of the filter's output. */
  lemma Multiplied(c: real, s: real, cosD: real, sinD: real, b: real, d: Delays, x: real, n: nat)
    ensures StrengthOfSample(c, s, cosD, sinD, b, d, x, n)
         == StrengthOf(OutputOf(c, s, Next(b, d, x)), Complex(cosD, -sinD), n)
  {
    AbsOfProduct(d.s1, s);
    assert Opposite(sinD) == -sinD;
    hide Combined, Abs, Opposite, Times, RealY, S0;
  }

  lemma AbsOfProduct(a: real, b: real)
    ensures Abs(Times(a, Opposite(b))) == Abs(Times(a, b))
  {
    assert a * (-1.0 * b) == -(a * b);
  }

  /** Whatever the two angles are, the strength is that of the bin of all samples. */
  lemma StrengthIsBins(c: real, s: real, cosD: real, sinD: real, before: seq<real>, x: real, n: nat)
    requires Unit(Complex(c, -s)) && Unit(Complex(cosD, -sinD))
    ensures StrengthOfSample(c, s, cosD, sinD, 2.0 * c, Filter(2.0 * c, before), x, n)
         == Divided(2.0 * Norm(Bin(Complex(c, -s), before + [x])), Square(n))
  {
    var all := before + [x];
    Multiplied(c, s, cosD, sinD, 2.0 * c, Filter(2.0 * c, before), x, n);
    FilterGrows(2.0 * c, before, x);
    StrengthIsEnergy(Output(c, s, all), Complex(cosD, -sinD), n);
    EnergyIsBins(c, s, all);
    hide Next, StrengthOf, StrengthOfSample, Divided, Bin, Norm, Filter, Square, OutputOf;
  }

  /** All that is used of the two functions. */
  ghost predicate Trigonometric(cos: real -> real, sin: real -> real) {
    forall t :: Unit(Complex(cos(t), -sin(t)))
  }

  lemma UnitAt(cos: real -> real, sin: real -> real, t: real)
    requires Trigonometric(cos, sin)
    ensures Unit(Complex(cos(t), -sin(t)))
  {
  }

  class Filtering {
    const cos: real -> real
    const sin: real -> real
    const pi: real
    var n: nat
    var k: real
    var a: real
    var b: real
    var s0: real
    var s1: real
    var s2: real

    /** goertzel_init, for the library's cosine, sine and pi. */
    constructor (size: nat, index: real, c: real -> real, s: real -> real, p: real)
      requires size > 0
      ensures cos == c && sin == s && pi == p && n == size && k == index
      ensures a == 2.0 * pi * (k / n as real) && b == 2.0 * cos(a) && Delays(s1, s2) == Filter(b, [])
    {
      cos, sin, pi, n, k := c, s, p, size, index;
      a := 2.0 * p * (index / size as real);
      b := 2.0 * c(2.0 * p * (index / size as real));
      s0, s1, s2 := 0.0, 0.0, 0.0;
    }

    /** The state after the samples x. */
    ghost predicate Seen(x: seq<real>)
      reads this
    {
      n > 0 && b == 2.0 * cos(a) && Delays(s1, s2) == Filter(b, x)
    }

    /** goertzel_step. */
    method Step(x: real, ghost before: seq<real>)
      requires Seen(before)
      modifies this`s0, this`s1, this`s2
      ensures Seen(before + [x])
    {
      var t0 := x + b * s1 - s2;
      FilterGrows(b, before, x);
      s2 := s1;
      s0, s1 := t0, t0;
    }

    /** goertzel_strength for the last sample, the others having been stepped over. */
    method Strength(x: real, ghost before: seq<real>) returns (r: Quotient)
      requires Seen(before)
      requires Trigonometric(cos, sin)
      ensures r == Divided(2.0 * Norm(Bin(Complex(cos(a), -sin(a)), before + [x])), Square(n))
    {
      var angle := 2.0 * pi * k / n as real * (n - 1) as real;
      UnitAt(cos, sin, a);
      UnitAt(cos, sin, angle);
      hide StrengthOfSample, Divided, Bin, Norm, Filter, Square, Unit;
      StrengthIsBins(cos(a), sin(a), cos(angle), sin(angle), before, x, n);
      r := StrengthOfSample(cos(a), sin(a), cos(angle), sin(angle), b, Delays(s1, s2), x, n);
    }
  }

  /** A whole signal: the strength is 2/N^2 times the energy of its bin, for every N whose square fits. */
  method Strength(x: seq<real>, index: real, cos: real -> real, sin: real -> real, pi: real) returns (r: Quotient)
    requires 0 < |x| < TWO32 && Trigonometric(cos, sin)
    ensures var a := 2.0 * pi * (index / |x| as real);
            var energy := Norm(Bin(Complex(cos(a), -sin(a)), x));
            r == Finite(2.0 * energy / (|x| * |x|) as real) <==> |x| < 0x1_0000 || (energy == 0.0 && Square(|x|) != 0)
  {
    var g := new Filtering(|x|, index, cos, sin, pi);
    var i := 0;
    while i < |x| - 1
      invariant 0 <= i < |x| && g.Seen(x[..i])
      invariant g.cos == cos && g.sin == sin && g.n == |x| && g.a == 2.0 * pi * (index / |x| as real)
    {
      g.Step(x[i], x[..i]);
      assert x[..i] + [x[i]] == x[..i + 1];
      i := i + 1;
    }
    r := g.Strength(x[i], x[..i]);
    assert x[..i] + [x[i]] == x;
    StrengthExact(Norm(Bin(Complex(cos(g.a), -sin(g.a)), x)), |x|);
  }
}
