/**
  The CRC as a remainder. A polynomial over GF(2) is the sequence of its coefficients, highest
  power first; the generator is x^32 followed by the 32 coefficients that POLY holds.
*/
module Crc32Division {
  import opened Crc32
  import opened Crc32Laws

  function Generator(): (g: seq<bool>)
    ensures |g| == 33
  {
    [true] + WordBits(POLY, 32)
  }

  /** The powers of x in the generator polynomial of section 8.1.1.6.2 of ITU-T V.42. */
  predicate HasPower(n: int) {
    n in {32, 26, 23, 22, 16, 12, 11, 10, 8, 7, 5, 4, 2, 1, 0}
  }

  /** Four coefficients off the low end of a word, which is shifted to w1, w2, w3 and v. */
  lemma Nibble(w: bv32, w1: bv32, w2: bv32, w3: bv32, v: bv32, k: nat)
    requires w1 == Half(w) && w2 == Half(w1) && w3 == Half(w2) && v == Half(w3)
    ensures WordBits(w, k + 4) == [LowBit(w), LowBit(w1), LowBit(w2), LowBit(w3)] + WordBits(v, k)
  {
    hide Half, LowBit, WordBits;
    WordBitsOneMore(w3, k);
    WordBitsOneMore(w2, k + 1);
    WordBitsOneMore(w1, k + 2);
    WordBitsOneMore(w, k + 3);
  }

  lemma NoBits(w: bv32)
    ensures WordBits(w, 0) == []
  {
  }

  lemma PolyBits()
    ensures WordBits(POLY, 32)
         == [false, false, false, false]
          + ([false, true, false, false]
          + ([true, true, false, false]
          + ([false, false, false, true]
          + ([false, false, false, true]
          + ([true, true, false, true]
          + ([true, false, true, true]
          + ([false, true, true, true] + [])))))))
  {
    hide WordBits;
    Nibble(0xedb88320, 0x76dc4190, 0x3b6e20c8, 0x1db71064, 0x0edb8832, 28);
    Nibble(0x0edb8832, 0x076dc419, 0x03b6e20c, 0x01db7106, 0x00edb883, 24);
    Nibble(0x00edb883, 0x0076dc41, 0x003b6e20, 0x001db710, 0x000edb88, 20);
    Nibble(0x000edb88, 0x00076dc4, 0x0003b6e2, 0x0001db71, 0x0000edb8, 16);
    Nibble(0x0000edb8, 0x000076dc, 0x00003b6e, 0x00001db7, 0x00000edb, 12);
    Nibble(0x00000edb, 0x0000076d, 0x000003b6, 0x000001db, 0x000000ed, 8);
    Nibble(0x000000ed, 0x00000076, 0x0000003b, 0x0000001d, 0x0000000e, 4);
    Nibble(0x0000000e, 0x00000007, 0x00000003, 0x00000001, 0x00000000, 0);
    NoBits(0);
  }

  /** The generator has exactly the standard's coefficients. */
  lemma GeneratorIsStandard()
    ensures forall i :: 0 <= i <= 32 ==> (Generator()[i] <==> HasPower(32 - i))
  {
    PolyBits();
    hide WordBits;
  }

  /** The product of a polynomial q with the generator, by the schoolbook method. */
  function Times(q: seq<bool>): (p: seq<bool>)
    ensures |p| == |q| + 32
  {
    if q == [] then Zeros(32) else Xor(Scaled(q[0], |q| - 1), [false] + Times(q[1..]))
  }

  /** The generator times b * x^n. */
  function Scaled(b: bool, n: nat): (p: seq<bool>)
    ensures |p| == n + 33
  {
    if b then Generator() + Zeros(n) else Zeros(n + 33)
  }

  /** r is a remainder of d: the two differ by a multiple of the generator. */
  ghost predicate IsRemainder(d: seq<bool>, r: seq<bool>) {
    |r| == 32 <= |d| && exists q :: Divides(d, q, r)
  }

  ghost predicate Divides(d: seq<bool>, q: seq<bool>, r: seq<bool>) {
    |r| == 32 && |d| == |q| + 32 && d == Xor(Times(q), Zeros(|q|) + r)
  }

  /** What one division step leaves of d once its leading coefficient is dealt with. */
  function Reduce(d: seq<bool>): (e: seq<bool>)
    requires |d| > 32
    ensures |e| == |d| - 1
  {
    if d[0] then Xor(d[1..], WordBits(POLY, 32) + Zeros(|d| - 33)) else d[1..]
  }

  lemma ScaledStep(b: bool, n: nat)
    ensures Scaled(b, n)[0] == b
    ensures Scaled(b, n)[1..] == if b then WordBits(POLY, 32) + Zeros(n) else Zeros(n + 32)
  {
    hide WordBits;
  }

  lemma XorHeadTail(a: seq<bool>, b: seq<bool>)
    requires |a| == |b| > 0
    ensures Xor(a, b)[0] == (a[0] != b[0]) && Xor(a, b)[1..] == Xor(a[1..], b[1..])
  {
  }

  lemma XorNothing(w: seq<bool>)
    ensures Xor(Zeros(|w|), w) == w
  {
  }

  /** Times one step deep: the leading coefficient, and what the generator adds to the rest. */
  lemma TimesStep(q: seq<bool>)
    requires q != []
    ensures Times(q)[0] == q[0]
    ensures Times(q)[1..] == if q[0] then Xor(WordBits(POLY, 32) + Zeros(|q| - 1), Times(q[1..])) else Times(q[1..])
  {
    hide WordBits, Scaled, Xor, Generator, Zeros;
    var t, n := Times(q[1..]), |q| - 1;
    var p := Scaled(q[0], n);
    assert Times(q) == Xor(p, [false] + t);
    hide Times;
    ScaledStep(q[0], n);
    XorTail(p, t);
    XorNothing(t);
    assert n + 32 == |t|;
  }

  lemma XorTail(p: seq<bool>, t: seq<bool>)
    requires |p| == |t| + 1
    ensures Xor(p, [false] + t)[0] == p[0] && Xor(p, [false] + t)[1..] == Xor(p[1..], t)
  {
    XorHeadTail(p, [false] + t);
    assert ([false] + t)[1..] == t;
  }

  lemma XorMoves(a: seq<bool>, p: seq<bool>, b: seq<bool>)
    requires |a| == |p| == |b|
    ensures a == Xor(p, b) <==> Xor(a, p) == b
  {
    if Xor(a, p) == b {
      assert forall i :: 0 <= i < |a| ==> a[i] == Xor(p, b)[i];
    }
    if a == Xor(p, b) {
      assert forall i :: 0 <= i < |a| ==> Xor(a, p)[i] == b[i];
    }
  }

  lemma XorAssociates(p: seq<bool>, t: seq<bool>, z: seq<bool>)
    requires |p| == |t| == |z|
    ensures Xor(Xor(p, t), z) == Xor(p, Xor(t, z))
  {
  }

  lemma SameHeadSameTail(d: seq<bool>, w: seq<bool>)
    requires d != [] && w != []
    ensures d == w <==> d[0] == w[0] && d[1..] == w[1..]
  {
    assert d == [d[0]] + d[1..] && w == [w[0]] + w[1..];
  }

  /** The step is invertible: quotients of the rest extend to quotients of the whole and back. */
  lemma ReduceStep(d: seq<bool>, q: seq<bool>, r: seq<bool>)
    requires |d| > 32 && |q| == |d| - 32 && |r| == 32
    ensures Divides(d, q, r) <==> q[0] == d[0] && Divides(Reduce(d), q[1..], r)
  {
    hide Times, WordBits;
    TimesStep(q);
    var t, z := Times(q[1..]), Zeros(|q| - 1) + r;
    var w := Xor(Times(q), Zeros(|q|) + r);
    assert (Zeros(|q|) + r)[1..] == z;
    assert w[1..] == Xor(Times(q)[1..], z);
    SameHeadSameTail(d, w);
    if q[0] {
      var p := WordBits(POLY, 32) + Zeros(|q| - 1);
      XorAssociates(p, t, z);
      XorMoves(d[1..], p, Xor(t, z));
    }
  }

  /** Division has at most one remainder of degree below 32. */
  lemma {:induction false} RemainderUnique(d: seq<bool>, q1: seq<bool>, r1: seq<bool>, q2: seq<bool>, r2: seq<bool>)
    requires Divides(d, q1, r1) && Divides(d, q2, r2)
    ensures r1 == r2 && q1 == q2
    decreases |d|
  {
    hide Times;
    if q1 == [] {
      assert Times([]) == Zeros(32) by { TimesNothing(); }
      assert Zeros(0) + r1 == r1 && Zeros(0) + r2 == r2;
      assert forall i :: 0 <= i < 32 ==> r1[i] == d[i] == r2[i];
    } else {
      ReduceStep(d, q1, r1);
      ReduceStep(d, q2, r2);
      RemainderUnique(Reduce(d), q1[1..], r1, q2[1..], r2);
      assert q1 == [q1[0]] + q1[1..] && q2 == [q2[0]] + q2[1..];
    }
  }

  lemma TimesNothing()
    ensures Times([]) == Zeros(32)
  {
  }

  /** The dividend a register and the bits still to come stand for: bits * x^32 + register * x^n. */
  function Dividend(r: bv32, bits: seq<bool>): (d: seq<bool>)
    ensures |d| == |bits| + 32
  {
    Xor(bits + Zeros(32), WordBits(r, 32) + Zeros(|bits|))
  }

  lemma HalfBits(r: bv32)
    ensures WordBits(r, 32)[0] == LowBit(r)
    ensures WordBits(Half(r), 32) == WordBits(r, 32)[1..] + [false]
  {
    hide Half, LowBit;
    WordBitsTop(Half(r), 31);
    ShrHalf(r);
    WordBitsOneMore(r, 31);
  }

  lemma WordBitsOneMore(r: bv32, k: nat)
    ensures WordBits(r, k + 1) == [LowBit(r)] + WordBits(Half(r), k)
  {
  }

  lemma ShrHalf(r: bv32)
    ensures !LowBit(Shr(Half(r), 31))
  {
    hide Half, Shr;
    ShrAll(Half(r));
    HalfHasNoTop(r);
  }

  lemma HalfHasNoTop(r: bv32)
    ensures Half(r) >> 31 == 0
  {
  }

  lemma {:induction false} WordBitsTop(w: bv32, k: nat)
    ensures WordBits(w, k + 1) == WordBits(w, k) + [LowBit(Shr(w, k))]
    decreases k
  {
    hide Half, LowBit;
    if k != 0 {
      WordBitsTop(Half(w), k - 1);
    }
  }

  /** Feeding a bit reduces the dividend by one power. */
  lemma FeedReduces(r: bv32, bits: seq<bool>)
    requires bits != []
    ensures Reduce(Dividend(r, bits)) == Dividend(Feed(r, bits[0]), bits[1..])
  {
    hide Half, LowBit, Add, Unit, WordBits;
    var b := bits[0];
    var x := Add(r, Unit(b));
    HalfBits(r);
    HalfBits(x);
    FlipLow(r, b);
    WordBitsAdd(Half(x), POLY, 32);
    var n := |bits|;
    var d := Dividend(r, bits);
    assert d[0] == LowBit(x);
    assert (bits + Zeros(32))[1..] == bits[1..] + Zeros(32);
    assert (WordBits(r, 32) + Zeros(n))[1..] == WordBits(Half(r), 32) + Zeros(n - 1);
    assert d[1..] == Xor(bits[1..] + Zeros(32), WordBits(Half(x), 32) + Zeros(n - 1));
    if LowBit(x) {
      assert Feed(r, b) == Add(Half(x), POLY);
      var h, g := WordBits(Half(x), 32), WordBits(POLY, 32);
      XorConcat(h, g, Zeros(n - 1), Zeros(n - 1));
      assert Xor(Zeros(n - 1), Zeros(n - 1)) == Zeros(n - 1);
      assert Reduce(d) == Xor(d[1..], g + Zeros(n - 1));
      assert Xor(h, g) + Zeros(n - 1) == Xor(h + Zeros(n - 1), g + Zeros(n - 1));
    }
  }

  /** The register left by a message is a remainder of its dividend. */
  lemma {:induction false} RegisterDivides(r: bv32, bits: seq<bool>) returns (q: seq<bool>)
    ensures Divides(Dividend(r, bits), q, WordBits(FeedAll(r, bits), 32))
    decreases |bits|
  {
    hide Feed, WordBits, Times, Dividend;
    if bits == [] {
      q := [];
      DividendOfNothing(r);
    } else {
      var rest := RegisterDivides(Feed(r, bits[0]), bits[1..]);
      FeedReduces(r, bits);
      var d := Dividend(r, bits);
      q := [d[0]] + rest;
      assert q[1..] == rest;
      ReduceStep(d, q, WordBits(FeedAll(r, bits), 32));
    }
  }

  lemma DividendOfNothing(r: bv32)
    ensures Divides(Dividend(r, []), [], WordBits(r, 32))
  {
    hide WordBits, Times;
    var w := WordBits(r, 32);
    TimesNothing();
    XorNothing(w);
    assert Zeros(0) + w == w && w + Zeros(0) == w && [] + Zeros(32) == Zeros(32);
  }

  /**
    The CRC is the complement of the one 32-coefficient remainder of the message, multiplied by
    x^32 and with its leading 32 coefficients offset by the complemented start value.
  */
  lemma CrcIsTheRemainder(start: bv32, buf: seq<bv8>, r: bv32)
    ensures r == Complement(Crc(start, buf))
       <==> IsRemainder(Dividend(Complement(start), MessageBits(buf)), WordBits(r, 32))
  {
    hide FeedAll, MessageBits, Complement, WordBits, Dividend, Times, Divides;
    var s, bits := Complement(start), MessageBits(buf);
    var d := Dividend(s, bits);
    var t := FeedAll(s, bits);
    NotTwice(t);
    var q := RegisterDivides(s, bits);
    assert IsRemainder(d, WordBits(t, 32));
    if IsRemainder(d, WordBits(r, 32)) {
      var q' :| Divides(d, q', WordBits(r, 32));
      RemainderUnique(d, q, WordBits(t, 32), q', WordBits(r, 32));
      WordBitsInjective(r, t);
    }
  }

  lemma WordBitsInjective(v: bv32, w: bv32)
    requires WordBits(v, 32) == WordBits(w, 32)
    ensures v == w
  {
    hide WordBits, Add, Shr;
    WordBitsAdd(v, w, 32);
    assert WordBits(Add(v, w), 32) == Zeros(32);
    ShrThirtyTwo(Add(v, w));
    ZeroBitsZeroWord(Add(v, w), 32);
    AddZero(w);
    AddCancels(v, w, w);
  }

  lemma ShrThirtyTwo(w: bv32)
    ensures Shr(w, 32) == 0
  {
    hide Half, Shr;
    ShrSplit(w, 31, 1);
    ShrAll(w);
    ShrOne(w >> 31);
    TopOut(w);
  }

  lemma ShrOne(w: bv32)
    ensures Shr(w, 1) == Half(w)
  {
  }

  lemma TopOut(w: bv32)
    ensures Half(w >> 31) == 0
  {
  }
}
