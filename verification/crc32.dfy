/**
  The table-driven CRC-32 of hw2/src/crc32.c: the octet loop with its lazily built table
  refines bit-serial reflected division, which in turn computes the unique remainder of
  polynomial division over GF(2) (section 8.1.1.6.2 of ITU-T V.42).
*/
module Crc32 {

  /** The reflected generator polynomial: bit i is the coefficient of x^(31-i). */
  const POLY: bv32 := 0xedb88320

  // ----- the division register -----

  /** Addition over GF(2), coefficient by coefficient. */
  function Add(a: bv32, b: bv32): bv32 {
    a ^ b
  }

  predicate LowBit(w: bv32) {
    w & 1 == 1
  }

  function Half(w: bv32): bv32 {
    w >> 1
  }

  /** One step of the reflected division register. */
  function BitStep(r: bv32): bv32 {
    if LowBit(r) then Add(Half(r), POLY) else Half(r)
  }

  function BitSteps(r: bv32, n: nat): bv32
    decreases n
  {
    if n == 0 then r else BitSteps(BitStep(r), n - 1)
  }

  /** A message bit, as the coefficient that meets the low end of the register. */
  function Unit(bit: bool): bv32 {
    if bit then 1 else 0
  }

  function Feed(r: bv32, bit: bool): bv32 {
    BitStep(Add(r, Unit(bit)))
  }

  function FeedAll(r: bv32, bits: seq<bool>): bv32
    decreases |bits|
  {
    if bits == [] then r else FeedAll(Feed(r, bits[0]), bits[1..])
  }

  // ----- words and octets as bit sequences, least significant bit first -----

  function Shr(w: bv32, k: nat): bv32
    decreases k
  {
    if k == 0 then w else Shr(Half(w), k - 1)
  }

  function WordBits(w: bv32, k: nat): (bits: seq<bool>)
    ensures |bits| == k
    decreases k
  {
    if k == 0 then [] else [LowBit(w)] + WordBits(Half(w), k - 1)
  }

  function OctetBits(o: bv8): (bits: seq<bool>)
    ensures |bits| == 8
  {
    WordBits(o as bv32, 8)
  }

  /** The bits of a message in the order in which they are transmitted. */
  function MessageBits(buf: seq<bv8>): (bits: seq<bool>)
    ensures |bits| == 8 * |buf|
  {
    if buf == [] then [] else OctetBits(buf[0]) + MessageBits(buf[1..])
  }

  function Xor(a: seq<bool>, b: seq<bool>): (c: seq<bool>)
    requires |a| == |b|
    ensures |c| == |a| && forall i :: 0 <= i < |c| ==> c[i] == (a[i] != b[i])
  {
    seq(|a|, i requires 0 <= i < |a| => a[i] != b[i])
  }

  function Zeros(n: nat): (z: seq<bool>)
    ensures |z| == n && forall i :: 0 <= i < n ==> !z[i]
  {
    seq(n, _ => false)
  }

  function Complement(r: bv32): bv32 {
    !r
  }

  /** The CRC of a message, one bit at a time, with the conditioning of start and result. */
  function Crc(start: bv32, buf: seq<bv8>): bv32 {
    Complement(FeedAll(Complement(start), MessageBits(buf)))
  }

  // ----- facts about 32-bit words, one bit-level fact at a time -----

  lemma Shifts(a: bv32, b: bv32)
    ensures (a ^ b) >> 1 == (a >> 1) ^ (b >> 1)
  {
  }

  lemma Lows(a: bv32, b: bv32)
    ensures (a ^ b) & 1 == (a & 1) ^ (b & 1)
  {
  }

  lemma Associates(a: bv32, b: bv32, c: bv32)
    ensures (a ^ b) ^ c == a ^ (b ^ c)
  {
  }

  lemma LowIsBit(x: bv32)
    ensures x & 1 == 0 || x & 1 == 1
  {
  }

  lemma AddIsXor(a: bv32, b: bv32)
    ensures Add(a, b) == a ^ b
  {
  }

  lemma HalfAdd(a: bv32, b: bv32)
    ensures Half(Add(a, b)) == Add(Half(a), Half(b))
  {
    hide Add;
    AddIsXor(a, b);
    AddIsXor(a >> 1, b >> 1);
    Shifts(a, b);
  }

  lemma LowAdd(a: bv32, b: bv32)
    ensures LowBit(Add(a, b)) == (LowBit(a) != LowBit(b))
  {
    hide Add;
    AddIsXor(a, b);
    Lows(a, b);
    LowIsBit(a);
    LowIsBit(b);
  }

  lemma AddAssociates(a: bv32, b: bv32, c: bv32)
    ensures Add(Add(a, b), c) == Add(a, Add(b, c))
  {
    hide Add;
    AddIsXor(a, b);
    AddIsXor(b, c);
    AddIsXor(a ^ b, c);
    AddIsXor(a, b ^ c);
    Associates(a, b, c);
  }

  lemma AddCommutes(a: bv32, b: bv32)
    ensures Add(a, b) == Add(b, a)
  {
  }

  lemma AddZero(a: bv32)
    ensures Add(a, 0) == a && Add(a, a) == 0
  {
  }

  lemma AddFour(a: bv32, b: bv32, c: bv32, d: bv32)
    ensures Add(Add(a, b), Add(c, d)) == Add(Add(a, c), Add(b, d))
  {
    hide Add;
    AddAssociates(Add(a, b), c, d);
    AddAssociates(a, b, c);
    AddCommutes(b, c);
    AddAssociates(a, c, b);
    AddAssociates(Add(a, c), b, d);
  }

  lemma SplitLow(w: bv32)
    ensures w == Add(Unit(LowBit(w)), w & 0xfffffffe)
    ensures !LowBit(w & 0xfffffffe) && Half(w & 0xfffffffe) == Half(w)
  {
    LowIsBit(w);
  }

  lemma SplitOctet(r: bv32)
    ensures r == Add(r & 0xff, r & 0xffffff00)
    ensures (r & 0xffffff00) & 0xff == 0
    ensures (r & 0xffffff00) >> 8 == r >> 8
  {
  }

  lemma EightHalves(w: bv32)
    ensures Half(Half(Half(Half(Half(Half(Half(Half(w)))))))) == w >> 8
  {
  }

  lemma OctetIsSmall(o: bv8)
    ensures (o as bv32) >> 8 == 0
  {
  }

  lemma EvenHalf(x: bv32, k: bv32)
    requires x & (k + k + 1) == 0 && k < 0x80
    ensures !LowBit(x) && Half(x) & k == 0
  {
  }

  // ----- the register is linear -----

  lemma BitStepAdd(a: bv32, b: bv32)
    ensures BitStep(Add(a, b)) == Add(BitStep(a), BitStep(b))
  {
    hide Add, LowBit, Half;
    HalfAdd(a, b);
    LowAdd(a, b);
    var x, y := Half(a), Half(b);
    AddAssociates(x, y, POLY);
    AddAssociates(x, POLY, y);
    AddCommutes(POLY, y);
    AddFour(x, POLY, y, POLY);
    AddZero(POLY);
    AddZero(Add(x, y));
  }

  lemma {:induction false} BitStepsAdd(a: bv32, b: bv32, n: nat)
    ensures BitSteps(Add(a, b), n) == Add(BitSteps(a, n), BitSteps(b, n))
    decreases n
  {
    hide BitStep, Add;
    if n != 0 {
      BitStepAdd(a, b);
      BitStepsAdd(BitStep(a), BitStep(b), n - 1);
    }
  }

  lemma UnitAdd(a: bool, b: bool)
    ensures Unit(a != b) == Add(Unit(a), Unit(b))
  {
  }

  lemma FeedAdd(r: bv32, s: bv32, a: bool, b: bool)
    ensures Feed(Add(r, s), a != b) == Add(Feed(r, a), Feed(s, b))
  {
    hide BitStep, Add, Unit;
    UnitAdd(a, b);
    AddFour(r, s, Unit(a), Unit(b));
    BitStepAdd(Add(r, Unit(a)), Add(s, Unit(b)));
  }

  lemma {:induction false} FeedAllAdd(r: bv32, s: bv32, a: seq<bool>, b: seq<bool>)
    requires |a| == |b|
    ensures FeedAll(Add(r, s), Xor(a, b)) == Add(FeedAll(r, a), FeedAll(s, b))
    decreases |a|
  {
    hide Feed, Add;
    if a != [] {
      FeedAdd(r, s, a[0], b[0]);
      assert Xor(a, b)[1..] == Xor(a[1..], b[1..]);
      FeedAllAdd(Feed(r, a[0]), Feed(s, b[0]), a[1..], b[1..]);
    }
  }

  lemma {:induction false} FeedAllConcat(r: bv32, a: seq<bool>, b: seq<bool>)
    ensures FeedAll(r, a + b) == FeedAll(FeedAll(r, a), b)
    decreases |a|
  {
    hide Feed;
    if a == [] {
      assert a + b == b;
    } else {
      assert (a + b)[1..] == a[1..] + b;
      FeedAllConcat(Feed(r, a[0]), a[1..], b);
    }
  }

  lemma {:induction false} MessageBitsConcat(a: seq<bv8>, b: seq<bv8>)
    ensures MessageBits(a + b) == MessageBits(a) + MessageBits(b)
  {
    hide OctetBits;
    if a == [] {
      assert a + b == b;
    } else {
      assert (a + b)[1..] == a[1..] + b;
      MessageBitsConcat(a[1..], b);
      assert OctetBits(a[0]) + (MessageBits(a[1..]) + MessageBits(b)) == MessageBits(a) + MessageBits(b);
    }
  }

  // ----- the table lookup is eight bit steps -----

  lemma FeedLowBit(r: bv32, w: bv32)
    ensures BitStep(Add(r, w)) == Add(Feed(r, LowBit(w)), Half(w))
  {
    hide Add, Unit, LowBit, Half;
    SplitLow(w);
    AddAssociates(r, Unit(LowBit(w)), w & 0xfffffffe);
    BitStepAdd(Add(r, Unit(LowBit(w))), w & 0xfffffffe);
  }

  /** Feeding the k low bits of a word is the same as adding them in at once and stepping. */
  lemma {:induction false} FeedWord(r: bv32, w: bv32, k: nat)
    requires Shr(w, k) == 0
    ensures FeedAll(r, WordBits(w, k)) == BitSteps(Add(r, w), k)
    decreases k
  {
    hide BitStep, Add, Unit, Feed, LowBit, Half;
    if k == 0 {
      AddZero(r);
    } else {
      FeedLowBit(r, w);
      FeedWord(Feed(r, LowBit(w)), Half(w), k - 1);
      assert WordBits(w, k)[1..] == WordBits(Half(w), k - 1);
    }
  }

  lemma ShrEight(w: bv32)
    ensures Shr(w, 8) == w >> 8
  {
    hide Half;
    var w2 := Half(Half(w));
    var w4 := Half(Half(w2));
    assert Shr(w, 8) == Shr(w2, 6) == Shr(w4, 4) == Shr(Half(Half(w4)), 2);
    EightHalves(w);
  }

  lemma HighOctetsShift(x: bv32)
    requires x & 0xff == 0
    ensures BitSteps(x, 8) == x >> 8
  {
    hide LowBit, Half;
    EvenHalf(x, 0x7f);
    var x1 := Half(x);
    EvenHalf(x1, 0x3f);
    var x2 := Half(x1);
    EvenHalf(x2, 0x1f);
    var x3 := Half(x2);
    EvenHalf(x3, 0xf);
    var x4 := Half(x3);
    EvenHalf(x4, 0x7);
    var x5 := Half(x4);
    EvenHalf(x5, 0x3);
    var x6 := Half(x5);
    EvenHalf(x6, 0x1);
    EvenHalf(Half(x6), 0);
    assert BitSteps(x, 8) == BitSteps(x2, 6) == BitSteps(x4, 4) == BitSteps(x6, 2);
    EightHalves(x);
  }

  lemma OctetStep(r: bv32, o: bv8)
    ensures FeedAll(r, OctetBits(o)) == Add(r >> 8, BitSteps(Add(r & 0xff, o as bv32), 8))
  {
    hide BitStep, BitSteps, Add, Feed, FeedAll, WordBits, Shr, Half, LowBit;
    var w := o as bv32;
    var low, high := r & 0xff, r & 0xffffff00;
    OctetIsSmall(o);
    ShrEight(w);
    FeedWord(r, w, 8);
    SplitOctet(r);
    AddCommutes(low, high);
    AddAssociates(high, low, w);
    BitStepsAdd(high, Add(low, w), 8);
    HighOctetsShift(high);
  }

  // ----- the routine itself -----

  class Crc32Routine {
    const table: array<bv32>
    var haveTable: bool

    ghost predicate Valid()
      reads this, table
    {
      && table.Length == 256
      && (haveTable ==> forall k: nat :: k < 256 ==> table[k] == BitSteps(k as bv32, 8))
    }

    constructor ()
      ensures Valid() && fresh(table)
    {
      table := new bv32[256];
      haveTable := false;
    }

    /** The result does not depend on whether an earlier call already built the table. */
    method RcCrc32(start: bv32, buf: seq<bv8>) returns (r: bv32)
      requires Valid()
      modifies this, table
      ensures Valid() && haveTable
      ensures r == Crc(start, buf)
    {
      if !haveTable {
        BuildTable();
      }
      hide BitStep, BitSteps, Add, Feed, FeedAll, OctetBits, Complement;
      var crc := Complement(start);
      assert buf[0..] == buf;
      for p := 0 to |buf|
        invariant Valid() && haveTable
        invariant FeedAll(crc, MessageBits(buf[p..])) == FeedAll(Complement(start), MessageBits(buf))
      {
        var octet := buf[p];
        assert buf[p..][1..] == buf[p + 1..];
        FeedAllConcat(crc, OctetBits(octet), MessageBits(buf[p + 1..]));
        OctetStep(crc, octet);
        var x := LookUp(crc, octet);
        crc := Add(crc >> 8, x);
      }
      FeedNothing(crc);
      return Complement(crc);
    }

    method BuildTable()
      requires Valid()
      modifies this, table
      ensures Valid() && haveTable
    {
      hide Add, Half, LowBit;
      for i := 0 to 256
        invariant forall k: nat :: k < i ==> table[k] == BitSteps(k as bv32, 8)
      {
        var rem := i as bv32;
        for j := 0 to 8
          invariant BitSteps(rem, 8 - j) == BitSteps(i as bv32, 8)
        {
          if LowBit(rem) {
            rem := Half(rem);
            rem := Add(rem, 0xedb88320);
          } else {
            rem := Half(rem);
          }
        }
        table[i] := rem;
      }
      haveTable := true;
    }

    method LookUp(crc: bv32, octet: bv8) returns (x: bv32)
      requires Valid() && haveTable
      ensures x == BitSteps(Add(crc & 0xff, octet as bv32), 8)
    {
      hide BitSteps, Add;
      var index := Add(crc & 0xff, octet as bv32);
      IndexInRange(crc, octet as bv32);
      IndexRoundTrip(index);
      x := table[index as int];
    }
  }

  lemma IndexInRange(crc: bv32, w: bv32)
    requires w <= 0xff
    ensures Add(crc & 0xff, w) <= 0xff
  {
  }

  lemma IndexRoundTrip(x: bv32)
    requires x <= 0xff
    ensures 0 <= x as int < 256 && (x as int) as bv32 == x
  {
  }

  lemma FeedNothing(r: bv32)
    ensures FeedAll(r, MessageBits([])) == r
  {
  }
}
