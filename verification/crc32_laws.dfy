/**
  Laws of the CRC of crc32.dfy, for messages of every length: it resumes across chunks, is affine
  over XOR, and detects every error burst of at most 32 bits and every error within four octets.
*/
module Crc32Laws {
  import opened Crc32

  // ----- chunks -----

  /** Feeding the result of one chunk in as the start of the next gives the CRC of the whole. */
  lemma CrcResumes(start: bv32, a: seq<bv8>, b: seq<bv8>)
    ensures Crc(Crc(start, a), b) == Crc(start, a + b)
  {
    hide FeedAll, MessageBits, Complement;
    MessageBitsConcat(a, b);
    FeedAllConcat(Complement(start), MessageBits(a), MessageBits(b));
    NotTwice(FeedAll(Complement(start), MessageBits(a)));
  }

  lemma NotTwice(r: bv32)
    ensures Complement(Complement(r)) == r
  {
  }

  // ----- the CRC is affine -----

  function XorOctets(a: seq<bv8>, b: seq<bv8>): (c: seq<bv8>)
    requires |a| == |b|
    ensures |c| == |a| && forall i :: 0 <= i < |c| ==> c[i] == a[i] ^ b[i]
  {
    seq(|a|, i requires 0 <= i < |a| => a[i] ^ b[i])
  }

  lemma {:induction false} WordBitsAdd(v: bv32, w: bv32, k: nat)
    ensures WordBits(Add(v, w), k) == Xor(WordBits(v, k), WordBits(w, k))
    decreases k
  {
    hide Add, LowBit, Half;
    if k != 0 {
      LowAdd(v, w);
      HalfAdd(v, w);
      WordBitsAdd(Half(v), Half(w), k - 1);
    }
  }

  lemma OctetWidens(x: bv8, y: bv8)
    ensures (x ^ y) as bv32 == (x as bv32) ^ (y as bv32)
  {
  }

  lemma OctetBitsXor(x: bv8, y: bv8)
    ensures OctetBits(x ^ y) == Xor(OctetBits(x), OctetBits(y))
  {
    hide Add, WordBits;
    OctetWidens(x, y);
    AddIsXor(x as bv32, y as bv32);
    WordBitsAdd(x as bv32, y as bv32, 8);
  }

  lemma {:induction false} MessageBitsXor(a: seq<bv8>, b: seq<bv8>)
    requires |a| == |b|
    ensures MessageBits(XorOctets(a, b)) == Xor(MessageBits(a), MessageBits(b))
  {
    hide OctetBits;
    if a != [] {
      OctetBitsXor(a[0], b[0]);
      assert XorOctets(a, b)[1..] == XorOctets(a[1..], b[1..]);
      MessageBitsXor(a[1..], b[1..]);
      XorConcat(OctetBits(a[0]), OctetBits(b[0]), MessageBits(a[1..]), MessageBits(b[1..]));
    }
  }

  lemma XorConcat(a: seq<bool>, b: seq<bool>, c: seq<bool>, d: seq<bool>)
    requires |a| == |b| && |c| == |d|
    ensures Xor(a + c, b + d) == Xor(a, b) + Xor(c, d)
  {
  }

  /** Over equal lengths and one start value the CRC of a three-way XOR is the XOR of the CRCs. */
  lemma CrcIsAffine(start: bv32, a: seq<bv8>, b: seq<bv8>, c: seq<bv8>)
    requires |a| == |b| == |c|
    ensures Crc(start, XorOctets(a, XorOctets(b, c)))
         == Add(Crc(start, a), Add(Crc(start, b), Crc(start, c)))
  {
    hide FeedAll, MessageBits, Add, Complement;
    var s := Complement(start);
    MessageBitsXor(b, c);
    MessageBitsXor(a, XorOctets(b, c));
    var x, y, z := MessageBits(a), MessageBits(b), MessageBits(c);
    FeedAllAdd(s, s, y, z);
    FeedAllAdd(s, Add(s, s), x, Xor(y, z));
    AddZero(s);
    var p, q, r := FeedAll(s, x), FeedAll(s, y), FeedAll(s, z);
    NotThrice(p, q, r);
  }

  lemma NotThrice(p: bv32, q: bv32, r: bv32)
    ensures Complement(Add(p, Add(q, r))) == Add(Complement(p), Add(Complement(q), Complement(r)))
  {
  }

  // ----- error bursts -----

  predicate TopBit(w: bv32) {
    w >> 31 == 1
  }

  lemma PolyOnTop(x: bv32)
    ensures ((x >> 1) ^ 0xedb88320) >> 31 == 1
    ensures (x >> 1) >> 31 == 0
  {
  }

  /** The top bit of the generator marks every step that subtracted it. */
  lemma TopBitAfterStep(x: bv32)
    ensures TopBit(BitStep(x)) == LowBit(x)
  {
    hide Add;
    AddIsXor(x >> 1, POLY);
    PolyOnTop(x);
  }

  lemma HalfZero(w: bv32)
    requires Half(w) == 0 && !LowBit(w)
    ensures w == 0
  {
  }

  lemma BitStepZero(x: bv32)
    requires BitStep(x) == 0
    ensures x == 0
  {
    hide Add, LowBit, Half;
    TopBitAfterStep(x);
    HalfZero(x);
  }

  lemma AddCancels(x: bv32, y: bv32, z: bv32)
    requires Add(x, z) == Add(y, z)
    ensures x == y
  {
    hide Add;
    AddAssociates(x, z, z);
    AddAssociates(y, z, z);
    AddZero(z);
    AddZero(x);
    AddZero(y);
  }

  lemma BitStepInjective(x: bv32, y: bv32)
    requires BitStep(x) == BitStep(y)
    ensures x == y
  {
    hide BitStep, Add;
    BitStepAdd(x, y);
    AddZero(BitStep(x));
    BitStepZero(Add(x, y));
    AddZero(y);
    AddCancels(x, y, y);
  }

  /** Distinct register values stay distinct whatever follows. */
  lemma {:induction false} FeedAllInjective(x: bv32, y: bv32, bits: seq<bool>)
    requires FeedAll(x, bits) == FeedAll(y, bits)
    ensures x == y
    decreases |bits|
  {
    hide BitStep, Add, Unit;
    if bits != [] {
      FeedAllInjective(Feed(x, bits[0]), Feed(y, bits[0]), bits[1..]);
      BitStepInjective(Add(x, Unit(bits[0])), Add(y, Unit(bits[0])));
      AddCancels(x, y, Unit(bits[0]));
    }
  }

  lemma FlipLow(r: bv32, bit: bool)
    ensures LowBit(Add(r, Unit(bit))) == (LowBit(r) != bit)
    ensures Half(Add(r, Unit(bit))) == Half(r)
  {
    hide Add, Half;
    LowAdd(r, Unit(bit));
    HalfAdd(r, Unit(bit));
    HalfOfUnit(bit);
    AddZero(Half(r));
  }

  lemma HalfOfUnit(bit: bool)
    ensures Half(Unit(bit)) == 0
  {
  }

  /** A step that leaves the top bit clear was a plain shift: the bit fed was the low bit. */
  lemma ShrStep(r: bv32, bit: bool)
    requires !TopBit(Feed(r, bit))
    ensures bit == LowBit(r) && Feed(r, bit) == Half(r)
  {
    hide Add, Half, LowBit, TopBit, Unit;
    FlipLow(r, bit);
    TopBitAfterStep(Add(r, Unit(bit)));
  }

  /** At most 32 bits that drive a register to zero are that register's own low bits. */
  lemma {:induction false} DrivenToZero(r: bv32, bits: seq<bool>)
    requires |bits| <= 32 && FeedAll(r, bits) == 0
    ensures bits == WordBits(r, |bits|)
    ensures Shr(r, |bits|) == 0
    decreases |bits|
  {
    hide Feed, LowBit, Half, TopBit;
    if bits != [] {
      var next := Feed(r, bits[0]);
      DrivenToZero(next, bits[1..]);
      ShrSmall(next, |bits| - 1);
      ShrStep(r, bits[0]);
    }
  }

  lemma NoTopBit(r: bv32)
    requires Shr(r, 31) == 0
    ensures !TopBit(r)
  {
    hide Half, Shr;
    ShrAll(r);
  }

  /** A word that vanishes when shifted right by at most 31 places has its top bit clear. */
  lemma ShrSmall(r: bv32, k: nat)
    requires k <= 31 && Shr(r, k) == 0
    ensures !TopBit(r)
  {
    hide TopBit;
    ShrSplit(r, k, 31 - k);
    ShrZero(31 - k);
    NoTopBit(r);
  }

  lemma {:induction false} ShrZero(k: nat)
    ensures Shr(0, k) == 0
  {
    if k != 0 {
      ShrZero(k - 1);
    }
  }

  lemma {:induction false} ShrSplit(r: bv32, j: nat, k: nat)
    ensures Shr(r, j + k) == Shr(Shr(r, j), k)
    decreases j
  {
    hide Half;
    if j != 0 {
      ShrSplit(Half(r), j - 1, k);
    }
  }

  lemma ShrAll(r: bv32)
    ensures Shr(r, 31) == r >> 31
  {
    hide Shr;
    var a := r >> 8;
    var b := a >> 8;
    var c := b >> 8;
    ShiftsCompose(r, a, b, c);
    ShrSplit(r, 8, 23);
    ShrEight(r);
    ShrSplit(a, 8, 15);
    ShrEight(a);
    ShrSplit(b, 8, 7);
    ShrEight(b);
    ShrSeven(c);
  }

  lemma ShrSeven(w: bv32)
    ensures Shr(w, 7) == w >> 7
  {
    hide Half;
    var w2 := Half(Half(w));
    var w4 := Half(Half(w2));
    assert Shr(w, 7) == Shr(w2, 5) == Shr(w4, 3) == Shr(Half(Half(w4)), 1);
    SevenHalves(w);
  }

  lemma SevenHalves(w: bv32)
    ensures Half(Half(Half(Half(Half(Half(Half(w))))))) == w >> 7
  {
  }

  lemma ShiftsCompose(r: bv32, a: bv32, b: bv32, c: bv32)
    requires a == r >> 8 && b == a >> 8 && c == b >> 8
    ensures c >> 7 == r >> 31
  {
  }

  lemma {:induction false} WordBitsOfZero(k: nat)
    ensures WordBits(0, k) == Zeros(k)
  {
    if k != 0 {
      WordBitsOfZero(k - 1);
    }
  }

  lemma {:induction false} OctetBitsInjective(x: bv8, y: bv8)
    requires OctetBits(x) == OctetBits(y)
    ensures x == y
  {
    hide WordBits, Shr, Add;
    OctetBitsXor(x, y);
    assert Xor(OctetBits(x), OctetBits(y)) == Zeros(8);
    OctetIsSmall(x ^ y);
    ShrEight((x ^ y) as bv32);
    ZeroBitsZeroWord((x ^ y) as bv32, 8);
    OctetDifference(x, y);
  }

  lemma OctetDifference(x: bv8, y: bv8)
    requires (x ^ y) as bv32 == 0
    ensures x == y
  {
  }

  lemma {:induction false} ZeroBitsZeroWord(w: bv32, k: nat)
    requires Shr(w, k) == 0 && WordBits(w, k) == Zeros(k)
    ensures w == 0
    decreases k
  {
    hide Half, LowBit;
    if k != 0 {
      assert WordBits(w, k)[1..] == Zeros(k - 1);
      assert !WordBits(w, k)[0];
      ZeroBitsZeroWord(Half(w), k - 1);
      HalfZero(w);
    }
  }

  lemma {:induction false} MessageBitsInjective(a: seq<bv8>, b: seq<bv8>)
    requires |a| == |b| && MessageBits(a) == MessageBits(b)
    ensures a == b
  {
    hide OctetBits, WordBits;
    if a != [] {
      assert MessageBits(a)[..8] == OctetBits(a[0]) && MessageBits(b)[..8] == OctetBits(b[0]);
      assert MessageBits(a)[8..] == MessageBits(a[1..]) && MessageBits(b)[8..] == MessageBits(b[1..]);
      OctetBitsInjective(a[0], b[0]);
      MessageBitsInjective(a[1..], b[1..]);
    }
  }

  /** From one register value, two bit strings of at most 32 bits lead to different values. */
  lemma ShortStringsDiverge(r: bv32, u: seq<bool>, v: seq<bool>)
    requires |u| == |v| <= 32 && FeedAll(r, u) == FeedAll(r, v)
    ensures u == v
  {
    hide FeedAll, WordBits, Shr, Add;
    FeedAllAdd(r, r, u, v);
    AddZero(r);
    AddZero(FeedAll(r, u));
    DrivenToZero(0, Xor(u, v));
    WordBitsOfZero(|u|);
    forall k | 0 <= k < |u|
      ensures u[k] == v[k]
    {
      assert Xor(u, v)[k] == Zeros(|u|)[k];
    }
  }

  lemma BurstsDiverge(r: bv32, x: seq<bool>, y: seq<bool>, at: nat, len: nat)
    requires |x| == |y| && len <= 32 && at + len <= |x|
    requires x[..at] == y[..at] && x[at + len..] == y[at + len..]
    requires FeedAll(r, x) == FeedAll(r, y)
    ensures x == y
  {
    hide FeedAll;
    var pre, u, v, post := x[..at], x[at..at + len], y[at..at + len], x[at + len..];
    assert x == pre + (u + post) && y == pre + (v + post);
    var t := FeedAll(r, pre);
    FeedAllConcat(r, pre, u + post);
    FeedAllConcat(r, pre, v + post);
    FeedAllConcat(t, u, post);
    FeedAllConcat(t, v, post);
    FeedAllInjective(FeedAll(t, u), FeedAll(t, v), post);
    ShortStringsDiverge(t, u, v);
  }

  /**
    Two different messages of one length whose transmitted bits differ only inside some window
    of at most 32 consecutive bits never have the same CRC. Four consecutive octets are such
    a window, at every octet boundary.
  */
  lemma BurstsAreDetected(start: bv32, a: seq<bv8>, b: seq<bv8>, at: nat, len: nat)
    requires |a| == |b| && a != b
    requires len <= 32 && at + len <= 8 * |a|
    requires forall k :: 0 <= k < 8 * |a| && MessageBits(a)[k] != MessageBits(b)[k] ==> at <= k < at + len
    ensures Crc(start, a) != Crc(start, b)
  {
    hide FeedAll, MessageBits, Complement;
    var x, y := MessageBits(a), MessageBits(b);
    if Crc(start, a) == Crc(start, b) {
      var s := Complement(start);
      NotTwice(FeedAll(s, x));
      NotTwice(FeedAll(s, y));
      BurstsDiverge(s, x, y, at, len);
      MessageBitsInjective(a, b);
    }
  }

  /** Any error confined to four consecutive octets is caught, wherever it falls. */
  lemma FourOctetErrorsAreDetected(start: bv32, p: seq<bv8>, u: seq<bv8>, v: seq<bv8>, q: seq<bv8>)
    requires |u| == |v| <= 4 && u != v
    ensures Crc(start, p + (u + q)) != Crc(start, p + (v + q))
  {
    hide FeedAll, MessageBits, Crc;
    MessageBitsConcat(p, u + q);
    MessageBitsConcat(u, q);
    MessageBitsConcat(p, v + q);
    MessageBitsConcat(v, q);
    var a, b := p + (u + q), p + (v + q);
    assert a[|p|..|p| + |u|] == u && b[|p|..|p| + |u|] == v;
    BurstsAreDetected(start, a, b, 8 * |p|, 8 * |u|);
  }

  // ----- the check value -----

  /** Eight steps of the register, written out. */
  function EightSteps(x: bv32): bv32 {
    BitStep(BitStep(BitStep(BitStep(BitStep(BitStep(BitStep(BitStep(x))))))))
  }

  lemma EightStepsAre(x: bv32)
    ensures BitSteps(x, 8) == EightSteps(x)
  {
    hide BitStep;
    var y := BitStep(BitStep(BitStep(BitStep(x))));
    assert BitSteps(x, 8) == BitSteps(y, 4);
    assert BitSteps(y, 4) == BitSteps(BitStep(BitStep(y)), 2);
  }

  /** One octet of a message, with the words on the way given. */
  lemma FeedOctet(r: bv32, o: bv8, buf: seq<bv8>, x: bv32, t: bv32, r': bv32)
    requires buf != [] && buf[0] == o
    requires x == Add(r & 0xff, o as bv32) && t == EightSteps(x) && r' == Add(r >> 8, t)
    ensures FeedAll(r, MessageBits(buf)) == FeedAll(r', MessageBits(buf[1..]))
  {
    hide Add, BitStep, BitSteps, EightSteps, FeedAll, OctetBits;
    FeedAllConcat(r, OctetBits(o), MessageBits(buf[1..]));
    OctetStep(r, o);
    EightStepsAre(x);
  }

  /** The octets of the digits 1 to 9. */
  function Digits(): seq<bv8> {
    [0x31, 0x32, 0x33, 0x34, 0x35, 0x36, 0x37, 0x38, 0x39]
  }

  lemma CheckDigits123(buf: seq<bv8>)
    requires buf == Digits()
    ensures FeedAll(0xffffffff, MessageBits(buf[0..])) == FeedAll(0x77b79c2d, MessageBits(buf[3..]))
  {
    hide FeedAll, MessageBits;
    FeedOctet(0xffffffff, 0x31, buf[0..], 0x000000ce, 0x7cdcefb7, 0x7c231048);
    FeedOctet(0x7c231048, 0x32, buf[1..], 0x0000007a, 0xb0d09822, 0xb0acbb32);
    FeedOctet(0xb0acbb32, 0x33, buf[2..], 0x00000001, 0x77073096, 0x77b79c2d);
  }

  lemma CheckDigits456(buf: seq<bv8>)
    requires buf == Digits()
    ensures FeedAll(0x77b79c2d, MessageBits(buf[3..])) == FeedAll(0xf68d2c9e, MessageBits(buf[6..]))
  {
    hide FeedAll, MessageBits;
    FeedOctet(0x77b79c2d, 0x34, buf[3..], 0x00000019, 0x646ba8c0, 0x641c1f5c);
    FeedOctet(0x641c1f5c, 0x35, buf[4..], 0x00000069, 0x346ed9fc, 0x340ac5e3);
    FeedOctet(0x340ac5e3, 0x36, buf[5..], 0x000000d5, 0xf6b9265b, 0xf68d2c9e);
  }

  lemma CheckDigits789(buf: seq<bv8>)
    requires buf == Digits()
    ensures FeedAll(0xf68d2c9e, MessageBits(buf[6..])) == FeedAll(0x340bc6d9, MessageBits(buf[9..]))
  {
    hide FeedAll, MessageBits;
    FeedOctet(0xf68d2c9e, 0x37, buf[6..], 0x000000a9, 0xaf0a1b4c, 0xaffc9660);
    FeedOctet(0xaffc9660, 0x38, buf[7..], 0x00000058, 0x65b0d9c6, 0x651f2550);
    FeedOctet(0x651f2550, 0x39, buf[8..], 0x00000069, 0x346ed9fc, 0x340bc6d9);
  }

  /** The CRC of the digits 1 to 9, started with 0, is the published check value of CRC-32. */
  lemma CheckValue()
    ensures Crc(0, Digits()) == 0xcbf43926
  {
    var buf := Digits();
    CheckDigits123(buf);
    CheckDigits456(buf);
    CheckDigits789(buf);
    hide FeedAll, MessageBits;
    FeedNothing(0x340bc6d9);
    assert buf[0..] == buf && buf[9..] == [];
  }
}
