/**
  hw1/src/audio.c: the header and the samples of a Sun audio file, as bytes of a stream.
*/
module Audio {
  import opened Wrappers

  newtype uint32 = x: int | 0 <= x < 0x1_0000_0000
  newtype int16 = x: int | -0x8000 <= x < 0x8000

  const AUDIO_MAGIC: uint32 := 0x2e736e64
  const PCM16_ENCODING: uint32 := 3
  const AUDIO_FRAME_RATE: uint32 := 8000
  const AUDIO_CHANNELS: uint32 := 1
  const AUDIO_DATA_OFFSET: uint32 := 24

  datatype Header = Header(
    magic: uint32, offset: uint32, size: uint32, encoding: uint32, rate: uint32, channels: uint32)

  /** The headers both routines accept. */
  predicate Valid(h: Header) {
    && h.magic == AUDIO_MAGIC && h.offset >= AUDIO_DATA_OFFSET && h.size != 0xffff_ffff
    && h.encoding == PCM16_ENCODING && h.rate == AUDIO_FRAME_RATE && h.channels == AUDIO_CHANNELS
  }

  // ----- numbers as bytes -----

  /** Four bytes, the most significant first. */
  function Word(n: uint32): (r: seq<byte>)
    ensures |r| == 4
  {
    var a := n as int / 256;
    var b := a / 256;
    [(b / 256) as byte, (b % 256) as byte, (a % 256) as byte, (n as int % 256) as byte]
  }

  /** The value c that the reader accumulates, shifting it one byte for each. */
  function Value(s: seq<byte>): (n: nat) {
    if s == [] then 0 else Value(s[..|s| - 1]) * 256 + s[|s| - 1] as nat
  }

  lemma ValueOfFour(s: seq<byte>)
    requires |s| == 4
    ensures Value(s) == ((s[0] as int * 256 + s[1] as int) * 256 + s[2] as int) * 256 + s[3] as int
    ensures Value(s) < 0x1_0000_0000
  {
    var s3, s2, s1 := s[..3], s[..2], s[..1];
    assert s3[..2] == s2 && s2[..1] == s1 && s1[..0] == [];
    assert Value(s1) == s[0] as int;
    assert Value(s2) == Value(s1) * 256 + s[1] as int;
    assert Value(s3) == Value(s2) * 256 + s[2] as int;
  }

  lemma ValueOfWord(n: uint32)
    ensures Value(Word(n)) == n as int
  {
    ValueOfFour(Word(n));
  }

  /** A header as it is written. */
  function HeaderBytes(h: Header): (r: seq<byte>)
    ensures |r| == 24
  {
    Word(h.magic) + Word(h.offset) + Word(h.size) + Word(h.encoding) + Word(h.rate) + Word(h.channels)
  }

  /** The number in the four bytes from k on. */
  function Field(s: seq<byte>, k: nat): uint32
    requires k + 4 <= |s|
  {
    ValueOfFour(s[k..k + 4]);
    Value(s[k..k + 4]) as uint32
  }

  /** The numbers in the first 24 bytes. */
  function HeaderOf(s: seq<byte>): Header
    requires |s| >= 24
  {
    Header(Field(s, 0), Field(s, 4), Field(s, 8), Field(s, 12), Field(s, 16), Field(s, 20))
  }

  lemma FieldOfWord(a: seq<byte>, n: uint32, b: seq<byte>)
    ensures Field(a + Word(n) + b, |a|) == n
  {
    ValueOfWord(n);
    assert (a + Word(n) + b)[|a|..|a| + 4] == Word(n);
  }

  lemma HeaderRoundTrip(h: Header, rest: seq<byte>)
    ensures HeaderOf(HeaderBytes(h) + rest) == h
  {
    var s := HeaderBytes(h) + rest;
    var m, o, z, e, r, c := Word(h.magic), Word(h.offset), Word(h.size), Word(h.encoding), Word(h.rate), Word(h.channels);
    hide Word, Field;
    FieldOfWord([], h.magic, o + z + e + r + c + rest);
    FieldOfWord(m, h.offset, z + e + r + c + rest);
    FieldOfWord(m + o, h.size, e + r + c + rest);
    FieldOfWord(m + o + z, h.encoding, r + c + rest);
    FieldOfWord(m + o + z + e, h.rate, c + rest);
    FieldOfWord(m + o + z + e + r, h.channels, rest);
    assert s == [] + m + (o + z + e + r + c + rest);
    assert s == m + o + (z + e + r + c + rest);
    assert s == m + o + z + (e + r + c + rest);
    assert s == m + o + z + e + (r + c + rest);
    assert s == m + o + z + e + r + (c + rest);
    assert s == m + o + z + e + r + c + rest;
  }

  /** s holds, from k on, the base-256 digits of n, the most significant first. */
  predicate FourDigits(s: seq<byte>, k: nat, n: uint32)
    requires k + 4 <= |s|
  {
    && s[k] as int == n as int / 0x100_0000 && s[k + 1] as int == n as int / 0x1_0000 % 256
    && s[k + 2] as int == n as int / 256 % 256 && s[k + 3] as int == n as int % 256
  }

  lemma WordDigits(n: uint32)
    ensures FourDigits(Word(n), 0, n)
  {
    var a := n as int / 256;
    assert a / 256 == n as int / 0x1_0000 && a / 256 / 256 == n as int / 0x100_0000;
  }

  /** Where each field of the header is in the file, and in which order its bytes come. */
  lemma HeaderLayout(h: Header)
    ensures var s := HeaderBytes(h);
            && FourDigits(s, 0, h.magic) && FourDigits(s, 4, h.offset) && FourDigits(s, 8, h.size)
            && FourDigits(s, 12, h.encoding) && FourDigits(s, 16, h.rate) && FourDigits(s, 20, h.channels)
  {
    WordDigits(h.magic);
    WordDigits(h.offset);
    WordDigits(h.size);
    WordDigits(h.encoding);
    WordDigits(h.rate);
    WordDigits(h.channels);
    hide Word;
  }

  /** The headers of this format: ".snd", a data offset from 24 on, 16-bit samples, 8000 a second, one channel. */
  lemma ValidExactly(h: Header)
    ensures Valid(h)
       <==> && HeaderBytes(h)[..4] == [0x2e, 0x73, 0x6e, 0x64] && h.offset >= 24 && h.size < 0xffff_ffff
            && HeaderBytes(h)[12..] == [0, 0, 0, 3, 0, 0, 0x1f, 0x40, 0, 0, 0, 1]
  {
    var s := HeaderBytes(h);
    var m, e, r, c := Word(h.magic), Word(h.encoding), Word(h.rate), Word(h.channels);
    assert s[..4] == m && s[12..] == e + r + c;
    WordIs(h.magic, 0x2e736e64, [0x2e, 0x73, 0x6e, 0x64]);
    WordIs(h.encoding, 3, [0, 0, 0, 3]);
    WordIs(h.rate, 8000, [0, 0, 0x1f, 0x40]);
    WordIs(h.channels, 1, [0, 0, 0, 1]);
    hide Word;
    var three: seq<byte>, rate: seq<byte>, one: seq<byte> := [0, 0, 0, 3], [0, 0, 0x1f, 0x40], [0, 0, 0, 1];
    ThreeParts(s[12..], e, r, c, three, rate, one);
    assert three + rate + one == [0, 0, 0, 3, 0, 0, 0x1f, 0x40, 0, 0, 0, 1];
  }

  lemma WordIs(n: uint32, v: uint32, b: seq<byte>)
    requires b == Word(v)
    ensures Word(n) == b <==> n == v
  {
    ValueOfWord(n);
    ValueOfWord(v);
  }

  lemma ThreeParts(s: seq<byte>, a: seq<byte>, b: seq<byte>, c: seq<byte>, x: seq<byte>, y: seq<byte>, z: seq<byte>)
    requires s == a + b + c && |a| == |x| && |b| == |y| && |c| == |z|
    ensures s == x + y + z <==> a == x && b == y && c == z
  {
    if s == x + y + z {
      assert a == s[..|a|] && x == (x + y + z)[..|x|];
      assert b == s[|a|..|a| + |b|] && y == (x + y + z)[|x|..|x| + |y|];
      assert c == s[|a| + |b|..] && z == (x + y + z)[|x| + |y|..];
    }
  }

  // ----- samples -----

  /** x stored into 16 bits. */
  function Wrapped(x: int): int16 {
    var r := x % 0x1_0000;
    (if r < 0x8000 then r else r - 0x1_0000) as int16
  }

  /** The two bytes of a sample, the more significant first. */
  function SampleBytes(v: int16): (r: seq<byte>)
    ensures |r| == 2
  {
    var u := v as int % 0x1_0000;
    [(u / 256) as byte, (u % 256) as byte]
  }

  /** What is made of two bytes, the second of which may be the end of the file, -1. */
  function Joined(b1: byte, c2: int): int16 {
    Wrapped(Wrapped(b1 as int * 256) as int + c2)
  }

  function AllBytes(vs: seq<int16>): seq<byte> {
    if vs == [] then [] else SampleBytes(vs[0]) + AllBytes(vs[1..])
  }

  /** The samples read until the end of the file; an odd byte there makes one more. */
  function Samples(s: seq<byte>): seq<int16> {
    if s == [] then []
    else if |s| == 1 then [Joined(s[0], -1)]
    else [Joined(s[0], s[1] as int)] + Samples(s[2..])
  }

  lemma JoinedBytes(v: int16)
    ensures Joined(SampleBytes(v)[0], SampleBytes(v)[1] as int) == v
  {
    var u := v as int % 0x1_0000;
    var b1, b2 := u / 256, u % 256;
    assert u == 256 * b1 + b2 && 0 <= b1 < 256;
    JoinedIs(b1 as byte, b2);
    WrappedBack(v);
    hide Wrapped, Joined;
  }

  lemma WrappedBack(v: int16)
    ensures Wrapped(v as int % 0x1_0000) == v
  {
  }

  /** For a real second byte, the two wrap-arounds amount to one. */
  lemma JoinedIs(b1: byte, c2: int)
    requires 0 <= c2 < 256
    ensures Joined(b1, c2) == Wrapped(256 * b1 as int + c2)
  {
  }

  lemma BytesJoined(b1: byte, b2: byte)
    ensures SampleBytes(Joined(b1, b2 as int)) == [b1, b2]
  {
    var u := 256 * b1 as int + b2 as int;
    JoinedIs(b1, b2 as int);
    WrappedIs(u);
    hide Wrapped, Joined;
    assert u / 256 == b1 as int && u % 256 == b2 as int;
  }

  lemma WrappedIs(u: int)
    requires 0 <= u < 0x1_0000
    ensures Wrapped(u) as int % 0x1_0000 == u
  {
  }

  /** A sample is two's complement, the more significant byte first, whether written or read. */
  lemma SampleLayout(v: int16, b1: byte, b2: byte)
    ensures SampleBytes(v)[0] as int * 256 + SampleBytes(v)[1] as int == v as int + if v < 0 then 0x1_0000 else 0
    ensures Joined(b1, b2 as int) as int == b1 as int * 256 + b2 as int - if b1 >= 128 then 0x1_0000 else 0
  {
    JoinedIs(b1, b2 as int);
    hide Joined;
  }

  /** The end of the file in place of the second byte counts as -1. */
  lemma OddByte(b1: byte)
    ensures Joined(b1, -1) as int == b1 as int * 256 - 1 - if b1 > 128 then 0x1_0000 else 0
  {
  }

  /** All 65536 values survive, whatever their bytes. */
  lemma {:induction false} SamplesRoundTrip(vs: seq<int16>)
    ensures Samples(AllBytes(vs)) == vs && |AllBytes(vs)| == 2 * |vs|
  {
    if vs != [] {
      var b, rest := SampleBytes(vs[0]), AllBytes(vs[1..]);
      var s := b + rest;
      JoinedBytes(vs[0]);
      SamplesRoundTrip(vs[1..]);
      assert s[0] == b[0] && s[1] == b[1] && s[2..] == rest;
      assert vs == [vs[0]] + vs[1..];
    }
  }

  lemma {:induction false} SampleCount(s: seq<byte>)
    ensures |Samples(s)| == (|s| + 1) / 2
    decreases |s|
  {
    if |s| > 1 {
      SampleCount(s[2..]);
    }
  }

  lemma {:induction false} EvenBytesReturn(s: seq<byte>)
    requires |s| % 2 == 0
    ensures AllBytes(Samples(s)) == s
    decreases |s|
  {
    if s != [] {
      EvenBytesReturn(s[2..]);
      BytesJoined(s[0], s[1]);
      var v, vs := Joined(s[0], s[1] as int), Samples(s[2..]);
      assert Samples(s) == [v] + vs && ([v] + vs)[1..] == vs;
      hide SampleBytes, Joined, Samples;
      assert AllBytes([v] + vs) == SampleBytes(v) + AllBytes(vs);
      assert s == [s[0], s[1]] + s[2..];
    }
  }

  /** Writing what was read gives the same bytes exactly when their number is even. */
  lemma BytesRoundTrip(s: seq<byte>)
    ensures AllBytes(Samples(s)) == s <==> |s| % 2 == 0
  {
    hide *;
    if |s| % 2 == 0 {
      EvenBytesReturn(s);
    } else {
      SamplesRoundTrip(Samples(s));
      SampleCount(s);
      assert |AllBytes(Samples(s))| == |s| + 1;
    }
  }

  /**
    A file as the format has it, with an annotation up to the data offset: reading samples right
    behind the header gives the samples exactly when there is no annotation, at offset 24.
  */
  lemma AnnotationExactly(h: Header, annotation: seq<byte>, vs: seq<int16>)
    requires Valid(h) && |annotation| == h.offset as int - 24
    ensures Samples((HeaderBytes(h) + annotation + AllBytes(vs))[24..]) == vs <==> h.offset == 24
  {
    var rest := annotation + AllBytes(vs);
    assert (HeaderBytes(h) + annotation + AllBytes(vs))[24..] == rest;
    SamplesRoundTrip(vs);
    SampleCount(rest);
    if h.offset == 24 {
      assert rest == AllBytes(vs);
    }
  }

  /** A header and samples written one after the other are read back, whatever the header's data offset. */
  lemma FileRoundTrip(h: Header, vs: seq<int16>)
    ensures var s := HeaderBytes(h) + AllBytes(vs); HeaderOf(s) == h && Samples(s[24..]) == vs
  {
    HeaderRoundTrip(h, AllBytes(vs));
    SamplesRoundTrip(vs);
    assert (HeaderBytes(h) + AllBytes(vs))[24..] == AllBytes(vs);
  }

  // ----- the routines -----

  class InFile {
    const data: seq<byte>
    var pos: nat

    constructor (s: seq<byte>)
      ensures data == s && pos == 0
    {
      data, pos := s, 0;
    }

    ghost predicate Valid()
      reads this
    {
      pos <= |data|
    }

    /** fgetc: -1 at the end of the file. */
    method GetC() returns (c: int)
      requires Valid()
      modifies this
      ensures Valid()
      ensures old(pos) < |data| ==> c == data[old(pos)] as int && pos == old(pos) + 1
      ensures old(pos) == |data| ==> c == -1 && pos == old(pos)
    {
      if pos == |data| {
        return -1;
      }
      c := data[pos] as int;
      pos := pos + 1;
    }
  }

  /** audio_read_header: None when the file ends or the header is not one of ours. */
  method ReadHeader(file: InFile) returns (r: Option<Header>)
    requires file.Valid()
    modifies file
    ensures file.Valid()
    ensures r == var s := file.data[old(file.pos)..];
                 if |s| >= 24 && Valid(HeaderOf(s)) then Some(HeaderOf(s)) else None
    ensures file.pos == if |file.data| - old(file.pos) >= 24 then old(file.pos) + 24 else |file.data|
  {
    ghost var s := file.data[file.pos..];
    var words: seq<uint32> := [];
    var i, c := 1, 0;
    hide HeaderOf, Valid;
    assert Accumulated(s, 1, words, c);
    while i < 25
      invariant 1 <= i <= 25 && file.Valid() && file.pos == old(file.pos) + i - 1
      invariant Accumulated(s, i, words, c)
    {
      hide Accumulated;
      var val := file.GetC();
      if val == -1 {
        return None;
      }
      AccumulatedMore(s, i, words, c);
      c := c * 256 + val;
      if i % 4 == 0 {
        words := words + [c as uint32];
        c := 0;
      }
      i := i + 1;
    }
    AllWords(s, words, c);
    var h := Header(words[0], words[1], words[2], words[3], words[4], words[5]);
    if Valid(h) {
      return Some(h);
    }
    return None;
  }

  /** Before byte i: the words complete so far, and what there is of the next. */
  ghost predicate Accumulated(s: seq<byte>, i: int, words: seq<uint32>, c: int) {
    var w := (i - 1) / 4;
    && 1 <= i <= |s| + 1 && |words| == w
    && (forall k {:trigger words[k]} :: 0 <= k < w ==> words[k] == Field(s, 4 * k))
    && c == Value(s[4 * w..i - 1])
  }

  lemma AccumulatedMore(s: seq<byte>, i: int, words: seq<uint32>, c: int)
    requires Accumulated(s, i, words, c) && i <= |s|
    ensures var c' := c * 256 + s[i - 1] as int;
            if i % 4 != 0 then Accumulated(s, i + 1, words, c')
            else 0 <= c' < 0x1_0000_0000 && Accumulated(s, i + 1, words + [c' as uint32], 0)
  {
    var w := (i - 1) / 4;
    OneMoreByte(s, 4 * w, i - 1);
    if i % 4 == 0 {
      assert 4 * w + 4 == i;
      WordDone(s, 4 * w);
    }
    hide Field, Value;
  }

  lemma AllWords(s: seq<byte>, words: seq<uint32>, c: int)
    requires Accumulated(s, 25, words, c)
    ensures |words| == 6 && |s| >= 24
    ensures Header(words[0], words[1], words[2], words[3], words[4], words[5]) == HeaderOf(s)
  {
    hide Field, Value;
  }

  lemma OneMoreByte(s: seq<byte>, k: nat, i: nat)
    requires k <= i < |s|
    ensures Value(s[k..i + 1]) == Value(s[k..i]) * 256 + s[i] as nat
  {
    assert s[k..i + 1][..i - k] == s[k..i];
  }

  lemma WordDone(s: seq<byte>, k: nat)
    requires k + 4 <= |s|
    ensures Value(s[k..k + 4]) < 0x1_0000_0000 && Value(s[k..k + 4]) as uint32 == Field(s, k) && Value(s[k + 4..k + 4]) == 0
  {
    ValueOfFour(s[k..k + 4]);
  }

  /** n >> 8 * i. */
  function Shifted(n: nat, i: nat): nat {
    if i == 0 then n else Shifted(n, i - 1) / 256
  }

  /** write_bytes: most significant byte first. */
  method WriteBytes(num: uint32) returns (out: seq<byte>)
    ensures out == Word(num)
  {
    out := [];
    var i := 3;
    while i >= 0
      invariant -1 <= i <= 3 && |out| == 3 - i
      invariant forall k :: 0 <= k < |out| ==> out[k] as int == Shifted(num as int, 3 - k) % 256
    {
      out := out + [(Shifted(num as int, i) % 256) as byte];
      i := i - 1;
    }
    ShiftedAll(num);
  }

  lemma ShiftedAll(num: uint32)
    ensures forall k {:trigger Word(num)[k]} :: 0 <= k < 4 ==> Word(num)[k] as int == Shifted(num as int, 3 - k) % 256
  {
    var n := num as int;
    assert Shifted(n, 1) == n / 256 && Shifted(n, 2) == n / 256 / 256 && Shifted(n, 3) == n / 256 / 256 / 256;
  }

  /** audio_write_header: nothing is written for a header that is not one of ours. */
  method WriteHeader(h: Header) returns (r: Option<seq<byte>>)
    ensures r == if Valid(h) then Some(HeaderBytes(h)) else None
  {
    if !Valid(h) {
      return None;
    }
    var w1 := WriteBytes(h.magic);
    var w2 := WriteBytes(h.offset);
    var w3 := WriteBytes(h.size);
    var w4 := WriteBytes(h.encoding);
    var w5 := WriteBytes(h.rate);
    var w6 := WriteBytes(h.channels);
    hide Word;
    return Some(w1 + w2 + w3 + w4 + w5 + w6);
  }

  /** audio_read_sample. */
  method ReadSample(file: InFile) returns (r: Option<int16>)
    requires file.Valid()
    modifies file
    ensures file.Valid() && (r.None? <==> old(file.pos) == |file.data|)
    ensures r.Some? ==> var s := file.data[old(file.pos)..];
                        Samples(s) == [r.value] + Samples(file.data[file.pos..]) && file.pos > old(file.pos)
  {
    ghost var s := file.data[file.pos..];
    var b1 := file.GetC();
    var val := Wrapped(b1);
    assert val as int == b1;
    if val == -1 {
      return None;
    }
    val := Wrapped(val as int * 256);
    var c2 := file.GetC();
    val := Wrapped(val as int + c2);
    assert val == Joined(s[0], c2);
    hide Wrapped, Joined;
    assert file.data[file.pos..] == if |s| == 1 then [] else s[2..];
    return Some(val);
  }

  lemma HighByte(v: int)
    requires -0x8000 <= v < 0x8000
    ensures v / 256 % 256 == v % 0x1_0000 / 256 && v % 256 == v % 0x1_0000 % 256
  {
    var q, r := v / 256, v % 256;
    assert v == 256 * q + r;
    if v < 0 {
      assert v % 0x1_0000 == 256 * (q + 256) + r;
    }
  }

  /** audio_write_sample: fputc keeps the last eight bits of what it is given. */
  method WriteSample(sample: int16) returns (out: seq<byte>)
    ensures out == SampleBytes(sample)
  {
    var v := sample as int;
    var byte1 := v / 256;
    HighByte(v);
    out := [(byte1 % 256) as byte, (v % 256) as byte];
  }
}
