/**
  hw5/src/protocol.c: packets on a byte stream. A header is its sixteen bytes in memory, multi-byte
  fields in network byte order, with the padding the compiler leaves between them.
*/
module Protocol {
  import opened Wrappers
  import opened Rio

  const HEADER_SIZE := 16

  /** JEUX_PACKET_HEADER with its fields as numbers; `gap` are the three bytes of padding. */
  datatype Header = Header(kind: byte, id: byte, role: byte, size: nat, sec: nat, nsec: nat, gap: seq<byte>)

  predicate ValidHeader(h: Header) {
    h.size < 0x1_0000 && h.sec < 0x1_0000_0000 && h.nsec < 0x1_0000_0000 && |h.gap| == 3
  }

  function Big(n: nat, width: nat): (r: seq<byte>)
    ensures |r| == width
  {
    if width == 0 then [] else Big(n / 256, width - 1) + [(n % 256) as byte]
  }

  function Number(s: seq<byte>): (n: nat) {
    if s == [] then 0 else Number(s[..|s| - 1]) * 256 + s[|s| - 1] as nat
  }

  function Power(width: nat): (p: nat)
    ensures p > 0
  {
    if width == 0 then 1 else 256 * Power(width - 1)
  }

  lemma {:induction false} NumberOfBig(n: nat, width: nat)
    requires n < Power(width)
    ensures Number(Big(n, width)) == n
  {
    if width > 0 {
      NumberOfBig(n / 256, width - 1);
      var b := Big(n, width);
      assert b[..width - 1] == Big(n / 256, width - 1);
    }
  }

  lemma {:induction false} BigOfNumber(s: seq<byte>)
    ensures Number(s) < Power(|s|) && Big(Number(s), |s|) == s
  {
    if s != [] {
      var w := |s| - 1;
      BigOfNumber(s[..w]);
      assert s == s[..w] + [s[w]];
    }
  }

  /** The header as it stands in memory and goes over the wire. */
  function Encode(h: Header): (r: seq<byte>)
    requires ValidHeader(h)
    ensures |r| == HEADER_SIZE
  {
    [h.kind, h.id, h.role, h.gap[0]] + Big(h.size, 2) + h.gap[1..3] + Big(h.sec, 4) + Big(h.nsec, 4)
  }

  function Decode(b: seq<byte>): Header
    requires |b| == HEADER_SIZE
  {
    Header(b[0], b[1], b[2], Number(b[4..6]), Number(b[8..12]), Number(b[12..16]), [b[3]] + b[6..8])
  }

  /** Network byte order loses nothing, in either direction. */
  lemma HeaderRoundTrip(h: Header)
    requires ValidHeader(h)
    ensures Decode(Encode(h)) == h
  {
    var b := Encode(h);
    assert Power(2) == 0x1_0000 && Power(4) == 0x1_0000_0000 by {
      assert Power(1) == 256 && Power(3) == 256 * Power(2);
    }
    NumberOfBig(h.size, 2);
    NumberOfBig(h.sec, 4);
    NumberOfBig(h.nsec, 4);
    assert b[4..6] == Big(h.size, 2) && b[8..12] == Big(h.sec, 4) && b[12..16] == Big(h.nsec, 4);
    assert [b[3]] + b[6..8] == h.gap;
  }

  lemma BytesRoundTrip(b: seq<byte>)
    requires |b| == HEADER_SIZE
    ensures ValidHeader(Decode(b)) && Encode(Decode(b)) == b
  {
    assert Power(2) == 0x1_0000 && Power(4) == 0x1_0000_0000 by {
      assert Power(1) == 256 && Power(3) == 256 * Power(2);
    }
    BigOfNumber(b[4..6]);
    BigOfNumber(b[8..12]);
    BigOfNumber(b[12..16]);
    assert b == [b[0], b[1], b[2], b[3]] + b[4..6] + b[6..8] + b[8..12] + b[12..16];
  }

  /** b holds, from k on, the base-256 digits of a number below 2^32, the most significant first. */
  predicate FourDigits(b: seq<byte>, k: nat, n: nat)
    requires k + 4 <= |b|
  {
    && b[k] as int == n / 0x100_0000 && b[k + 1] as int == n / 0x1_0000 % 256
    && b[k + 2] as int == n / 256 % 256 && b[k + 3] as int == n % 256
  }

  lemma BigTwo(n: nat)
    requires n < 0x1_0000
    ensures Big(n, 2)[0] as int == n / 256 && Big(n, 2)[1] as int == n % 256
  {
    assert Big(n / 256, 1) == Big(n / 256 / 256, 0) + [(n / 256 % 256) as byte];
  }

  lemma BigFour(n: nat)
    requires n < 0x1_0000_0000
    ensures FourDigits(Big(n, 4), 0, n)
  {
    var n1 := n / 256;
    var n2 := n1 / 256;
    var n3 := n2 / 256;
    assert n2 == n / 0x1_0000 && n3 == n / 0x100_0000;
    assert Big(n3, 1) == Big(n3 / 256, 0) + [(n3 % 256) as byte];
    assert Big(n2, 2) == Big(n3, 1) + [(n2 % 256) as byte];
    assert Big(n1, 3) == Big(n2, 2) + [(n1 % 256) as byte];
    assert Big(n, 4) == Big(n1, 3) + [(n % 256) as byte];
  }

  /** Where each field is on the wire, and in which order its bytes come. */
  lemma WireLayout(h: Header)
    requires ValidHeader(h)
    ensures var b := Encode(h);
            && b[0] == h.kind && b[1] == h.id && b[2] == h.role
            && b[4] as int == h.size / 256 && b[5] as int == h.size % 256
            && FourDigits(b, 8, h.sec) && FourDigits(b, 12, h.nsec)
  {
    BigTwo(h.size);
    BigFour(h.sec);
    BigFour(h.nsec);
    hide Big;
  }

  lemma NumberOfTwo(s: seq<byte>)
    requires |s| == 2
    ensures Number(s) == s[0] as int * 256 + s[1] as int
  {
    assert s[..1][..0] == [];
    assert Number(s[..1]) == Number(s[..1][..0]) * 256 + s[0] as int;
  }

  /** What reception makes of the same bytes. */
  lemma HeaderLayout(b: seq<byte>)
    requires |b| == HEADER_SIZE
    ensures var h := Decode(b);
            && h.kind == b[0] && h.id == b[1] && h.role == b[2]
            && h.size == b[4] as int * 256 + b[5] as int
            && FourDigits(b, 8, h.sec) && FourDigits(b, 12, h.nsec)
  {
    BytesRoundTrip(b);
    WireLayout(Decode(b));
    NumberOfTwo(b[4..6]);
    hide Encode, Number;
  }

  // ----- what is sent -----

  datatype Packet = Packet(hdr: Header, payload: seq<byte>)

  predicate Complete(p: Packet) {
    ValidHeader(p.hdr) && |p.payload| == p.hdr.size
  }

  function Wire(p: Packet): seq<byte>
    requires Complete(p)
  {
    Encode(p.hdr) + p.payload
  }

  /** The bytes of one send: the payload only if there is data for it. */
  function Sent(h: Header, data: Option<seq<byte>>): seq<byte>
    requires ValidHeader(h) && (h.size != 0 && data.Some? ==> h.size <= |data.value|)
  {
    Encode(h) + if h.size != 0 && data.Some? then data.value[..h.size] else []
  }

  /** proto_send_packet. */
  method SendPacket(fd: OutFd, h: Header, data: Option<seq<byte>>) returns (r: int)
    requires ValidHeader(h) && (h.size != 0 && data.Some? ==> h.size <= |data.value|)
    modifies fd
    ensures r == 0 || r == -1
    ensures r == 0 ==> fd.sent == old(fd.sent) + Sent(h, data)
    ensures CleanWrites(old(fd.script)) ==> r == 0 && CleanWrites(fd.script)
  {
    var n := WriteN(fd, Encode(h));
    if n < 0 {
      return -1;
    }
    if h.size != 0 && data.Some? {
      n := WriteN(fd, data.value[..h.size]);
      if n < 0 {
        return -1;
      }
    }
    return 0;
  }

  // ----- what is received -----

  /** A received packet: its header bytes and the payload bytes that did arrive; or a failure. */
  datatype Received =
    | Failure(rest: seq<byte>)
    | Success(hdr: seq<byte>, payload: seq<byte>, rest: seq<byte>)

  /** The first k bytes, or all there are. */
  function Upto(s: seq<byte>, k: nat): seq<byte> {
    s[..Min(k, |s|)]
  }

  function Behind(s: seq<byte>, k: nat): seq<byte> {
    s[Min(k, |s|)..]
  }

  /** proto_recv_packet on a stream, when the caller's header storage holds `stale`. */
  function Receive(s: seq<byte>, stale: seq<byte>): Received
    requires |stale| == HEADER_SIZE
  {
    if s == [] then Failure(s)
    else
      var hdr := Upto(s, HEADER_SIZE) + stale[Min(HEADER_SIZE, |s|)..];
      var size, rest := Number(hdr[4..6]), Behind(s, HEADER_SIZE);
      if size == 0 then Success(hdr, [], rest)
      else if rest == [] then Failure(rest)
      else Success(hdr, Upto(rest, size), Behind(rest, size))
  }

  /** A packet that is all there is taken whole, and nothing behind it. */
  lemma ReceiveWhole(s: seq<byte>, stale: seq<byte>)
    requires |stale| == HEADER_SIZE && |s| >= 16 && |s| >= 16 + s[4] as int * 256 + s[5] as int
    ensures var n := s[4] as int * 256 + s[5] as int;
            Receive(s, stale) == Success(s[..16], s[16..16 + n], s[16 + n..])
  {
    var n := s[4] as int * 256 + s[5] as int;
    assert stale[HEADER_SIZE..] == [];
    assert Upto(s, HEADER_SIZE) + stale[HEADER_SIZE..] == s[..16];
    NumberOfTwo(s[..16][4..6]);
    hide Number;
    assert Behind(s, HEADER_SIZE) == s[16..];
    assert Upto(s[16..], n) == s[16..16 + n] && Behind(s[16..], n) == s[16 + n..];
    assert n == 0 ==> s[16..16] == [];
  }

  /** The two reads of proto_recv_packet, and the payload's fresh storage with a zero behind its nominal length. */
  method RecvParts(fd: InFd, hdr: array<byte>) returns (r: int, payload: array?<byte>)
    requires hdr.Length == HEADER_SIZE
    modifies fd, hdr
    ensures r == 0 || r == -1
    ensures r == 0 ==>
              && var got := Receive(old(fd.stream), old(hdr[..]));
              && got.Success? && hdr[..] == got.hdr && fd.stream == got.rest
              && (payload == null <==> Number(hdr[4..6]) == 0)
              && (payload != null ==> fresh(payload) && HoldsPayload(payload[..], got.payload, Number(hdr[4..6])))
    ensures Clean(old(fd.script)) ==> Clean(fd.script) && (r == -1 <==> Receive(old(fd.stream), old(hdr[..])).Failure?)
  {
    payload := null;
    ghost var s, stale := fd.stream, hdr[..];
    var n := ReadN(fd, hdr, HEADER_SIZE);
    if n <= 0 {
      return -1, null;
    }
    var size := Number(hdr[4..6]);
    if size != 0 {
      payload := new byte[size + 1];
      n := ReadN(fd, payload, size);
      if n <= 0 {
        return -1, payload;
      }
      payload[size] := 0;
    }
    return 0, payload;
  }

  /** The length that a header announces: its bytes 4 and 5. */
  function Announced(s: seq<byte>): int
    requires |s| >= 6
  {
    s[4] as int * 256 + s[5] as int
  }

  /** A packet that is all there has been taken, and no more: buf is the payload's storage, if any. */
  predicate TookPacket(s: seq<byte>, hdr: seq<byte>, buf: Option<seq<byte>>, rest: seq<byte>)
    requires |s| >= 16 && |s| >= 16 + Announced(s)
  {
    var n := Announced(s);
    && hdr == s[..16] && rest == s[16 + n..]
    && if n == 0 then buf == None
       else buf.Some? && |buf.value| == n + 1 && buf.value[..n] == s[16..16 + n] && buf.value[n] == 0
  }

  function Stored(payload: array?<byte>): Option<seq<byte>>
    reads payload
  {
    if payload == null then None else Some(payload[..])
  }

  lemma TookIt(s: seq<byte>, stale: seq<byte>, buf: Option<seq<byte>>)
    requires |stale| == HEADER_SIZE && |s| >= 16 && |s| >= 16 + Announced(s)
    ensures Receive(s, stale).Success?
    ensures var got := Receive(s, stale);
            && (buf == None <==> Number(got.hdr[4..6]) == 0)
            && (buf.Some? ==> HoldsPayload(buf.value, got.payload, Number(got.hdr[4..6])))
            ==> TookPacket(s, got.hdr, buf, got.rest)
  {
    ReceiveWhole(s, stale);
    NumberOfTwo(s[..16][4..6]);
    hide Receive, Number;
  }

  /** proto_recv_packet. */
  method RecvPacket(fd: InFd, hdr: array<byte>) returns (r: int, payload: array?<byte>)
    requires hdr.Length == HEADER_SIZE
    modifies fd, hdr
    ensures r == 0 || r == -1
    ensures r == 0 ==>
              && var got := Receive(old(fd.stream), old(hdr[..]));
              && got.Success? && hdr[..] == got.hdr && fd.stream == got.rest
              && (payload == null <==> Number(hdr[4..6]) == 0)
              && (payload != null ==> fresh(payload) && HoldsPayload(payload[..], got.payload, Number(hdr[4..6])))
    ensures Clean(old(fd.script)) ==> Clean(fd.script) && (r == -1 <==> Receive(old(fd.stream), old(hdr[..])).Failure?)
    ensures var s := old(fd.stream);
            |s| >= 16 && |s| >= 16 + Announced(s) ==>
              && (Clean(old(fd.script)) ==> r == 0)
              && (r == 0 ==> TookPacket(s, hdr[..], Stored(payload), fd.stream))
  {
    ghost var s, stale := fd.stream, hdr[..];
    r, payload := RecvParts(fd, hdr);
    if |s| >= 16 && |s| >= 16 + Announced(s) {
      TookIt(s, stale, Stored(payload));
      assert hdr[..][4..6] == hdr[4..6];
      hide Receive, Number, HoldsPayload, TookPacket, Clean, Announced;
    }
  }

  predicate HoldsPayload(buf: seq<byte>, arrived: seq<byte>, size: nat) {
    |buf| == size + 1 && |arrived| <= size && buf[..|arrived|] == arrived && buf[size] == 0
  }

  // ----- packets survive the stream -----

  lemma ReceiveComplete(p: Packet, rest: seq<byte>, stale: seq<byte>)
    requires Complete(p) && |stale| == HEADER_SIZE
    ensures Receive(Wire(p) + rest, stale) == Success(Encode(p.hdr), p.payload, rest)
  {
    var h, s := Encode(p.hdr), Wire(p) + rest;
    HeaderRoundTrip(p.hdr);
    assert Decode(h).size == p.hdr.size;
    assert s == h + (p.payload + rest);
    assert stale[HEADER_SIZE..] == [];
    assert Upto(s, HEADER_SIZE) + stale[HEADER_SIZE..] == h;
    assert Behind(s, HEADER_SIZE) == p.payload + rest;
    hide Encode;
    assert Upto(p.payload + rest, |p.payload|) == p.payload && Behind(p.payload + rest, |p.payload|) == rest;
  }

  function WireAll(ps: seq<Packet>): seq<byte>
    requires forall p :: p in ps ==> Complete(p)
  {
    if ps == [] then [] else Wire(ps[0]) + WireAll(ps[1..])
  }

  /** n packets received one after another, each as a packet; None when one of them fails or is cut short. */
  function ReceiveAll(s: seq<byte>, stale: seq<byte>, n: nat): Option<(seq<Packet>, seq<byte>)>
    requires |stale| == HEADER_SIZE
  {
    if n == 0 then Some(([], s))
    else
      match Receive(s, stale)
      case Failure(_) => None
      case Success(h, payload, rest) =>
        if |payload| != Number(h[4..6]) then None
        else
          match ReceiveAll(rest, h, n - 1)
          case None => None
          case Some((ps, left)) => Some(([Packet(Decode(h), payload)] + ps, left))
  }

  lemma ReceiveFirst(p: Packet, tail: seq<byte>, stale: seq<byte>, n: nat)
    requires Complete(p) && |stale| == HEADER_SIZE
    ensures ReceiveAll(Wire(p) + tail, stale, n + 1)
         == match ReceiveAll(tail, Encode(p.hdr), n)
            case None => None
            case Some((ps, left)) => Some(([p] + ps, left))
  {
    ReceiveComplete(p, tail, stale);
    HeaderRoundTrip(p.hdr);
    assert Number(Encode(p.hdr)[4..6]) == Decode(Encode(p.hdr)).size;
    hide Encode, Decode, Receive, Wire, Number;
  }

  /** What is sent is what is received: the same packets, in order, and nothing of what follows them. */
  lemma {:induction false} PacketsRoundTrip(ps: seq<Packet>, rest: seq<byte>, stale: seq<byte>)
    requires (forall p :: p in ps ==> Complete(p)) && |stale| == HEADER_SIZE
    ensures ReceiveAll(WireAll(ps) + rest, stale, |ps|) == Some((ps, rest))
  {
    if ps == [] {
      assert WireAll(ps) + rest == rest;
    } else {
      var p, tail := ps[0], WireAll(ps[1..]) + rest;
      assert WireAll(ps) + rest == Wire(p) + tail;
      hide Encode, Wire, WireAll;
      PacketsRoundTrip(ps[1..], rest, Encode(p.hdr));
      hide ReceiveAll;
      ReceiveFirst(p, tail, stale, |ps| - 1);
      assert ps == [p] + ps[1..];
    }
  }

  /** One send is one packet to the receiver, whatever follows, exactly when a payload that is announced is given. */
  lemma SendFrames(h: Header, data: Option<seq<byte>>)
    requires ValidHeader(h) && (h.size != 0 && data.Some? ==> h.size <= |data.value|)
    ensures (forall rest, stale :: |stale| == HEADER_SIZE ==> ReceivedBack(h, data, rest, stale))
       <==> h.size == 0 || data.Some?
  {
    if h.size == 0 || data.Some? {
      var payload := if h.size == 0 then [] else data.value[..h.size];
      var p := Packet(h, payload);
      assert Sent(h, data) == Wire(p);
      forall rest, stale | |stale| == HEADER_SIZE
        ensures ReceivedBack(h, data, rest, stale)
      {
        ReceiveComplete(p, rest, stale);
      }
    } else {
      assert !ReceivedBack(h, data, [], Encode(h)) by {
        HeaderRoundTrip(h);
        var s, e := Sent(h, data) + [], Encode(h);
        assert s == e;
        assert Upto(s, HEADER_SIZE) + e[HEADER_SIZE..] == e;
        assert Decode(e).size == h.size;
      }
    }
  }

  /** The receiver gets the header, as many payload bytes as it says, and leaves what follows. */
  predicate ReceivedBack(h: Header, data: Option<seq<byte>>, rest: seq<byte>, stale: seq<byte>)
    requires ValidHeader(h) && (h.size != 0 && data.Some? ==> h.size <= |data.value|) && |stale| == HEADER_SIZE
  {
    var got := Receive(Sent(h, data) + rest, stale);
    && got.Success? && got.hdr == Encode(h) && |got.payload| == h.size && got.rest == rest
    && (h.size != 0 && data.Some? ==> got.payload == data.value[..h.size])
  }

  predicate Whole(s: seq<byte>) {
    |s| >= HEADER_SIZE && |s| >= HEADER_SIZE + Number(s[4..6])
  }

  /**
    Reception reports success for a packet that is not all there exactly when the stream ends inside
    the payload, or inside the header and what the storage held makes it a header without payload.
  */
  lemma CutShortExactly(s: seq<byte>, stale: seq<byte>)
    requires |stale| == HEADER_SIZE
    ensures Receive(s, stale).Success? && !Whole(s)
         <==> || (HEADER_SIZE < |s| && |s| < HEADER_SIZE + Number(s[4..6]))
              || (0 < |s| < HEADER_SIZE && Number((s + stale[|s|..])[4..6]) == 0)
  {
    if |s| >= HEADER_SIZE {
      assert (Upto(s, HEADER_SIZE) + stale[HEADER_SIZE..])[4..6] == s[4..6];
    } else {
      assert Upto(s, HEADER_SIZE) == s;
    }
  }

  /** The data a caller passes for a packet: NULL when there is no payload. */
  function DataOf(p: Packet): Option<seq<byte>> {
    if p.payload == [] then None else Some(p.payload)
  }

  lemma SentIsWire(p: Packet)
    requires Complete(p)
    ensures Sent(p.hdr, DataOf(p)) == Wire(p)
  {
    hide Encode;
  }

  lemma {:induction false} WireMore(ps: seq<Packet>, n: nat)
    requires (forall p :: p in ps ==> Complete(p)) && n < |ps|
    ensures Complete(ps[n]) && WireAll(ps[n..]) == Wire(ps[n]) + WireAll(ps[n + 1..])
    ensures WireAll(ps[..n + 1]) == WireAll(ps[..n]) + Wire(ps[n])
  {
    assert ps[n..][0] == ps[n] && ps[n..][1..] == ps[n + 1..];
    if n == 0 {
      assert ps[..1][1..] == [] && ps[..0] == [];
    } else {
      WireMore(ps[1..], n - 1);
      assert ps[1..][..n] == ps[..n + 1][1..] && ps[1..][..n - 1] == ps[..n][1..];
    }
  }

  method SendAll(fd: OutFd, ps: seq<Packet>)
    requires (forall p :: p in ps ==> Complete(p)) && CleanWrites(fd.script)
    modifies fd
    ensures fd.sent == old(fd.sent) + WireAll(ps)
  {
    var i := 0;
    hide CleanWrites;
    while i < |ps|
      invariant i <= |ps| && CleanWrites(fd.script) && fd.sent == old(fd.sent) + WireAll(ps[..i])
    {
      WireMore(ps, i);
      SentIsWire(ps[i]);
      hide Wire, WireAll, Sent;
      var r := SendPacket(fd, ps[i].hdr, DataOf(ps[i]));
      i := i + 1;
    }
    assert ps[..i] == ps;
  }

  /** One whole packet, taken apart again. */
  method RecvOne(fd: InFd, hdr: array<byte>, ghost p: Packet, ghost rest: seq<byte>) returns (got: Packet)
    requires hdr.Length == HEADER_SIZE && Clean(fd.script) && Complete(p) && fd.stream == Wire(p) + rest
    modifies fd, hdr
    ensures Clean(fd.script) && got == p && fd.stream == rest
  {
    ReceiveComplete(p, rest, hdr[..]);
    HeaderRoundTrip(p.hdr);
    var r, payload := RecvPacket(fd, hdr);
    assert hdr[..] == Encode(p.hdr);
    var size := Number(hdr[4..6]);
    assert hdr[4..6] == hdr[..][4..6];
    assert Decode(hdr[..]).size == size;
    hide Encode, Decode, Receive;
    got := Packet(Decode(hdr[..]), if payload == null then [] else payload[..size]);
  }

  /**
    Packets written through any number of short and interrupted writes and read through any number of
    short and interrupted reads arrive as they were sent, in order.
  */
  method Transfer(ps: seq<Packet>, writing: seq<WriteOutcome>, reading: seq<Outcome>) returns (got: seq<Packet>)
    requires (forall p :: p in ps ==> Complete(p)) && CleanWrites(writing) && Clean(reading)
    ensures got == ps
  {
    var writer := new OutFd(writing);
    SendAll(writer, ps);
    var reader := new InFd(writer.sent, reading);
    var hdr := new byte[HEADER_SIZE];
    got := [];
    hide Clean, CleanWrites, WireAll, Wire;
    assert ps[0..] == ps;
    while |got| < |ps|
      invariant |got| <= |ps| && got == ps[..|got|] && Clean(reader.script)
      invariant reader.stream == WireAll(ps[|got|..])
    {
      ghost var k := |got|;
      WireMore(ps, k);
      var p := RecvOne(reader, hdr, ps[k], WireAll(ps[k + 1..]));
      got := got + [p];
    }
  }
}
