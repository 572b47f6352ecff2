/**
  The robust I/O of hw5/src/csapp.c. A descriptor is a byte stream and a script that says, call by
  call, how the kernel treats read and write: how many bytes it moves, an interrupt, or an error. A
  script is finite, so interrupts are; behind its end every call moves all it can.
*/
module Rio {
  import opened Wrappers

  const RIO_BUFSIZE := 8192
  const NEWLINE: byte := 10

  datatype Outcome = Moves(most: nat) | Interrupted | Fails

  /** No error other than an interrupt. */
  predicate Clean(script: seq<Outcome>) {
    Fails !in script
  }

  function Min(a: nat, b: nat): nat {
    if a < b then a else b
  }

  /** A descriptor open for reading; `stream` is what will still arrive before the end of file. */
  class InFd {
    var stream: seq<byte>
    var script: seq<Outcome>

    constructor (s: seq<byte>, how: seq<Outcome>)
      ensures stream == s && script == how
    {
      stream, script := s, how;
    }

    /** read(2): at least one byte unless the stream has ended; the result is -1 on any error. */
    method Read(n: nat) returns (r: int, data: seq<byte>, eintr: bool)
      requires n > 0
      modifies this
      ensures r == -1 || r == |data| <= n
      ensures data + stream == old(stream) && (r == -1 ==> data == [] && stream == old(stream))
      ensures r == 0 <==> old(stream) == [] && r != -1
      ensures |script| <= |old(script)| && (r == -1 ==> |script| < |old(script)|)
      ensures Clean(old(script)) ==> Clean(script) && (r == -1 ==> eintr)
    {
      r, data, eintr := -1, [], false;
      var k := n;
      if script != [] {
        var o := script[0];
        script := script[1..];
        match o {
          case Fails => return;
          case Interrupted => eintr := true; return;
          case Moves(most) => k := Min(n, if most == 0 then 1 else most);
        }
      }
      k := Min(k, |stream|);
      r, data, stream := k, stream[..k], stream[k..];
    }
  }

  /** Bytes copied into a buffer at a position. */
  method CopyTo(buf: array<byte>, at: nat, data: seq<byte>)
    requires at + |data| <= buf.Length
    modifies buf
    ensures buf[..] == old(buf[..])[..at] + data + old(buf[..])[at + |data|..]
  {
    forall i | 0 <= i < |data| {
      buf[at + i] := data[i];
    }
  }

  /** Of the stream s, `at` bytes stand in the buffer, which was u, and the rest is left. */
  predicate Moved(s: seq<byte>, u: seq<byte>, left: seq<byte>, buf: seq<byte>, at: nat) {
    && at <= |s| && at <= |u|
    && left == s[at..] && buf == s[..at] + u[at..]
  }

  lemma MovedMore(s: seq<byte>, u: seq<byte>, v: seq<byte>, left: seq<byte>, at: nat, data: seq<byte>)
    requires at + |data| <= |u| && Moved(s, u, data + left, v, at)
    ensures at + |data| <= |v| && Moved(s, u, left, v[..at] + data + v[at + |data|..], at + |data|)
  {
    assert data == s[at..][..|data|];
    assert left == s[at..][|data|..];
  }

  lemma NothingMoved(s: seq<byte>, u: seq<byte>)
    ensures Moved(s, u, s, u, 0)
  {
  }

  /** Where the stream and the buffer are when `at` bytes have moved. */
  lemma MovedIs(s: seq<byte>, u: seq<byte>, left: seq<byte>, buf: seq<byte>, at: nat)
    requires Moved(s, u, left, buf, at)
    ensures at <= |s| && at <= |u| && left == s[at..] && buf == s[..at] + u[at..]
    ensures |buf| == |u| && buf[..at] == s[..at] && (left == [] <==> at == |s|)
  {
  }

  lemma MovedTo(s: seq<byte>, u: seq<byte>, left: seq<byte>, buf: seq<byte>, at: nat)
    requires Moved(s, u, left, buf, at) && at > 0
    ensures at <= |s| && at <= |buf| && buf[at - 1] == s[at - 1]
  {
  }

  /** One read(2) straight into the caller's buffer. */
  method ReadInto(fd: InFd, usrbuf: array<byte>, at: nat, n: nat, ghost s: seq<byte>, ghost u: seq<byte>)
    returns (r: int, eintr: bool)
    requires n > 0 && at + n <= usrbuf.Length == |u| && Moved(s, u, fd.stream, usrbuf[..], at)
    modifies fd, usrbuf
    ensures -1 <= r <= n && Moved(s, u, fd.stream, usrbuf[..], if r == -1 then at else at + r)
    ensures r == 0 ==> at == |s|
    ensures r > 0 ==> |fd.stream| < |old(fd.stream)|
    ensures |fd.stream| <= |old(fd.stream)| && |fd.script| <= |old(fd.script)|
    ensures r == -1 ==> |fd.script| < |old(fd.script)|
    ensures Clean(old(fd.script)) ==> Clean(fd.script) && (r == -1 ==> eintr)
  {
    MovedIs(s, u, fd.stream, usrbuf[..], at);
    hide Moved, Clean;
    var data;
    r, data, eintr := fd.Read(n);
    if r >= 0 {
      MovedMore(s, u, usrbuf[..], fd.stream, at, data);
      CopyTo(usrbuf, at, data);
    }
  }

  /**
    rio_readn: short only at the end of the stream, whatever the script. On an error the bytes read
    so far are in the buffer and gone from the stream.
  */
  method ReadN(fd: InFd, usrbuf: array<byte>, n: nat) returns (r: int)
    requires n <= usrbuf.Length
    modifies fd, usrbuf
    ensures r == -1 || r == Min(n, |old(fd.stream)|)
    ensures r != -1 ==> Moved(old(fd.stream), old(usrbuf[..]), fd.stream, usrbuf[..], r)
    ensures exists k :: 0 <= k <= n && Moved(old(fd.stream), old(usrbuf[..]), fd.stream, usrbuf[..], k)
    ensures Clean(old(fd.script)) ==> r != -1 && Clean(fd.script)
  {
    var nleft, bufp := n, 0;
    ghost var s, u := fd.stream, usrbuf[..];
    NothingMoved(s, u);
    hide Moved, Clean;
    while nleft > 0
      invariant 0 <= nleft <= n && bufp == n - nleft
      invariant Moved(s, u, fd.stream, usrbuf[..], bufp)
      invariant Clean(old(fd.script)) ==> Clean(fd.script)
      decreases |fd.stream|, |fd.script|
    {
      var nread, eintr := ReadInto(fd, usrbuf, bufp, nleft, s, u);
      if nread < 0 {
        if eintr {
          nread := 0;
        } else {
          return -1;
        }
      } else if nread == 0 {
        break;
      }
      nleft, bufp := nleft - nread, bufp + nread;
    }
    MovedIs(s, u, fd.stream, usrbuf[..], bufp);
    return n - nleft;
  }

  // ----- the buffered reader -----

  /** rio_t: `cnt` unread bytes from `bufptr` on in the internal buffer. */
  class Buffered {
    const fd: InFd
    const buf: array<byte>
    var cnt: int
    var bufptr: nat

    ghost predicate Valid()
      reads this, buf
    {
      buf.Length == RIO_BUFSIZE && (cnt > 0 ==> bufptr + cnt <= RIO_BUFSIZE)
    }

    /** What the callers have yet to see: the bytes in the buffer, then those of the descriptor. */
    ghost function Pending(): seq<byte>
      requires Valid()
      reads this, buf, fd
    {
      (if cnt > 0 then buf[bufptr..bufptr + cnt] else []) + fd.stream
    }

    /** rio_readinitb. */
    constructor (f: InFd)
      ensures Valid() && fd == f && fresh(buf) && Pending() == f.stream
    {
      fd, cnt, bufptr := f, 0, 0;
      buf := new byte[RIO_BUFSIZE];
    }

    /** The loop of rio_read that fills an empty buffer; false when it meets an error. */
    method Refill() returns (ok: bool)
      requires Valid()
      modifies this, buf, fd
      ensures Valid() && Pending() == old(Pending())
      ensures Clean(old(fd.script)) ==> ok && Clean(fd.script)
      ensures ok ==> (cnt > 0 <==> Pending() != [])
    {
      ok := true;
      ghost var p := Pending();
      while cnt <= 0
        invariant Valid() && Pending() == p
        invariant Clean(old(fd.script)) ==> Clean(fd.script)
        decreases if cnt > 0 then 0 else 1 + |fd.script|
      {
        var r, data, eintr := fd.Read(RIO_BUFSIZE);
        cnt := r;
        if cnt < 0 {
          if !eintr {
            return false;
          }
        } else if cnt == 0 {
          return;
        } else {
          CopyTo(buf, 0, data);
          bufptr := 0;
          assert buf[..cnt] == data;
        }
      }
    }

    /** rio_read: some bytes, unless nothing is left; 0 at the end and -1 on an error. */
    method Read(usrbuf: array<byte>, at: nat, n: nat) returns (r: int)
      requires Valid() && usrbuf != buf && n > 0 && at + n <= usrbuf.Length
      modifies this, buf, fd, usrbuf
      ensures Valid() && -1 <= r <= n && r <= |old(Pending())|
      ensures r == 0 <==> old(Pending()) == [] && r != -1
      ensures r != -1 ==> Pending() == old(Pending())[r..]
      ensures r != -1 ==> usrbuf[..] == old(usrbuf[..])[..at] + old(Pending())[..r] + old(usrbuf[..])[at + r..]
      ensures r == -1 ==> Pending() == old(Pending()) && usrbuf[..] == old(usrbuf[..])
      ensures Clean(old(fd.script)) ==> r != -1 && Clean(fd.script)
    {
      ghost var p := Pending();
      var ok := Refill();
      if !ok {
        return -1;
      }
      if cnt <= 0 {
        assert usrbuf[..][..at] + [] + usrbuf[..][at..] == usrbuf[..];
        return 0;
      }
      r := if cnt < n then cnt else n;
      CopyTo(usrbuf, at, buf[bufptr..bufptr + r]);
      Drop(r, p);
    }

    /** The next k bytes of the buffer are used up. */
    method Drop(k: nat, ghost p: seq<byte>)
      requires Valid() && k <= cnt && cnt > 0 && p == Pending()
      modifies this
      ensures Valid() && k <= |p| && Pending() == p[k..]
      ensures old(bufptr) + k <= RIO_BUFSIZE && buf[old(bufptr)..old(bufptr) + k] == p[..k]
    {
      bufptr, cnt := bufptr + k, cnt - k;
    }

    /** s was pending and the caller's buffer was u; `at` bytes of s have been moved there since. */
    ghost predicate Reading(usrbuf: array<byte>, s: seq<byte>, u: seq<byte>, at: nat)
      reads this, buf, fd, usrbuf
    {
      Valid() && usrbuf != buf && usrbuf.Length == |u| && Moved(s, u, Pending(), usrbuf[..], at)
    }

    /** One rio_read behind what has been read before. */
    method ReadMore(usrbuf: array<byte>, at: nat, n: nat, ghost s: seq<byte>, ghost u: seq<byte>) returns (r: int)
      requires n > 0 && at + n <= usrbuf.Length && Reading(usrbuf, s, u, at)
      modifies this, buf, fd, usrbuf
      ensures -1 <= r <= n && Reading(usrbuf, s, u, if r == -1 then at else at + r)
      ensures r == 0 ==> at == |s|
      ensures Clean(old(fd.script)) ==> r != -1 && Clean(fd.script)
    {
      ghost var p, v := Pending(), usrbuf[..];
      MovedIs(s, u, p, v, at);
      hide Moved, Clean, Pending;
      r := Read(usrbuf, at, n);
      if r >= 0 {
        assert p[..r] + p[r..] == p;
        MovedMore(s, u, v, Pending(), at, p[..r]);
      }
    }

    /** rio_readnb: the next n bytes, or all that are left. */
    method ReadNB(usrbuf: array<byte>, n: nat) returns (r: int)
      requires Valid() && usrbuf != buf && n <= usrbuf.Length
      modifies this, buf, fd, usrbuf
      ensures Valid() && (r == -1 || r == Min(n, |old(Pending())|))
      ensures r != -1 ==> Moved(old(Pending()), old(usrbuf[..]), Pending(), usrbuf[..], r)
      ensures exists k :: 0 <= k <= n && Moved(old(Pending()), old(usrbuf[..]), Pending(), usrbuf[..], k)
      ensures Clean(old(fd.script)) ==> r != -1 && Clean(fd.script)
    {
      var nleft, bufp := n, 0;
      ghost var s, u := Pending(), usrbuf[..];
      NothingMoved(s, u);
      hide Moved, Clean, Pending;
      while nleft > 0
        invariant 0 <= nleft <= n && bufp == n - nleft
        invariant Valid() && Moved(s, u, Pending(), usrbuf[..], bufp)
        invariant Clean(old(fd.script)) ==> Clean(fd.script)
        decreases nleft
      {
        var nread := ReadMore(usrbuf, bufp, nleft, s, u);
        if nread < 0 {
          return -1;
        } else if nread == 0 {
          break;
        }
        nleft, bufp := nleft - nread, bufp + nread;
      }
      MovedIs(s, u, Pending(), usrbuf[..], bufp);
      return n - nleft;
    }

    /**
      rio_readlineb: up to and with the first newline, at most maxlen - 1 bytes, and a zero behind
      them; only when there is nothing at all to read is the buffer left alone.
    */
    method ReadLineB(usrbuf: array<byte>, maxlen: nat) returns (r: int)
      requires Valid() && usrbuf != buf && maxlen <= usrbuf.Length && usrbuf.Length > 0
      modifies this, buf, fd, usrbuf
      ensures Valid() && (r == -1 || r == LineLength(old(Pending()), maxlen - 1) < usrbuf.Length)
      ensures r != -1 ==> Pending() == old(Pending())[r..]
      ensures r != -1 ==> usrbuf[..] == LineIn(old(usrbuf[..]), old(Pending())[..r], maxlen)
      ensures r > 0 ==> r < usrbuf.Length && usrbuf[..r] == old(Pending())[..r] && usrbuf[r] == 0
      ensures r == -1 ==> exists k :: 0 <= k < maxlen && Moved(old(Pending()), old(usrbuf[..]), Pending(), usrbuf[..], k)
      ensures Clean(old(fd.script)) ==> r != -1 && Clean(fd.script)
    {
      ghost var s, u := Pending(), usrbuf[..];
      NothingMoved(s, u);
      hide Moved, Clean, Pending, LineIn, LineLength;
      var rc, n := LineBytes(usrbuf, maxlen, s, u);
      if rc < 0 {
        return -1;
      } else if rc == 0 {
        EmptyLine(s, u, Pending(), usrbuf[..], maxlen);
        return 0;
      }
      MovedIs(s, u, Pending(), usrbuf[..], n - 1);
      usrbuf[n - 1] := 0;
      LineStored(s, u, usrbuf[..], n - 1, maxlen);
      LineIsThere(usrbuf[..], s[..n - 1], u[n - 1..]);
      return n - 1;
    }

    /** One byte behind those read before. */
    method ReadChar(usrbuf: array<byte>, at: nat, ghost s: seq<byte>, ghost u: seq<byte>) returns (rc: int, c: byte)
      requires at < usrbuf.Length && Reading(usrbuf, s, u, at)
      modifies this, buf, fd, usrbuf
      ensures -1 <= rc <= 1 && Reading(usrbuf, s, u, if rc == 1 then at + 1 else at)
      ensures rc == 1 ==> at < |s| && c == s[at]
      ensures rc == 0 ==> at == |s|
      ensures Clean(old(fd.script)) ==> rc != -1 && Clean(fd.script)
    {
      rc := ReadMore(usrbuf, at, 1, s, u);
      c := usrbuf[at];
      if rc == 1 {
        MovedTo(s, u, Pending(), usrbuf[..], at + 1);
      }
    }

    /**
      The loop of rio_readlineb: -1 for an error, 0 when there is nothing to read, otherwise 1, and n
      is one more than the bytes of the line.
    */
    method LineBytes(usrbuf: array<byte>, maxlen: nat, ghost s: seq<byte>, ghost u: seq<byte>)
      returns (r: int, n: nat)
      requires maxlen <= usrbuf.Length && usrbuf.Length > 0 && Reading(usrbuf, s, u, 0)
      modifies this, buf, fd, usrbuf
      ensures -1 <= r <= 1 && 1 <= n <= usrbuf.Length && Reading(usrbuf, s, u, n - 1)
      ensures r == 0 ==> n == 1 && s == [] && maxlen > 1
      ensures r == 1 ==> n - 1 == LineLength(s, maxlen - 1) && (n == 1 ==> maxlen <= 1)
      ensures r == -1 ==> n <= maxlen
      ensures Clean(old(fd.script)) ==> r != -1 && Clean(fd.script)
    {
      n := 1;
      var bufp := 0;
      NoneYet(s);
      hide *;
      while n < maxlen
        invariant 1 <= n && (n <= maxlen || n == 1) && bufp == n - 1
        invariant Reading(usrbuf, s, u, bufp) && NoNewline(s, bufp)
        invariant Clean(old(fd.script)) ==> Clean(fd.script)
      {
        var rc, c := ReadChar(usrbuf, bufp, s, u);
        if rc == 1 {
          bufp := bufp + 1;
          if c == NEWLINE {
            LineAtNewline(s, bufp, maxlen - 1);
            return 1, n + 1;
          }
          OneMore(s, bufp);
        } else if rc == 0 {
          if n == 1 {
            return 0, n;
          }
          LineAtEnd(s, bufp, maxlen - 1);
          return 1, n;
        } else {
          return -1, n;
        }
        n := n + 1;
      }
      LineAtLimit(s, bufp, maxlen - 1);
      return 1, n;
    }
  }

  /** How many bytes of s belong to its first line, of which at most `most` are wanted. */
  function LineLength(s: seq<byte>, most: int): (k: nat)
    ensures k <= |s|
  {
    if s == [] || most <= 0 then 0 else if s[0] == NEWLINE then 1 else 1 + LineLength(s[1..], most - 1)
  }

  /** The buffer u after a line has been read into it. */
  function LineIn(u: seq<byte>, line: seq<byte>, maxlen: nat): seq<byte>
    requires |line| < |u|
  {
    if line == [] && maxlen > 1 then u else line + [0] + u[|line| + 1..]
  }

  predicate NoNewline(s: seq<byte>, k: nat) {
    k <= |s| && NEWLINE !in s[..k]
  }

  lemma NoneYet(s: seq<byte>)
    ensures NoNewline(s, 0)
  {
  }

  lemma OneMore(s: seq<byte>, k: nat)
    requires 0 < k <= |s| && NoNewline(s, k - 1) && s[k - 1] != NEWLINE
    ensures NoNewline(s, k)
  {
    assert s[..k] == s[..k - 1] + [s[k - 1]];
  }

  /** The first k bytes hold no newline: the line is those, and the line of what follows them. */
  lemma {:induction false} LineAfter(s: seq<byte>, k: nat, most: int)
    requires NoNewline(s, k) && k <= most
    ensures LineLength(s, most) == k + LineLength(s[k..], most - k)
  {
    if k == 0 {
      assert s[0..] == s;
    } else {
      assert s[0] == s[..k][0];
      assert s[1..][..k - 1] == s[..k][1..];
      LineAfter(s[1..], k - 1, most - 1);
      assert s[1..][k - 1..] == s[k..];
    }
  }

  lemma LineAtNewline(s: seq<byte>, k: nat, most: int)
    requires 0 < k <= |s| && k <= most && NoNewline(s, k - 1) && s[k - 1] == NEWLINE
    ensures LineLength(s, most) == k
  {
    LineAfter(s, k - 1, most);
  }

  lemma LineAtEnd(s: seq<byte>, k: nat, most: int)
    requires k == |s| <= most && NoNewline(s, k)
    ensures LineLength(s, most) == k
  {
    LineAfter(s, k, most);
  }

  lemma LineAtLimit(s: seq<byte>, k: nat, most: int)
    requires NoNewline(s, k) && (k == most || (k == 0 && most < 0))
    ensures LineLength(s, most) == k
  {
    if k == most {
      LineAfter(s, k, most);
    }
  }

  lemma EmptyLine(s: seq<byte>, u: seq<byte>, left: seq<byte>, v: seq<byte>, maxlen: nat)
    requires s == [] && Moved(s, u, left, v, 0) && maxlen > 1 && u != []
    ensures left == s[0..] && v == LineIn(u, s[..0], maxlen) && LineLength(s, maxlen - 1) == 0
  {
  }

  lemma LineIsThere(v: seq<byte>, line: seq<byte>, rest: seq<byte>)
    requires rest != [] && v == (line + rest)[|line| := 0]
    ensures v[..|line|] == line && v[|line|] == 0
  {
  }

  lemma LineStored(s: seq<byte>, u: seq<byte>, v: seq<byte>, k: nat, maxlen: nat)
    requires k <= |s| && k < |u| && v == (s[..k] + u[k..])[k := 0] && (k == 0 ==> maxlen <= 1)
    ensures v == LineIn(u, s[..k], maxlen)
  {
  }

  /** What LineLength means: nothing, or a piece without a newline except perhaps as its last byte, and no shorter than it must be. */
  lemma {:induction false} LineIs(s: seq<byte>, most: int)
    ensures var k := LineLength(s, most);
            && (k > 0 ==> k <= most && 10 !in s[..k - 1])
            && (k < |s| && k < most ==> k > 0 && s[k - 1] == 10)
  {
    if s != [] && most > 0 && s[0] != NEWLINE {
      LineIs(s[1..], most - 1);
      var k := LineLength(s[1..], most - 1);
      assert s[..k + 1] == [s[0]] + s[1..][..k];
      if k > 0 {
        assert s[..k] == [s[0]] + s[1..][..k - 1];
      }
    }
  }

  // ----- any mix of reads -----

  datatype Call = Bytes(n: nat) | Line(maxlen: nat)

  /** How many bytes a call takes from what is pending. */
  function Takes(c: Call, p: seq<byte>): (k: nat)
    ensures k <= |p|
  {
    match c
    case Bytes(n) => Min(n, |p|)
    case Line(maxlen) => LineLength(p, maxlen - 1)
  }

  /** What a series of calls delivers, call by call. */
  function Served(p: seq<byte>, calls: seq<Call>): (out: seq<seq<byte>>)
    ensures |out| == |calls|
    decreases |calls|
  {
    if calls == [] then [] else [p[..Takes(calls[0], p)]] + Served(p[Takes(calls[0], p)..], calls[1..])
  }

  function Remaining(p: seq<byte>, calls: seq<Call>): seq<byte>
    decreases |calls|
  {
    if calls == [] then p else Remaining(p[Takes(calls[0], p)..], calls[1..])
  }

  function Concat(ss: seq<seq<byte>>): seq<byte> {
    if ss == [] then [] else ss[0] + Concat(ss[1..])
  }

  /** Whatever the mix of calls, what they delivered and what is left make up the stream. */
  lemma {:induction false} NothingLost(p: seq<byte>, calls: seq<Call>)
    ensures Concat(Served(p, calls)) + Remaining(p, calls) == p
    decreases |calls|
  {
    if calls != [] {
      var k := Takes(calls[0], p);
      NothingLost(p[k..], calls[1..]);
      var out := Served(p, calls);
      assert out[1..] == Served(p[k..], calls[1..]);
      assert p == p[..k] + p[k..];
    }
  }

  lemma {:induction false} ServedMore(p: seq<byte>, calls: seq<Call>, c: Call)
    ensures var rest := Remaining(p, calls);
            && Served(p, calls + [c]) == Served(p, calls) + [rest[..Takes(c, rest)]]
            && Remaining(p, calls + [c]) == rest[Takes(c, rest)..]
    decreases |calls|
  {
    if calls == [] {
      assert [c][1..] == [] && [] + [c] == [c];
    } else {
      var k := Takes(calls[0], p);
      assert (calls + [c])[0] == calls[0] && (calls + [c])[1..] == calls[1..] + [c];
      ServedMore(p[k..], calls[1..], c);
    }
  }

  predicate Fits(c: Call, size: nat) {
    match c
    case Bytes(n) => n <= size
    case Line(maxlen) => maxlen <= size
  }

  method ServeOne(rp: Buffered, usrbuf: array<byte>, c: Call) returns (r: int)
    requires rp.Valid() && usrbuf != rp.buf && usrbuf.Length > 0 && Fits(c, usrbuf.Length)
    modifies rp, rp.buf, rp.fd, usrbuf
    ensures rp.Valid() && (r == -1 || r == Takes(c, old(rp.Pending())) <= usrbuf.Length)
    ensures r != -1 ==> usrbuf[..r] == old(rp.Pending())[..r] && rp.Pending() == old(rp.Pending())[r..]
    ensures Clean(old(rp.fd.script)) ==> r != -1 && Clean(rp.fd.script)
  {
    ghost var p, u := rp.Pending(), usrbuf[..];
    hide Clean, LineLength;
    match c {
      case Bytes(n) =>
        r := rp.ReadNB(usrbuf, n);
        if r != -1 {
          MovedIs(p, u, rp.Pending(), usrbuf[..], r);
        }
      case Line(maxlen) =>
        r := rp.ReadLineB(usrbuf, maxlen);
        if r != -1 {
          LineStands(u, p[..r], maxlen);
        }
    }
  }

  lemma LineStands(u: seq<byte>, line: seq<byte>, maxlen: nat)
    requires |line| < |u|
    ensures LineIn(u, line, maxlen)[..|line|] == line && |LineIn(u, line, maxlen)| == |u|
  {
  }

  /** A buffered reader serves any mix of calls as if it read the stream directly, whatever the script. */
  method Serve(rp: Buffered, usrbuf: array<byte>, calls: seq<Call>) returns (ok: bool, out: seq<seq<byte>>)
    requires rp.Valid() && usrbuf != rp.buf && usrbuf.Length > 0
    requires forall c :: c in calls ==> Fits(c, usrbuf.Length)
    modifies rp, rp.buf, rp.fd, usrbuf
    ensures rp.Valid() && (Clean(old(rp.fd.script)) ==> ok)
    ensures ok ==> out == Served(old(rp.Pending()), calls) && rp.Pending() == Remaining(old(rp.Pending()), calls)
  {
    ok, out := true, [];
    var i := 0;
    ghost var p := rp.Pending();
    hide Clean, Takes, Fits;
    while i < |calls|
      invariant i <= |calls| && rp.Valid() && ok
      invariant out == Served(p, calls[..i]) && rp.Pending() == Remaining(p, calls[..i])
      invariant Clean(old(rp.fd.script)) ==> Clean(rp.fd.script)
    {
      hide Served, Remaining;
      ServedMore(p, calls[..i], calls[i]);
      assert calls[i] in calls && calls[..i + 1] == calls[..i] + [calls[i]];
      var r := ServeOne(rp, usrbuf, calls[i]);
      if r == -1 {
        return false, out;
      }
      out := out + [usrbuf[..r]];
      i := i + 1;
    }
    assert calls[..i] == calls;
  }

  // ----- writing -----

  /** What the kernel may do with a write; `Nothing` takes no byte and leaves errno alone. */
  datatype WriteOutcome = Accepts(most: nat) | Nothing | WriteInterrupted | WriteFails

  predicate CleanWrites(script: seq<WriteOutcome>) {
    forall o :: o in script ==> o.Accepts? || o.WriteInterrupted?
  }

  /** A descriptor open for writing: the bytes that have gone out, and whether errno is EINTR. */
  class OutFd {
    var sent: seq<byte>
    var script: seq<WriteOutcome>
    var eintr: bool

    constructor (how: seq<WriteOutcome>)
      ensures sent == [] && script == how
    {
      sent, script, eintr := [], how, false;
    }

    method Write(data: seq<byte>) returns (r: int)
      requires data != []
      modifies this
      ensures -1 <= r <= |data| && sent == old(sent) + data[..if r == -1 then 0 else r]
      ensures r <= 0 ==> |script| < |old(script)|
      ensures |script| <= |old(script)|
      ensures CleanWrites(old(script)) ==> CleanWrites(script) && (r <= 0 ==> eintr)
    {
      var k := |data|;
      if script != [] {
        var o := script[0];
        assert o in script;
        script := script[1..];
        match o {
          case WriteFails => eintr := false; return -1;
          case WriteInterrupted => eintr := true; return -1;
          case Nothing => return 0;
          case Accepts(most) => k := Min(k, if most == 0 then 1 else most);
        }
      }
      sent := sent + data[..k];
      return k;
    }
  }

  /** rio_writen: everything goes out, or a proper piece of it and -1. */
  method WriteN(fd: OutFd, usrbuf: seq<byte>) returns (r: int)
    modifies fd
    ensures r == |usrbuf| || r == -1
    ensures r != -1 ==> fd.sent == old(fd.sent) + usrbuf
    ensures r == -1 ==> exists k :: 0 <= k < |usrbuf| && fd.sent == old(fd.sent) + usrbuf[..k]
    ensures CleanWrites(old(fd.script)) ==> r != -1 && CleanWrites(fd.script)
  {
    var nleft, bufp := |usrbuf|, 0;
    ghost var s := fd.sent;
    hide CleanWrites;
    while nleft > 0
      invariant 0 <= nleft && bufp == |usrbuf| - nleft >= 0
      invariant fd.sent == s + usrbuf[..bufp]
      invariant CleanWrites(old(fd.script)) ==> CleanWrites(fd.script)
      decreases nleft, |fd.script|
    {
      var nwritten := fd.Write(usrbuf[bufp..]);
      if nwritten <= 0 {
        if fd.eintr {
          nwritten := 0;
        } else {
          return -1;
        }
      }
      assert usrbuf[..bufp] + usrbuf[bufp..][..nwritten] == usrbuf[..bufp + nwritten];
      nleft, bufp := nleft - nwritten, bufp + nwritten;
    }
    assert usrbuf[..bufp] == usrbuf;
    return |usrbuf|;
  }
}
