/** Buffered input over a descriptor whose reads may come back short or interrupted. */
module Rio {

  type Byte = b: int | 0 <= b < 256

  const RIO_BUFSIZE := 8192
  const NEWLINE: Byte := 10

  function Min(x: int, y: int): (r: int)
    ensures r <= x && r <= y && (r == x || r == y)
  {
    if x > y then y else x
  }

  /** Length of the line at the front of s: through its first newline, and at most max bytes. */
  function LineLength(s: seq<Byte>, max: int): (k: int)
    ensures 0 <= k <= |s| && (max >= 0 ==> k <= max)
  {
    if max <= 0 || s == [] then 0
    else if s[0] == NEWLINE then 1
    else 1 + LineLength(s[1..], max - 1)
  }

  ghost predicate NoNewline(s: seq<Byte>) { forall i {:trigger s[i]} :: 0 <= i < |s| ==> s[i] != NEWLINE }

  /** The line ends only where it must: at a newline, at max bytes, or at the end of s. */
  lemma {:induction false} LineLengthExact(s: seq<Byte>, max: int, k: int)
    requires 0 <= max
    ensures k == LineLength(s, max) <==>
      && 0 <= k <= |s| && k <= max
      && (k > 0 ==> NoNewline(s[..k - 1]))
      && (k == |s| || k == max || (k > 0 && s[k - 1] == NEWLINE))
  {
    if max > 0 && s != [] && s[0] != NEWLINE {
      LineLengthExact(s[1..], max - 1, k - 1);
      if 1 < k <= |s| {
        assert s[..k - 1] == [s[0]] + s[1..][..k - 2];
        assert s[1..][k - 2] == s[k - 1];
      }
    } else if 0 < k - 1 <= |s| {
      assert NoNewline(s[..k - 1]) ==> s[..k - 1][0] != NEWLINE;
    }
  }

  /** s with data in place of what was at position at. */
  function Patch(s: seq<Byte>, at: int, data: seq<Byte>): (r: seq<Byte>)
    requires 0 <= at && at + |data| <= |s|
    ensures |r| == |s|
  {
    s[..at] + data + s[at + |data|..]
  }

  /** Two slices of p patched in one behind the other are one slice. */
  lemma PatchTwice(s: seq<Byte>, p: seq<Byte>, a: int, b: int)
    requires 0 <= a && 0 <= b && a + b <= |p| && a + b <= |s|
    ensures Patch(Patch(s, 0, p[..a]), a, p[a..][..b]) == Patch(s, 0, p[..a + b])
    ensures p[a..][b..] == p[a + b..]
  {
    assert p[..a + b] == p[..a] + p[a..][..b];
  }

  /** How one call of read turns out: interrupted by a signal, or limited to a number of bytes. */
  datatype Turn = Interrupted | Limited(bytes: nat)

  /** An open descriptor: the bytes still to come, and how the calls of read will split them. */
  class Descriptor {
    var unread: seq<Byte>
    var turns: seq<Turn>

    constructor (stream: seq<Byte>, schedule: seq<Turn>)
      ensures unread == stream && turns == schedule
    {
      unread, turns := stream, schedule;
    }

    /**
     * read: at least one byte and at most n, as the next turn has it; 0 at the end of the
     * stream; -1 if interrupted. Once the turns are used up, as many bytes as there are.
     */
    method Read(buf: array<Byte>, n: int) returns (count: int)
      requires 0 < n <= buf.Length
      modifies this, buf
      ensures -1 <= count <= n && count <= |old(unread)|
      ensures count == 0 <==> count != -1 && old(unread) == []
      ensures count == -1 ==> unread == old(unread) && |turns| < |old(turns)| && buf[..] == old(buf[..])
      ensures count >= 0 ==> unread == old(unread)[count..] && buf[..count] == old(unread)[..count]
      ensures count >= 0 ==> |turns| <= |old(turns)|
    {
      var turn := if turns == [] then Limited(n) else turns[0];
      if turns != [] { turns := turns[1..]; }
      if turn.Interrupted? { return -1; }
      count := Min(Min(n, |unread|), if turn.bytes == 0 then 1 else turn.bytes);
      forall i | 0 <= i < count { buf[i] := unread[i]; }
      unread := unread[count..];
    }
  }

  class Reader {
    var fd: Descriptor
    var cnt: int
    var bufptr: int
    const buf: array<Byte>

    ghost predicate Valid()
      reads this
    {
      buf.Length == RIO_BUFSIZE && 0 <= bufptr && (cnt > 0 ==> bufptr + cnt <= RIO_BUFSIZE)
    }

    /** The bytes a caller has yet to see: those buffered, then those unread. */
    ghost function Pending(): seq<Byte>
      requires Valid()
      reads this, fd, buf
    {
      (if cnt > 0 then buf[bufptr..bufptr + cnt] else []) + fd.unread
    }

    /** rio_readinitb. */
    constructor (descriptor: Descriptor)
      ensures Valid() && fd == descriptor && Pending() == fd.unread && fresh(buf)
    {
      fd, cnt, bufptr := descriptor, 0, 0;
      buf := new Byte[RIO_BUFSIZE];
    }

    /** The first half of rio_read: one successful read into an empty buffer, retrying interrupted ones. */
    method Refill() returns (eof: bool)
      requires Valid()
      modifies this`cnt, this`bufptr, fd, buf
      ensures Valid() && Pending() == old(Pending())
      ensures eof == (old(Pending()) == []) && (!eof ==> cnt > 0)
    {
      while cnt <= 0
        invariant Valid() && Pending() == old(Pending())
        decreases cnt <= 0, |fd.turns|
      {
        cnt := fd.Read(buf, RIO_BUFSIZE);
        if cnt == 0 {
          return true;
        } else if cnt > 0 {
          bufptr := 0;
          assert buf[0..cnt] == buf[..cnt];
        }
      }
      return false;
    }

    /** The second half of rio_read: copies from the buffer. */
    method CopyOut(usrbuf: array<Byte>, at: int, count: int)
      requires Valid() && 0 <= at && 0 <= count <= cnt && at + count <= usrbuf.Length && usrbuf != buf
      modifies this`cnt, this`bufptr, usrbuf
      ensures Valid() && count <= |old(Pending())|
      ensures usrbuf[..] == Patch(old(usrbuf[..]), at, old(Pending())[..count])
      ensures Pending() == old(Pending())[count..]
    {
      ghost var p := Pending();
      if cnt > 0 { assert p[..count] == buf[bufptr..bufptr + count]; }
      forall i | 0 <= i < count { usrbuf[at + i] := buf[bufptr + i]; }
      assert usrbuf[..] == Patch(old(usrbuf[..]), at, p[..count]);
      bufptr := bufptr + count;
      cnt := cnt - count;
    }

    /** rio_read: copies up to n pending bytes to usrbuf from position at on. */
    method ReadSome(usrbuf: array<Byte>, at: int, n: int) returns (count: int)
      requires Valid() && 0 <= at && 0 <= n && at + n <= usrbuf.Length && usrbuf != buf
      modifies this`cnt, this`bufptr, fd, buf, usrbuf
      ensures Valid()
      ensures 0 <= count <= n && count <= |old(Pending())| && (n > 0 && old(Pending()) != [] ==> count > 0)
      ensures usrbuf[..] == Patch(old(usrbuf[..]), at, old(Pending())[..count])
      ensures Pending() == old(Pending())[count..]
    {
      var eof := Refill();
      if eof {
        assert usrbuf[..] == Patch(old(usrbuf[..]), at, []);
        return 0;
      }
      count := Min(n, cnt);
      CopyOut(usrbuf, at, count);
    }

    /** rio_readnb: n bytes, or all there are. */
    method ReadNb(usrbuf: array<Byte>, n: int) returns (count: int)
      requires Valid() && 0 <= n <= usrbuf.Length && usrbuf != buf
      modifies this`cnt, this`bufptr, fd, buf, usrbuf
      ensures Valid() && count == Min(n, |old(Pending())|)
      ensures usrbuf[..] == Patch(old(usrbuf[..]), 0, old(Pending())[..count])
      ensures Pending() == old(Pending())[count..]
    {
      hide Patch;
      ghost var p, was := Pending(), usrbuf[..];
      PatchNothing(was);
      var nleft := n;
      while nleft > 0
        invariant Valid() && 0 <= nleft <= n && n - nleft <= |p|
        invariant usrbuf[..] == Patch(was, 0, p[..n - nleft]) && Pending() == p[n - nleft..]
      {
        var nread := ReadSome(usrbuf, n - nleft, nleft);
        PatchTwice(was, p, n - nleft, nread);
        if nread == 0 { break; }
        nleft := nleft - nread;
      }
      return n - nleft;
    }

    /** rio_read of a single byte. */
    method ReadByte() returns (rc: int, c: Byte)
      requires Valid()
      modifies this`cnt, this`bufptr, fd, buf
      ensures Valid() && rc == (if old(Pending()) == [] then 0 else 1)
      ensures rc == 1 ==> c == old(Pending())[0]
      ensures Pending() == old(Pending())[rc..]
    {
      var one := new Byte[1];
      ghost var was := one[..];
      rc := ReadSome(one, 0, 1);
      c := one[0];
      if rc == 1 {
        assert one[..] == [c];
        assert Patch(was, 0, old(Pending())[..1]) == old(Pending())[..1];
      }
    }

    /** rio_readlineb: one line of at most maxlen - 1 bytes, with a terminating zero. */
    method ReadLineb(usrbuf: array<Byte>, maxlen: int) returns (n: int)
      requires Valid() && 1 <= maxlen <= usrbuf.Length && usrbuf != buf
      modifies this`cnt, this`bufptr, fd, buf, usrbuf
      ensures Valid()
      ensures
        var p, k := old(Pending()), LineLength(old(Pending()), maxlen - 1);
        && Pending() == p[k..]
        && n == LineResult(p, maxlen)
        && n == (if p == [] && maxlen > 1 then 0 else if k > 0 && p[k - 1] == NEWLINE then k else k + 1)
        && usrbuf[..] == if n == 0 then old(usrbuf[..]) else Patch(old(usrbuf[..]), 0, p[..k] + [0])
    {
      hide Patch, LineLength, NoNewline;
      ghost var p, was := Pending(), usrbuf[..];
      PatchNothing(was);
      NothingRead(p);
      var bufp := 0;
      n := 1;
      while n < maxlen
        invariant Valid() && 1 <= n <= maxlen && bufp == n - 1 <= |p|
        invariant Pending() == p[bufp..]
        invariant usrbuf[..] == Patch(was, 0, p[..bufp])
        invariant NoNewline(p[..bufp])
      {
        var rc, c := ReadByte();
        if rc == 1 {
          usrbuf[bufp] := c;
          NextByte(was, p, bufp);
          bufp := bufp + 1;
          if c == NEWLINE { break; }
        } else {
          if n == 1 {
            NoLine(p, maxlen);
            return 0;
          }
          break;
        }
        n := n + 1;
      }
      LineEnds(p, maxlen, bufp, n);
      usrbuf[bufp] := 0;
      PatchZero(was, p[..bufp]);
    }
  }

  /** Taking byte k of p into a buffer that holds the k before it. */
  lemma NextByte(s: seq<Byte>, p: seq<Byte>, k: int)
    requires 0 <= k < |p| && k < |s|
    ensures Patch(s, 0, p[..k])[k := p[k]] == Patch(s, 0, p[..k + 1])
    ensures p[k..][0] == p[k] && p[k..][1..] == p[k + 1..]
    ensures NoNewline(p[..k]) && p[k] != NEWLINE ==> NoNewline(p[..k + 1])
  {
  }

  lemma NothingRead(p: seq<Byte>)
    ensures p[..0] == [] && NoNewline(p[..0])
  {
  }

  lemma NoLine(p: seq<Byte>, maxlen: int)
    requires p == [] && maxlen > 1
    ensures LineLength(p, maxlen - 1) == 0 && LineResult(p, maxlen) == 0
  {
  }

  lemma PatchZero(s: seq<Byte>, t: seq<Byte>)
    requires |t| < |s|
    ensures Patch(s, 0, t)[|t| := 0] == Patch(s, 0, t + [0])
  {
  }

  /** The three ways a line ends, and the result each gives. */
  lemma LineEnds(p: seq<Byte>, maxlen: int, k: int, n: int)
    requires 0 <= k <= |p| && k < maxlen
    requires
      || (n == k && k > 0 && p[k - 1] == NEWLINE && NoNewline(p[..k - 1]))
      || (n == k + 1 && NoNewline(p[..k]) && (k == maxlen - 1 || k == |p|) && !(p == [] && maxlen > 1))
    ensures k == LineLength(p, maxlen - 1) && n == LineResult(p, maxlen) && n > 0
  {
    if k > 0 && n == k + 1 { assert p[..k][k - 1] == p[k - 1]; }
    LineLengthExact(p, maxlen - 1, k);
  }

  lemma PatchNothing(s: seq<Byte>)
    ensures Patch(s, 0, []) == s
  {
  }

  /** What rio_readlineb returns for stream p: the line's length, plus one unless a newline ends it; 0 at the end. */
  function LineResult(p: seq<Byte>, maxlen: int): int {
    var k := LineLength(p, maxlen - 1);
    if p == [] && maxlen > 1 then 0
    else if k > 0 && p[k - 1] == NEWLINE then k
    else k + 1
  }

  /** A call of one of the two readers. */
  datatype Call = GetBytes(n: nat) | GetLine(maxlen: nat)

  /** How many bytes a call takes off a plain stream. */
  function Taken(p: seq<Byte>, call: Call): (k: int)
    ensures 0 <= k <= |p|
  {
    match call
    case GetBytes(n) => Min(n, |p|)
    case GetLine(maxlen) => LineLength(p, maxlen - 1)
  }

  /** What a sequence of calls delivers from a plain stream. */
  function Delivered(p: seq<Byte>, calls: seq<Call>): seq<seq<Byte>> {
    if calls == [] then []
    else [p[..Taken(p, calls[0])]] + Delivered(p[Taken(p, calls[0])..], calls[1..])
  }

  function Left(p: seq<Byte>, calls: seq<Call>): seq<Byte> {
    if calls == [] then p else Left(p[Taken(p, calls[0])..], calls[1..])
  }

  function Concat(parts: seq<seq<Byte>>): seq<Byte> {
    if parts == [] then [] else parts[0] + Concat(parts[1..])
  }

  /** Nothing is lost, repeated or reordered: what was delivered and what is left make up the stream. */
  lemma {:induction false} SlicesAreConsecutive(p: seq<Byte>, calls: seq<Call>)
    ensures Concat(Delivered(p, calls)) + Left(p, calls) == p
  {
    if calls != [] {
      var k := Taken(p, calls[0]);
      SlicesAreConsecutive(p[k..], calls[1..]);
      assert Delivered(p, calls)[1..] == Delivered(p[k..], calls[1..]);
      assert p == p[..k] + p[k..];
    }
  }

  lemma NoCalls(p: seq<Byte>)
    ensures Delivered(p, []) == [] && Left(p, []) == p
  {
  }

  lemma {:induction false} CallsSplit(p: seq<Byte>, calls: seq<Call>, last: Call)
    ensures Left(p, calls + [last]) == Left(p, calls)[Taken(Left(p, calls), last)..]
    ensures Delivered(p, calls + [last]) == Delivered(p, calls) + [Left(p, calls)[..Taken(Left(p, calls), last)]]
  {
    if calls == [] {
      assert [last][1..] == [];
    } else {
      assert (calls + [last])[1..] == calls[1..] + [last];
      CallsSplit(p[Taken(p, calls[0])..], calls[1..], last);
    }
  }

  /**
   * Any mix of calls on a buffered reader delivers what a plain stream would: how read splits
   * the input, and how much of it is buffered already, makes no difference.
   */
  method RunCalls(rd: Reader, calls: seq<Call>) returns (out: seq<seq<Byte>>)
    requires rd.Valid() && forall c :: c in calls && c.GetLine? ==> c.maxlen >= 1
    modifies rd`cnt, rd`bufptr, rd.fd, rd.buf
    ensures rd.Valid() && out == Delivered(old(rd.Pending()), calls)
    ensures rd.Pending() == Left(old(rd.Pending()), calls)
  {
    hide Patch, Taken, Delivered, Left;
    ghost var p := rd.Pending();
    NoCalls(p);
    out := [];
    var i := 0;
    while i < |calls|
      invariant 0 <= i <= |calls| && rd.Valid()
      invariant rd.Pending() == Left(p, calls[..i]) && out == Delivered(p, calls[..i])
    {
      var part := RunCall(rd, calls[i]);
      CallsSplit(p, calls[..i], calls[i]);
      assert calls[..i + 1] == calls[..i] + [calls[i]];
      out := out + [part];
      i := i + 1;
    }
    assert calls[..i] == calls;
  }

  method RunCall(rd: Reader, call: Call) returns (part: seq<Byte>)
    requires rd.Valid() && (call.GetLine? ==> call.maxlen >= 1)
    modifies rd`cnt, rd`bufptr, rd.fd, rd.buf
    ensures rd.Valid() && part == old(rd.Pending())[..Taken(old(rd.Pending()), call)]
    ensures rd.Pending() == old(rd.Pending())[Taken(old(rd.Pending()), call)..]
  {
    hide Patch, LineLength, LineResult;
    ghost var p := rd.Pending();
    match call {
      case GetBytes(n) =>
        var usrbuf := new Byte[n];
        ghost var was := usrbuf[..];
        var count := rd.ReadNb(usrbuf, n);
        part := usrbuf[..count];
        PatchFront(was, p[..count]);
      case GetLine(maxlen) =>
        var usrbuf := new Byte[maxlen];
        ghost var was := usrbuf[..];
        var n := rd.ReadLineb(usrbuf, maxlen);
        LineRecovered(was, p, maxlen, usrbuf[..], n);
        part := if n == 0 then [] else if usrbuf[n - 1] == NEWLINE then usrbuf[..n] else usrbuf[..n - 1];
    }
  }

  lemma PatchFront(s: seq<Byte>, data: seq<Byte>)
    requires |data| <= |s|
    ensures Patch(s, 0, data)[..|data|] == data
  {
  }

  /** A caller can tell the line from the result and the byte before its end. */
  lemma LineRecovered(was: seq<Byte>, p: seq<Byte>, maxlen: int, now: seq<Byte>, n: int)
    requires 1 <= maxlen <= |was| && n == LineResult(p, maxlen)
    requires now == if n == 0 then was else Patch(was, 0, p[..LineLength(p, maxlen - 1)] + [0])
    ensures 0 <= n <= |now|
    ensures
      var line := p[..LineLength(p, maxlen - 1)];
      line == if n == 0 then [] else if now[n - 1] == NEWLINE then now[..n] else now[..n - 1]
  {
    var k := LineLength(p, maxlen - 1);
    if n != 0 {
      PatchFront(was, p[..k] + [0]);
      assert now[..k + 1] == p[..k] + [0];
      assert now[..k] == now[..k + 1][..k];
      assert now[k] == now[..k + 1][k] && (k > 0 ==> now[k - 1] == now[..k + 1][k - 1]);
    }
  }
}
