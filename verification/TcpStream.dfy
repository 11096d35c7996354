/**
 kol::TcpBuffer over a socket that hands out and accepts bytes in arbitrary portions.
 Input refines a FIFO stream: what a call returns depends on the stream alone.
 */
module TcpStream {
  import opened Bytes
  import opened Numbers

  /** The other end: bytes still to be received, bytes that send has taken, and its refusals. */
  class Socket {
    var incoming: seq<Byte>
    var outgoing: seq<Byte>
    ghost var refusals: nat

    constructor (stream: seq<Byte>)
      ensures incoming == stream && outgoing == [] && refusals == 0
    {
      incoming, outgoing, refusals := stream, [], 0;
    }

    /** recv: any number of bytes up to max, none only at the end of the stream. */
    method Recv(max: nat) returns (got: seq<Byte>)
      modifies this`incoming
      ensures |got| <= max && got + incoming == old(incoming)
      ensures got == [] <==> max == 0 || old(incoming) == []
    {
      var most := if max < |incoming| then max else |incoming|;
      var n: nat := 0;
      if most > 0 {
        n :| 1 <= n <= most;
      }
      got := incoming[..n];
      incoming := incoming[n..];
    }

    /** send: takes any number of bytes; taking none of a nonempty block is a refusal. */
    method Send(bytes: seq<Byte>) returns (n: nat)
      modifies this`outgoing, this`refusals
      ensures n <= |bytes| && outgoing == old(outgoing) + bytes[..n]
      ensures refusals == old(refusals) + if bytes != [] && n == 0 then 1 else 0
    {
      n :| 0 <= n <= |bytes|;
      outgoing := outgoing + bytes[..n];
      if bytes != [] && n == 0 {
        refusals := refusals + 1;
      }
    }
  }

  const BUFSIZE := 1024
  const EOF := -1
  const DELIM: Byte := 0x0a

  /** How many of len bytes a stream of n bytes can give. */
  function Gives(n: nat, len: int): (k: nat)
    ensures k <= n
  {
    if len <= 0 then 0 else Min(n, len)
  }

  /** Index of the first delimiter, or |s|. */
  function LineEnd(s: seq<Byte>): (p: nat)
    ensures p <= |s|
    ensures p < |s| ==> s[p] == DELIM
    ensures forall k :: 0 <= k < p ==> s[k] != DELIM
  {
    if s == [] || s[0] == DELIM then 0 else 1 + LineEnd(s[1..])
  }

  /** getline on a stream: its text, the bytes it takes, and the state bits it raises. */
  datatype Line = Line(text: seq<Byte>, taken: nat, fail: bool, eof: bool)

  /** nmax > 0 characters at most; a delimiter counts only if it comes before they are full. */
  function LineOf(s: seq<Byte>, nmax: nat): (r: Line)
    ensures r.taken <= |s|
  {
    var p := LineEnd(s);
    if p < |s| && p < nmax then Line(s[..p], p + 1, false, false)
    else if |s| >= nmax then Line(s[..nmax], nmax, true, false)
    else Line(s, |s|, s == [], true)
  }

  /** The three ways getline's loop ends, and the one way it goes on. */
  lemma AtDelimiter(s: seq<Byte>, n: nat, nmax: nat)
    requires n < nmax && n < |s| && n <= LineEnd(s) && s[n] == DELIM
    ensures LineOf(s, nmax) == Line(s[..n], n + 1, false, false)
  {
  }

  lemma PastOther(s: seq<Byte>, n: nat, nmax: nat)
    requires n < nmax && n < |s| && n <= LineEnd(s) && s[n] != DELIM
    ensures n + 1 <= LineEnd(s)
    ensures n + 1 == nmax ==> LineOf(s, nmax) == Line(s[..nmax], nmax, true, false)
  {
  }

  lemma AtEnd(s: seq<Byte>, nmax: nat)
    requires |s| < nmax && LineEnd(s) == |s|
    ensures LineOf(s, nmax) == Line(s, |s|, s == [], true)
  {
  }

  class TcpBuffer {
    const socket: Socket
    const rbuf: array<Byte>
    const sbuf: array<Byte>
    var rbuflen: nat
    var rbufnxt: nat
    var sbufnxt: nat
    var gcount: int
    var eof: bool
    var fail: bool
    var bad: bool

    ghost predicate Valid() reads this {
      rbuf.Length == BUFSIZE == sbuf.Length && rbuf != sbuf
      && rbufnxt <= rbuflen <= BUFSIZE && sbufnxt <= BUFSIZE
    }

    /** The stream as the reader sees it: buffered bytes, then those not received yet. */
    ghost function Unread(): seq<Byte>
      requires Valid()
      reads this, rbuf, socket
    {
      rbuf[rbufnxt..rbuflen] + socket.incoming
    }

    /** Everything handed to put and write: on the wire, then still buffered. */
    ghost function Written(): seq<Byte>
      requires Valid()
      reads this, sbuf, socket
    {
      socket.outgoing + sbuf[..sbufnxt]
    }

    constructor (s: Socket)
      ensures Valid() && socket == s && fresh(rbuf) && fresh(sbuf)
      ensures Unread() == s.incoming && Written() == s.outgoing
      ensures gcount == 0 && !eof && !fail && !bad
    {
      socket := s;
      rbuf, sbuf := new Byte[BUFSIZE](_ => 0), new Byte[BUFSIZE](_ => 0);
      rbuflen, rbufnxt, sbufnxt, gcount := 0, 0, 0, 0;
      eof, fail, bad := false, false, false;
    }

    /** What get does when the buffer is used up; the stream stays the same. */
    method Refill()
      requires Valid() && rbufnxt >= rbuflen
      modifies this`rbuflen, this`rbufnxt, rbuf, socket`incoming
      ensures Valid() && rbufnxt == 0 && Unread() == old(Unread())
      ensures rbuflen == 0 <==> old(Unread()) == []
    {
      rbuflen, rbufnxt := 0, 0;
      assert old(Unread()) == socket.incoming;
      var got := socket.Recv(BUFSIZE);
      Fill(got);
    }

    /** One byte, refilling the buffer when it is used up; EOF at the end of the stream. */
    method Get() returns (c: int)
      requires Valid()
      modifies this`rbuflen, this`rbufnxt, this`gcount, this`eof, rbuf, socket`incoming
      ensures Valid()
      ensures old(Unread()) == [] ==> c == EOF && Unread() == [] && gcount == 0 && eof
      ensures old(Unread()) != [] ==>
                c == old(Unread())[0] && Unread() == old(Unread())[1..] && gcount == 1 && eof == old(eof)
    {
      if rbufnxt >= rbuflen {
        Refill();
        if rbuflen == 0 {
          gcount, eof := 0, true;
          return EOF;
        }
      }
      c := rbuf[rbufnxt];
      assert rbuf[rbufnxt..rbuflen] == [rbuf[rbufnxt]] + rbuf[rbufnxt + 1..rbuflen];
      rbufnxt := rbufnxt + 1;
      gcount := 1;
    }

    method Fill(got: seq<Byte>)
      requires Valid() && |got| <= BUFSIZE && rbufnxt == 0
      modifies this`rbuflen, rbuf
      ensures Valid() && rbuflen == |got| && rbuf[..rbuflen] == got
    {
      forall i | 0 <= i < |got| {
        rbuf[i] := got[i];
      }
      rbuflen := |got|;
    }

    /** recv_all into the caller's buffer, portion by portion. */
    method RecvAll(buf: array<Byte>, nbytes: int) returns (n: nat)
      requires Valid() && nbytes <= buf.Length && buf != rbuf && buf != sbuf
      modifies this`eof, buf, socket`incoming
      ensures n == Gives(|old(socket.incoming)|, nbytes)
      ensures buf[..n] == old(socket.incoming)[..n] && socket.incoming == old(socket.incoming)[n..]
      ensures buf[n..] == old(buf[n..])
      ensures eof == (old(eof) || n < nbytes)
    {
      ghost var stream := socket.incoming;
      n := 0;
      while n < nbytes
        invariant 0 <= n <= buf.Length && n <= |stream| && (n <= nbytes || n == 0)
        invariant buf[..n] == stream[..n] && socket.incoming == stream[n..]
        invariant buf[n..] == old(buf[n..]) && eof == old(eof)
        decreases nbytes - n
      {
        var got := socket.Recv(nbytes - n);
        if got == [] {
          eof := true;
          break;
        }
        assert stream[n..] == got + socket.incoming;
        forall i | 0 <= i < |got| {
          buf[n + i] := got[i];
        }
        assert buf[..n + |got|] == buf[..n] + buf[n..n + |got|];
        n := n + |got|;
      }
    }

    /** read's loop: byte by byte, until there are len or the stream ends. */
    method ReadBytes(buf: array<Byte>, len: int) returns (n: nat)
      requires Valid() && len <= buf.Length && buf != rbuf && buf != sbuf
      modifies this`rbuflen, this`rbufnxt, this`gcount, this`eof, rbuf, buf, socket`incoming
      ensures Valid() && n == Gives(|old(Unread())|, len)
      ensures buf[..n] == old(Unread())[..n] && Unread() == old(Unread())[n..]
      ensures eof == (old(eof) || n < len) && buf[n..] == old(buf[n..])
    {
      ghost var stream := Unread();
      n := 0;
      while n < len
        invariant Valid() && 0 <= n <= buf.Length && n <= |stream| && (n <= len || n == 0)
        invariant buf[..n] == stream[..n] && Unread() == stream[n..] && eof == old(eof)
        invariant forall k :: n <= k < buf.Length ==> buf[k] == old(buf[k])
        decreases len - n
      {
        var c := Get();
        if c == EOF {
          break;
        }
        buf[n] := c;
        assert buf[..n + 1] == buf[..n] + [buf[n]];
        n := n + 1;
      }
    }

    /** read: straight from the socket if nothing was ever buffered, else byte by byte. */
    method Read(buf: array<Byte>, len: int)
      requires Valid() && len <= buf.Length && buf != rbuf && buf != sbuf
      modifies this`rbuflen, this`rbufnxt, this`gcount, this`eof, rbuf, buf, socket`incoming
      ensures Valid()
      ensures var k := Gives(|old(Unread())|, len);
              gcount == k && buf[..k] == old(Unread())[..k] && Unread() == old(Unread())[k..]
              && eof == (old(eof) || k < len) && buf[k..] == old(buf[k..])
    {
      gcount := 0;
      if len == 0 {
        assert Unread() == old(Unread());
        return;
      }
      if rbuflen == 0 {
        assert old(Unread()) == socket.incoming;
        var nr := RecvAll(buf, len);
        gcount := nr;
        assert Unread() == socket.incoming;
        return;
      }
      var n := ReadBytes(buf, len);
      gcount := n;
    }

    method Ignore(len: int)
      requires Valid()
      modifies this`rbuflen, this`rbufnxt, this`gcount, this`eof, rbuf, socket`incoming
      ensures Valid()
      ensures var k := Gives(|old(Unread())|, len);
              gcount == k && Unread() == old(Unread())[k..] && eof == (old(eof) || k < len)
    {
      gcount := 0;
      if len == 0 {
        assert Unread() == old(Unread());
        return;
      }
      var n := 0;
      while n < len
        invariant Valid() && 0 <= n <= |old(Unread())| && (n <= len || n == 0)
        invariant Unread() == old(Unread())[n..] && eof == old(eof)
        decreases len - n
      {
        var c := Get();
        if c == EOF {
          break;
        }
        n := n + 1;
      }
      gcount := n;
    }

    /** One turn of getline's loop: the next byte, stored unless it ends the line. */
    method GetInto(buf: array<Byte>, n: nat) returns (c: int)
      requires Valid() && n < buf.Length && buf != rbuf && buf != sbuf
      modifies this`rbuflen, this`rbufnxt, this`gcount, this`eof, rbuf, buf, socket`incoming
      ensures Valid()
      ensures old(Unread()) == [] ==> c == EOF && Unread() == [] && eof
      ensures old(Unread()) != [] ==> c == old(Unread())[0] && Unread() == old(Unread())[1..] && eof == old(eof)
      ensures buf[..n] == old(buf[..n]) && (c !in [EOF, DELIM] ==> buf[n] == c)
    {
      c := Get();
      if c != EOF && c != DELIM {
        buf[n] := c;
      }
    }

    /** getline's loop: n characters stored, nget bytes taken, c the byte that ended it. */
    method Gather(buf: array<Byte>, nmax: nat) returns (n: nat, nget: nat, c: int)
      requires Valid() && 0 < nmax < buf.Length && buf != rbuf && buf != sbuf
      modifies this`rbuflen, this`rbufnxt, this`gcount, this`eof, rbuf, buf, socket`incoming
      ensures Valid() && n <= nget <= |old(Unread())| && n <= nmax
      ensures buf[..n] == old(Unread())[..n] && Unread() == old(Unread())[nget..]
      ensures LineOf(old(Unread()), nmax) ==
                Line(old(Unread())[..n], nget, c !in [EOF, DELIM] || (c == EOF && nget == 0), c == EOF)
      ensures c !in [EOF, DELIM] ==> n == nmax
      ensures eof == (old(eof) || c == EOF)
    {
      ghost var stream := Unread();
      nget, n, c := 0, 0, 0;
      while true
        invariant Valid() && nget == n < nmax && n <= LineEnd(stream)
        invariant Unread() == stream[n..] && buf[..n] == stream[..n] && eof == old(eof)
        decreases nmax - n
      {
        c := GetInto(buf, n);
        if c == EOF {
          AtEnd(stream, nmax);
          break;
        }
        nget := nget + 1;
        if c == DELIM {
          AtDelimiter(stream, n, nmax);
          break;
        }
        PastOther(stream, n, nmax);
        assert buf[..n + 1] == buf[..n] + [buf[n]];
        n := n + 1;
        if n >= nmax {
          break;
        }
      }
    }

    /** getline: a NUL-terminated line of at most maxlen - 1 characters. */
    method GetLine(buf: array<Byte>, maxlen: int)
      requires Valid() && 0 < buf.Length && maxlen <= buf.Length && buf != rbuf && buf != sbuf
      modifies this`rbuflen, this`rbufnxt, this`gcount, this`eof, this`fail, rbuf, buf, socket`incoming
      ensures Valid()
      ensures maxlen <= 1 ==> fail && gcount == 0 && eof == old(eof) && Unread() == old(Unread())
      ensures maxlen > 1 ==>
                var line := LineOf(old(Unread()), maxlen - 1);
                Unread() == old(Unread())[line.taken..] && gcount == line.taken
                && |line.text| < buf.Length && buf[..|line.text|] == line.text && buf[|line.text|] == 0
                && fail == (old(fail) || line.fail) && eof == (old(eof) || line.eof)
    {
      gcount := 0;
      if maxlen == 0 {
        fail := true;
        return;
      }
      buf[0] := 0;
      var nmax := maxlen - 1;
      if nmax <= 0 {
        fail := true;
        return;
      }
      var n, nget, c := Gather(buf, nmax);
      gcount := nget;
      if c == DELIM {
        buf[n] := 0;
        return;
      }
      if c != EOF {
        buf[nmax] := 0;
        fail := true;
        return;
      }
      eof := true;
      if gcount == 0 {
        fail := true;
      }
      buf[n] := 0;
    }

    /** send_all: portion by portion; short, and then bad, exactly after a refusal. */
    method SendAll(bytes: seq<Byte>) returns (n: nat)
      modifies this`bad, socket`outgoing, socket`refusals
      ensures n <= |bytes| && socket.outgoing == old(socket.outgoing) + bytes[..n]
      ensures socket.refusals == old(socket.refusals) + if n < |bytes| then 1 else 0
      ensures bad == (old(bad) || n < |bytes|)
    {
      n := 0;
      while n < |bytes|
        invariant 0 <= n <= |bytes| && bad == old(bad) && socket.refusals == old(socket.refusals)
        invariant socket.outgoing == old(socket.outgoing) + bytes[..n]
        decreases |bytes| - n
      {
        var nsend := socket.Send(bytes[n..]);
        if nsend == 0 {
          bad := true;
          break;
        }
        assert bytes[..n + nsend] == bytes[..n] + bytes[n..][..nsend];
        n := n + nsend;
      }
    }

    method Flush()
      requires Valid()
      modifies this`bad, this`sbufnxt, socket`outgoing, socket`refusals
      ensures Valid() && sbufnxt == 0 && socket.refusals >= old(socket.refusals)
      ensures bad == (old(bad) || socket.refusals > old(socket.refusals))
      ensures socket.refusals == old(socket.refusals) ==> Written() == old(Written())
    {
      if sbufnxt > 0 {
        ghost var all := sbuf[..sbufnxt];
        var n := SendAll(sbuf[..sbufnxt]);
        sbufnxt := 0;
        assert n == |all| ==> all[..n] == all;
      }
    }

    /** put: a full buffer is sent first; once bad, nothing is taken. */
    method Put(c: int)
      requires Valid()
      modifies this`bad, this`sbufnxt, sbuf, socket`outgoing, socket`refusals
      ensures Valid() && socket.refusals >= old(socket.refusals)
      ensures bad == (old(bad) || socket.refusals > old(socket.refusals))
      ensures !bad ==> Written() == old(Written()) + [(c % 256) as Byte]
      ensures old(sbufnxt) < 1024 ==>
                socket.outgoing == old(socket.outgoing) && socket.refusals == old(socket.refusals)
                && (bad ==> sbufnxt == old(sbufnxt) && sbuf[..] == old(sbuf[..]))
      ensures old(sbufnxt) == 1024 ==> sbufnxt == if bad then 0 else 1
    {
      if sbufnxt >= BUFSIZE {
        ghost var all := sbuf[..sbufnxt];
        var n := SendAll(sbuf[..sbufnxt]);
        sbufnxt := 0;
        assert n == |all| ==> all[..n] == all;
        assert !bad ==> Written() == old(Written());
      }
      if bad {
        return;
      }
      ghost var before := Written();
      sbuf[sbufnxt] := c % 256;
      sbufnxt := sbufnxt + 1;
      assert sbuf[..sbufnxt] == sbuf[..sbufnxt - 1] + [(c % 256) as Byte];
    }

    /** write: what put buffered goes first, then the block, past the buffer. */
    method Write(bytes: seq<Byte>)
      requires Valid()
      modifies this`bad, this`sbufnxt, socket`outgoing, socket`refusals
      ensures Valid() && socket.refusals >= old(socket.refusals)
      ensures bad == (old(bad) || socket.refusals > old(socket.refusals))
      ensures socket.refusals == old(socket.refusals) ==> Written() == old(Written()) + bytes
      ensures sbufnxt == if bytes == [] then old(sbufnxt) else 0
    {
      if |bytes| == 0 {
        assert Written() + bytes == Written();
        return;
      }
      Flush();
      var n := SendAll(bytes);
      assert n == |bytes| ==> bytes[..n] == bytes;
    }
  }
}
