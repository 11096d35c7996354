/** The client calls read, write, hopread and hopwrite, and why the relay does not show. */
module HopAccess {
  import opened Bytes
  import opened HopRelay
  import opened Options

  function ReadRequest(id: nat, addr: nat, len: nat): seq<Byte> {
    BcpHeader(RBCP_VER, RBCP_CMD_RD, id % 256, len % 256, addr)
  }

  function WriteRequest(id: nat, addr: nat, data: seq<Byte>): seq<Byte> {
    BcpHeader(RBCP_VER, RBCP_CMD_WR, id % 256, |data| % 256, addr) + data
  }

  function HopReadRequest(id: nat, addr: nat, len: nat, ip: nat, port: nat): seq<Byte> {
    EbcpHeader(RBCP_CMD_RD, id % 256, len % 256, addr, ip, port)
  }

  function HopWriteRequest(id: nat, addr: nat, data: seq<Byte>, ip: nat, port: nat): seq<Byte> {
    EbcpHeader(RBCP_CMD_WR, id % 256, |data| % 256, addr, ip, port) + data
  }

  /** The bytes of a read and of a write on the wire. */
  lemma DirectBytes(id: nat, addr: nat, len: nat, data: seq<Byte>)
    ensures ReadRequest(id, addr, len)
            == [0xff, 0xc0, id % 256, len % 256,
                addr / 0x100_0000 % 256, addr / 0x1_0000 % 256, addr / 0x100 % 256, addr % 256]
    ensures WriteRequest(id, addr, data)
            == [0xff, 0x80, id % 256, |data| % 256,
                addr / 0x100_0000 % 256, addr / 0x1_0000 % 256, addr / 0x100 % 256, addr % 256] + data
  {
    HighFirst(addr);
  }

  /** The bytes of a hopread and of a hopwrite: the destination follows the address. */
  lemma HopBytes(id: nat, addr: nat, len: nat, data: seq<Byte>, ip: nat, port: nat)
    ensures HopReadRequest(id, addr, len, ip, port)
            == [0xf1, 0xc0, id % 256, len % 256,
                addr / 0x100_0000 % 256, addr / 0x1_0000 % 256, addr / 0x100 % 256, addr % 256,
                ip / 0x100_0000 % 256, ip / 0x1_0000 % 256, ip / 0x100 % 256, ip % 256,
                port / 0x100_0000 % 256, port / 0x1_0000 % 256, port / 0x100 % 256, port % 256]
    ensures HopWriteRequest(id, addr, data, ip, port)
            == [0xf1, 0x80, id % 256, |data| % 256,
                addr / 0x100_0000 % 256, addr / 0x1_0000 % 256, addr / 0x100 % 256, addr % 256,
                ip / 0x100_0000 % 256, ip / 0x1_0000 % 256, ip / 0x100 % 256, ip % 256,
                port / 0x100_0000 % 256, port / 0x1_0000 % 256, port / 0x100 % 256, port % 256] + data
  {
    HighFirst(addr);
    HighFirst(ip);
    HighFirst(port);
  }

  /** What a read leaves in the caller's buffer, as long as the length it returns. */
  function ReadResult(reply: seq<Byte>, header: nat): seq<Byte> {
    if |reply| > header then reply[header..] else reply
  }

  lemma HeaderFields(kind: Byte, command: Byte, id: Byte, length: Byte, addr: nat, rest: seq<Byte>)
    requires addr < 0x1_0000_0000
    ensures var s := BcpHeader(kind, command, id, length, addr) + rest;
            s[0] == kind && s[1] == command && s[2] == id && s[3] == length && GetU32(s, 4) == addr
  {
    var s := BcpHeader(kind, command, id, length, addr) + rest;
    assert s[4..8] == U32(addr);
    U32RoundTrip(addr, s, 4);
  }

  /** A direct read request in the server's buffer, and the reply to it. */
  lemma DirectRead(mem: seq<Byte>, sbuf: seq<Byte>, stale: seq<Byte>, id: nat, addr: nat, len: nat)
    requires |sbuf| >= BCP && |stale| == 256 + BCP && addr < 0x1_0000_0000
    requires addr + len % 256 <= |mem|
    ensures var req := Delivered(sbuf, ReadRequest(id, addr, len));
            InRange(mem, req) && MemAfter(mem, req) == mem && req[3] == len % 256
            && ReplyTo(mem, req, stale)
               == [stale[0]] + ReadRequest(id, addr, len)[1..] + mem[addr..addr + len % 256]
  {
    HeaderFields(RBCP_VER, RBCP_CMD_RD, id % 256, len % 256, addr, sbuf[BCP..]);
    var req := Delivered(sbuf, ReadRequest(id, addr, len));
    assert req[1..BCP] == ReadRequest(id, addr, len)[1..];
  }

  /** A direct write request in the server's buffer: as many bytes as the length field can say. */
  lemma DirectWrite(mem: seq<Byte>, sbuf: seq<Byte>, id: nat, addr: nat, data: seq<Byte>)
    requires |sbuf| >= BCP + |data| && addr < 0x1_0000_0000
    requires addr + |data| % 256 <= |mem|
    ensures var req, n := Delivered(sbuf, WriteRequest(id, addr, data)), |data| % 256;
            InRange(mem, req) && req[3] == n
            && MemAfter(mem, req) == mem[..addr] + data[..n] + mem[addr + n..]
  {
    var rest, n := data + sbuf[BCP + |data|..], |data| % 256;
    HeaderFields(RBCP_VER, RBCP_CMD_WR, id % 256, n, addr, rest);
    var req := Delivered(sbuf, WriteRequest(id, addr, data));
    assert req == BcpHeader(RBCP_VER, RBCP_CMD_WR, id % 256, n, addr) + rest;
    assert req[BCP..BCP + n] == data[..n];
  }

  /**
   A command that is neither read nor write changes no register, and its reply hands out again as
   many bytes as it asks for of the reply before it: the buffer is not cleared.
   */
  lemma OtherCommandRepeats(mem: seq<Byte>, first: seq<Byte>, other: seq<Byte>, stale: seq<Byte>)
    requires |first| >= BCP && |other| >= BCP && |stale| == 256 + BCP && InRange(mem, first)
    requires other[1] != 0x80 && other[1] != 0xc0
    ensures InRange(MemAfter(mem, first), other)
    ensures MemAfter(MemAfter(mem, first), other) == MemAfter(mem, first)
    ensures var before := Delivered(stale, ReplyTo(mem, first, stale));
            ReplyTo(MemAfter(mem, first), other, before) == [before[0]] + other[1..8] + before[8..8 + other[3]]
            && before[0] == stale[0]
  {
  }

  /** The registers with data put in at addr. */
  function Stored(mem: seq<Byte>, addr: nat, data: seq<Byte>): (m: seq<Byte>)
    requires addr + |data| <= |mem|
    ensures |m| == |mem|
  {
    mem[..addr] + data + mem[addr + |data|..]
  }

  lemma StoredAt(mem: seq<Byte>, addr: nat, data: seq<Byte>)
    requires addr + |data| <= |mem|
    ensures Stored(mem, addr, data)[addr..addr + |data|] == data
  {
  }

  /** Up to 255 bytes are written as they are. */
  lemma ShortWrite(mem: seq<Byte>, sbuf: seq<Byte>, id: nat, addr: nat, data: seq<Byte>)
    requires |sbuf| >= BCP + |data| && |data| < 256 && addr < 0x1_0000_0000 && addr + |data| <= |mem|
    ensures var req := Delivered(sbuf, WriteRequest(id, addr, data));
            InRange(mem, req) && req[3] == |data| && MemAfter(mem, req) == Stored(mem, addr, data)
  {
    DirectWrite(mem, sbuf, id, addr, data);
    assert data[..|data|] == data;
  }

  /** The bytes a read returns when it goes to the server directly. */
  function ReadDirectly(mem: seq<Byte>, sbuf: seq<Byte>, stale: seq<Byte>, id: nat, addr: nat, len: nat): seq<Byte>
    requires |sbuf| >= BCP && |stale| == 256 + BCP && addr < 0x1_0000_0000
    requires addr + len % 256 <= |mem|
  {
    DirectRead(mem, sbuf, stale, id, addr, len);
    ReadResult(ReplyTo(mem, Delivered(sbuf, ReadRequest(id, addr, len)), stale), BCP)
  }

  /** The buffers along the way through a relay, with whatever they held before. */
  datatype Route = Route(buf: seq<Byte>, rbuf: seq<Byte>, sbuf: seq<Byte>, stale: seq<Byte>,
                         ip: nat, port: nat)
  {
    predicate Ok() {
      |buf| == 256 + EBCP && |rbuf| == 256 + EBCP && |sbuf| >= 256 + EBCP && |stale| == 256 + BCP
    }
  }

  lemma HopReadArrives(r: Route, id: nat, addr: nat, len: nat)
    requires r.Ok()
    ensures RelayedRequest(r.buf, HopReadRequest(id, addr, len, r.ip, r.port)) == ReadRequest(id, addr, len)
  {
    var packet := HopReadRequest(id, addr, len, r.ip, r.port);
    RelayForwards(r.buf, RBCP_CMD_RD, id % 256, len % 256, addr, r.ip, r.port, []);
    assert packet + [] == packet;
    assert ReadRequest(id, addr, len) + [] == ReadRequest(id, addr, len);
  }

  lemma HopWriteArrives(r: Route, id: nat, addr: nat, data: seq<Byte>)
    requires r.Ok() && |data| < 256
    ensures RelayedRequest(r.buf, HopWriteRequest(id, addr, data, r.ip, r.port)) == WriteRequest(id, addr, data)
  {
    RelayForwards(r.buf, RBCP_CMD_WR, id % 256, |data| % 256, addr, r.ip, r.port, data);
  }

  /** The bytes a hopread returns. */
  function ReadByHop(mem: seq<Byte>, r: Route, id: nat, addr: nat, len: nat): seq<Byte>
    requires r.Ok() && addr < 0x1_0000_0000 && addr + len % 256 <= |mem|
  {
    HopReadArrives(r, id, addr, len);
    DirectRead(mem, r.sbuf, r.stale, id, addr, len);
    var req := Delivered(r.sbuf, RelayedRequest(r.buf, HopReadRequest(id, addr, len, r.ip, r.port)));
    ReadResult(RelayedReply(r.rbuf, ReplyTo(mem, req, r.stale), r.ip, r.port), EBCP)
  }

  /** Both reads return the registers, provided the low byte of the length is not zero. */
  lemma ReadsReturnMemory(mem: seq<Byte>, r: Route, id: nat, addr: nat, len: nat)
    requires r.Ok() && addr < 0x1_0000_0000 && addr + len % 256 <= |mem| && len % 256 != 0
    ensures ReadDirectly(mem, r.sbuf, r.stale, id, addr, len) == mem[addr..addr + len % 256]
    ensures ReadByHop(mem, r, id, addr, len) == mem[addr..addr + len % 256]
  {
    DirectRead(mem, r.sbuf, r.stale, id, addr, len);
    HopReadArrives(r, id, addr, len);
    var reply := ReplyTo(mem, Delivered(r.sbuf, ReadRequest(id, addr, len)), r.stale);
    assert reply[BCP..] == mem[addr..addr + len % 256];
    ReplyLength(r.stale[0], id, addr, len, mem[addr..addr + len % 256]);
    RelayReturns(r.rbuf, reply, r.ip, r.port);
  }

  lemma ReplyLength(kind: Byte, id: nat, addr: nat, len: nat, bytes: seq<Byte>)
    ensures var reply := [kind] + ReadRequest(id, addr, len)[1..] + bytes;
            |reply| == BCP + |bytes| && reply[3] == len % 256
  {
  }

  /**
   Transparency: a read through the relay returns what a direct read returns if and only
   if the low byte of the length is not zero. With a zero byte both calls hand out the
   bare header, which is longer through the relay.
   */
  lemma HopReadTransparent(mem: seq<Byte>, r: Route, id: nat, addr: nat, len: nat)
    requires r.Ok() && addr < 0x1_0000_0000 && addr + len % 256 <= |mem|
    ensures ReadByHop(mem, r, id, addr, len) == ReadDirectly(mem, r.sbuf, r.stale, id, addr, len)
            <==> len % 256 != 0
  {
    if len % 256 != 0 {
      ReadsReturnMemory(mem, r, id, addr, len);
    } else {
      DirectRead(mem, r.sbuf, r.stale, id, addr, len);
      HopReadArrives(r, id, addr, len);
      ReplyLength(r.stale[0], id, addr, len, mem[addr..addr + len % 256]);
      var reply := ReplyTo(mem, Delivered(r.sbuf, ReadRequest(id, addr, len)), r.stale);
      RelayReturns(r.rbuf, reply, r.ip, r.port);
      assert |ReadDirectly(mem, r.sbuf, r.stale, id, addr, len)| == BCP;
      assert |ReadByHop(mem, r, id, addr, len)| == EBCP;
    }
  }

  /** The registers after a write, direct and through the relay. */
  lemma HopWriteTransparent(mem: seq<Byte>, r: Route, id: nat, addr: nat, data: seq<Byte>)
    requires r.Ok() && |data| < 256 && addr < 0x1_0000_0000 && addr + |data| <= |mem|
    ensures var direct := Delivered(r.sbuf, WriteRequest(id, addr, data));
            var hop := Delivered(r.sbuf, RelayedRequest(r.buf, HopWriteRequest(id, addr, data, r.ip, r.port)));
            InRange(mem, direct) && InRange(mem, hop)
            && MemAfter(mem, hop) == MemAfter(mem, direct) == Stored(mem, addr, data)
  {
    HopWriteArrives(r, id, addr, data);
    ShortWrite(mem, r.sbuf, id, addr, data);
  }

  /** A hopread after a hopwrite, over whatever buffers, returns the bytes written. */
  lemma HopWriteThenRead(mem: seq<Byte>, w: Route, r: Route, id: nat, id': nat, addr: nat, data: seq<Byte>)
    requires w.Ok() && r.Ok() && 0 < |data| < 256 && addr < 0x1_0000_0000 && addr + |data| <= |mem|
    ensures var hop := Delivered(w.sbuf, RelayedRequest(w.buf, HopWriteRequest(id, addr, data, w.ip, w.port)));
            InRange(mem, hop) && ReadByHop(MemAfter(mem, hop), r, id', addr, |data|) == data
  {
    HopWriteTransparent(mem, w, id, addr, data);
    StoredReadsBack(mem, r, id', addr, data);
  }

  lemma StoredReadsBack(mem: seq<Byte>, r: Route, id: nat, addr: nat, data: seq<Byte>)
    requires r.Ok() && 0 < |data| < 256 && addr < 0x1_0000_0000 && addr + |data| <= |mem|
    ensures ReadByHop(Stored(mem, addr, data), r, id, addr, |data|) == data
  {
    StoredAt(mem, addr, data);
    ReadsReturnMemory(Stored(mem, addr, data), r, id, addr, |data|);
  }

  /** The way through this relay to this site. */
  ghost function Through(relay: Relay, site: Site, ip: nat, port: nat): (r: Route)
    requires relay.Valid() && site.server.Valid() && SiteOk(relay, site)
    reads relay.buf, relay.rbuf, site.sbuf, site.server.rbuf
    ensures r.Ok()
  {
    Route(relay.buf[..], relay.rbuf[..], site.sbuf[..], site.server.rbuf[..], ip, port)
  }

  lemma HopReadServed(mem: seq<Byte>, r: Route, id: nat, addr: nat, len: nat)
    requires r.Ok() && addr < 0x1_0000_0000 && addr + len % 256 <= |mem|
    ensures var req := Delivered(r.sbuf, RelayedRequest(r.buf, HopReadRequest(id, addr, len, r.ip, r.port)));
            InRange(mem, req) && MemAfter(mem, req) == mem
            && ReadByHop(mem, r, id, addr, len)
               == ReadResult(RelayedReply(r.rbuf, ReplyTo(mem, req, r.stale), r.ip, r.port), EBCP)
  {
    HopReadArrives(r, id, addr, len);
    DirectRead(mem, r.sbuf, r.stale, id, addr, len);
  }

  lemma HopWriteServed(mem: seq<Byte>, r: Route, id: nat, addr: nat, data: seq<Byte>)
    requires r.Ok() && |data| < 256 && addr < 0x1_0000_0000 && addr + |data| <= |mem|
    ensures var req := Delivered(r.sbuf, RelayedRequest(r.buf, HopWriteRequest(id, addr, data, r.ip, r.port)));
            InRange(mem, req) && req[3] == |data| && MemAfter(mem, req) == Stored(mem, addr, data)
  {
    HopWriteArrives(r, id, addr, data);
    ShortWrite(mem, r.sbuf, id, addr, data);
  }

  /** What the relay reads out of a hop packet is the address and port that were put in. */
  lemma HopDestination(command: Byte, id: Byte, length: Byte, addr: nat, ip: nat, port: nat, rest: seq<Byte>)
    requires ip < 0x1_0000_0000 && port < 0x1_0000_0000
    ensures var p := EbcpHeader(command, id, length, addr, ip, port) + rest;
            GetU32(p, 8) == ip && GetU32(p, 12) == port
  {
    SecondHalf(BcpHeader(RBCP_TYPE_HOP, command, id, length, addr), ip, port, rest);
  }

  lemma Regroup(a: seq<Byte>, b: seq<Byte>, c: seq<Byte>)
    ensures a + b + c == a + (b + c)
  {
  }

  lemma SecondHalf(front: seq<Byte>, ip: nat, port: nat, rest: seq<Byte>)
    requires |front| == 8 && ip < 0x1_0000_0000 && port < 0x1_0000_0000
    ensures var p := front + U32(ip) + U32(port) + rest; GetU32(p, 8) == ip && GetU32(p, 12) == port
  {
    var p := front + U32(ip) + U32(port) + rest;
    assert p == front + U32(ip) + (U32(port) + rest) by {
      Regroup(front + U32(ip), U32(port), rest);
    }
    U32At(front, ip, U32(port) + rest);
    U32At(front + U32(ip), port, rest);
  }

  /** A hopread goes to the address and port that its caller gives. */
  lemma HopReadDestination(id: nat, addr: nat, len: nat, ip: nat, port: nat)
    requires ip < 0x1_0000_0000 && port < 0x1_0000_0000
    ensures var p := HopReadRequest(id, addr, len, ip, port);
            GetU32(p, 8) == ip && GetU32(p, 12) == port && Destination(p) == (ip, port % 0x1_0000)
  {
    HopDestination(RBCP_CMD_RD, id % 256, len % 256, addr, ip, port, []);
    assert HopReadRequest(id, addr, len, ip, port) + [] == HopReadRequest(id, addr, len, ip, port);
  }

  /** A hopwrite goes to the address and port that its caller gives. */
  lemma HopWriteDestination(id: nat, addr: nat, data: seq<Byte>, ip: nat, port: nat)
    requires ip < 0x1_0000_0000 && port < 0x1_0000_0000
    ensures var p := HopWriteRequest(id, addr, data, ip, port);
            GetU32(p, 8) == ip && GetU32(p, 12) == port && Destination(p) == (ip, port % 0x1_0000)
  {
    HopDestination(RBCP_CMD_WR, id % 256, |data| % 256, addr, ip, port, data);
  }

  /** Size of the packet buffers of write and hopwrite. */
  const PACKET := 2048

  /** The caller's side: one sequence counter for all calls. */
  class Client {
    var sequence: nat

    constructor ()
      ensures sequence == 0
    {
      sequence := 0;
    }

    /** memmove of the payload to the front, unless there is none. */
    method Extract(buf: array<Byte>, rlen: nat, header: nat) returns (n: nat)
      requires rlen <= buf.Length
      modifies buf
      ensures n <= buf.Length && buf[..n] == ReadResult(old(buf[..rlen]), header)
    {
      n := rlen;
      if rlen > header {
        n := rlen - header;
        forall i | 0 <= i < n {
          buf[i] := buf[header + i];
        }
      }
    }

    method Read(buf: array<Byte>, addr: nat, len: nat, server: RegisterServer, sbuf: array<Byte>)
        returns (n: nat)
      requires server.Valid() && addr < 0x1_0000_0000 && addr + len % 256 <= server.mem.Length
      requires buf.Length >= 256 + BCP && sbuf.Length >= 256 + EBCP
      requires buf != sbuf && buf != server.mem && buf != server.rbuf
      requires sbuf != server.mem && sbuf != server.rbuf
      modifies this, buf, sbuf, server.rbuf, server.mem
      ensures server.mem[..] == old(server.mem[..]) && sequence == old(sequence) + 1
      ensures n <= buf.Length
              && buf[..n] == ReadDirectly(old(server.mem[..]), old(sbuf[..]), old(server.rbuf[..]),
                                          old(sequence), addr, len)
    {
      ghost var mem, s, stale := server.mem[..], sbuf[..], server.rbuf[..];
      var request := ReadRequest(sequence, addr, len);
      DirectRead(mem, s, stale, sequence, addr, len);
      sequence := sequence + 1;
      Deposit(sbuf, request);
      var rlen := server.Serve(sbuf);
      ghost var reply := server.rbuf[..rlen];
      Deposit(buf, server.rbuf[..rlen]);
      assert buf[..rlen] == reply;
      n := Extract(buf, rlen, BCP);
    }

    /** The registers come from the server that the caller names; without one there is no answer. */
    method HopRead(buf: array<Byte>, addr: nat, len: nat, ip: nat, port: nat, relay: Relay, net: Network)
        returns (n: int)
      requires NetOk(relay, net) && ip < 0x1_0000_0000 && port < 0x1_0000_0000 && addr < 0x1_0000_0000
      requires var at := (ip, port % 0x1_0000);
               at in net ==> addr + len % 256 <= net[at].server.mem.Length && buf !in Arrays(net[at])
      requires buf.Length >= 256 + EBCP && buf !in {relay.buf, relay.rbuf}
      modifies this, buf, relay.buf, relay.rbuf, Reach(net, (ip, port % 0x1_0000))
      ensures sequence == old(sequence) + 1
      ensures var at := (ip, port % 0x1_0000);
              if at !in net then n == -1 && buf[..] == old(buf[..])
              else
                net[at].server.mem[..] == old(net[at].server.mem[..]) && 0 <= n <= buf.Length
                && buf[..n] == ReadByHop(old(net[at].server.mem[..]), old(Through(relay, net[at], ip, port)),
                                         old(sequence), addr, len)
    {
      var request := HopReadRequest(sequence, addr, len, ip, port);
      ghost var id, at := sequence, (ip, port % 0x1_0000);
      sequence := sequence + 1;
      HopReadDestination(id, addr, len, ip, port);
      if at in net {
        assert SiteOk(relay, net[at]);
        HopReadServed(net[at].server.mem[..], Through(relay, net[at], ip, port), id, addr, len);
      }
      var answer := Hop(relay, net, request);
      if answer.None? {
        return -1;
      }
      Deposit(buf, answer.value);
      assert buf[..|answer.value|] == answer.value;
      n := Extract(buf, |answer.value|, EBCP);
    }

    /** Too much for the buffer: -1, and only the sequence number is used up. */
    method Write(data: seq<Byte>, addr: nat, server: RegisterServer, sbuf: array<Byte>) returns (rlen: int)
      requires server.Valid() && addr < 0x1_0000_0000
      requires |data| < 2040 ==> addr + |data| % 256 <= server.mem.Length && sbuf.Length >= BCP + |data|
      requires sbuf != server.mem && sbuf != server.rbuf
      modifies this, sbuf, server.rbuf, server.mem
      ensures sequence == old(sequence) + 1
      ensures |data| >= 2040 ==> rlen == -1 && server.mem[..] == old(server.mem[..])
      ensures |data| < 2040 ==>
                var n := |data| % 256;
                rlen == BCP + n && server.mem[..] == old(server.mem[..addr]) + data[..n] + old(server.mem[addr + n..])
    {
      var request := WriteRequest(sequence, addr, data);
      sequence := sequence + 1;
      if |data| >= PACKET - BCP {
        return -1;
      }
      DirectWrite(server.mem[..], sbuf[..], sequence - 1, addr, data);
      Deposit(sbuf, request);
      rlen := server.Serve(sbuf);
    }

    /** Too much is refused; otherwise the server that the caller names takes the data, if there is one. */
    method HopWrite(data: seq<Byte>, addr: nat, ip: nat, port: nat, relay: Relay, net: Network)
        returns (rlen: int)
      requires NetOk(relay, net) && ip < 0x1_0000_0000 && port < 0x1_0000_0000 && addr < 0x1_0000_0000
      requires |data| < 256 || |data| >= 2032
      requires var at := (ip, port % 0x1_0000);
               at in net && |data| < 256 ==> addr + |data| <= net[at].server.mem.Length
      modifies this, relay.buf, relay.rbuf, Reach(net, (ip, port % 0x1_0000))
      ensures sequence == old(sequence) + 1
      ensures var at := (ip, port % 0x1_0000);
              if at !in net || |data| >= 2032 then
                rlen == -1 && forall k :: k in net ==> net[k].server.mem[..] == old(net[k].server.mem[..])
              else
                rlen == 16 + |data| && net[at].server.mem[..] == Stored(old(net[at].server.mem[..]), addr, data)
                && forall k :: k in net && k != at ==> net[k].server.mem[..] == old(net[k].server.mem[..])
    {
      var id := sequence;
      sequence := sequence + 1;
      if |data| >= PACKET - EBCP {
        return -1;
      }
      rlen := ShortHopWrite(data, addr, id, ip, port, relay, net);
    }

    /** Up to 255 bytes through the relay. */
    method ShortHopWrite(data: seq<Byte>, addr: nat, id: nat, ip: nat, port: nat, relay: Relay, net: Network)
        returns (rlen: int)
      requires NetOk(relay, net) && ip < 0x1_0000_0000 && port < 0x1_0000_0000 && addr < 0x1_0000_0000
      requires |data| < 256
      requires var at := (ip, port % 0x1_0000); at in net ==> addr + |data| <= net[at].server.mem.Length
      modifies relay.buf, relay.rbuf, Reach(net, (ip, port % 0x1_0000))
      ensures var at := (ip, port % 0x1_0000);
              if at !in net then rlen == -1
              else
                rlen == 16 + |data| && net[at].server.mem[..] == Stored(old(net[at].server.mem[..]), addr, data)
    {
      var request := HopWriteRequest(id, addr, data, ip, port);
      ghost var at := (ip, port % 0x1_0000);
      HopWriteDestination(id, addr, data, ip, port);
      if at in net {
        assert SiteOk(relay, net[at]);
        HopWriteServed(net[at].server.mem[..], Through(relay, net[at], ip, port), id, addr, data);
      }
      var answer := Hop(relay, net, request);
      if answer.None? {
        return -1;
      }
      rlen := |answer.value|;
    }
  }
}
