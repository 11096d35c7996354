/**
 Register access by RBCP packets, directly and through the hop relay: the packets, the
 relay's in-place rewriting, the register server, and the client calls.
 */
module HopRelay {
  import opened Bytes
  import opened Options

  const RBCP_VER: Byte := 0xff
  const RBCP_CMD_WR: Byte := 0x80
  const RBCP_CMD_RD: Byte := 0xc0
  const RBCP_TYPE_HOP: Byte := 0xf1
  const BCP := 8
  const EBCP := 16

  /** struct bcp_header and rbcp_header: type, command, id, length, address. */
  function BcpHeader(kind: Byte, command: Byte, id: Byte, length: Byte, addr: nat): (h: seq<Byte>)
    ensures |h| == BCP
  {
    [kind, command, id, length] + U32(addr)
  }

  /** struct ebcp_header and erbcp_header: the same with destination address and port. */
  function EbcpHeader(command: Byte, id: Byte, length: Byte, addr: nat, ip: nat, port: nat): (h: seq<Byte>)
    ensures |h| == EBCP
  {
    BcpHeader(RBCP_TYPE_HOP, command, id, length, addr) + U32(ip) + U32(port)
  }

  /** recvfrom into a buffer: the datagram, then what the buffer held before. */
  function Delivered(buf: seq<Byte>, packet: seq<Byte>): seq<Byte>
    requires |packet| <= |buf|
  {
    packet + buf[|packet|..]
  }

  /** A request buffer of the relay once the payload is moved down over the destination. */
  function Shrunk(s: seq<Byte>): (r: seq<Byte>)
    requires |s| >= EBCP && EBCP + s[3] <= |s|
    ensures |r| == |s|
  {
    [RBCP_VER] + s[1..BCP] + s[EBCP..EBCP + s[3]] + s[BCP + s[3]..]
  }

  /** A reply buffer once the payload is moved up and the destination written before it. */
  function Expanded(s: seq<Byte>, ip: nat, port: nat): (r: seq<Byte>)
    requires |s| >= EBCP && EBCP + s[3] <= |s|
    ensures |r| == |s|
  {
    [RBCP_TYPE_HOP] + s[1..BCP] + U32(ip) + U32(port) + s[BCP..BCP + s[3]] + s[EBCP + s[3]..]
  }

  /** ntohl undone by htonl. */
  lemma GetPutU32(s: seq<Byte>, p: nat)
    requires p + 4 <= |s|
    ensures U32(GetU32(s, p)) == s[p..p + 4]
  {
    GetPutU16(s, p);
    GetPutU16(s, p + 2);
    Halves(GetU16(s, p), GetU16(s, p + 2));
  }

  lemma Halves(hi: nat, lo: nat)
    requires hi < 0x1_0000 && lo < 0x1_0000
    ensures U32(hi * 0x1_0000 + lo) == U16(hi) + U16(lo)
  {
    var n := hi * 0x1_0000 + lo;
    assert n / 0x1_0000 == hi;
    assert n / 0x100 == hi * 0x100 + lo / 0x100;
    assert (hi * 0x100 + lo / 0x100) % 0x100 == lo / 0x100 % 0x100;
    assert n % 0x100 == lo % 0x100;
  }

  lemma GetPutU16(s: seq<Byte>, p: nat)
    requires p + 2 <= |s|
    ensures U16(GetU16(s, p)) == s[p..p + 2]
    ensures GetU16(s, p) / 256 == s[p] && GetU16(s, p) % 256 == s[p + 1]
  {
  }

  /** Moving up after moving down, with type and destination put back, is the packet again. */
  lemma ExpandUndoesShrink(s: seq<Byte>)
    requires |s| >= EBCP && EBCP + s[3] <= |s| && s[0] == RBCP_TYPE_HOP
    ensures var n := EBCP + s[3];
            Expanded(Shrunk(s), GetU32(s, 8), GetU32(s, 12))[..n] == s[..n]
  {
    var m, r := s[3], Shrunk(s);
    assert r[3] == m;
    GetPutU32(s, 8);
    GetPutU32(s, 12);
    assert r[1..BCP] == s[1..BCP] && r[BCP..BCP + m] == s[EBCP..EBCP + m];
  }

  /** The two static buffers of relay(). */
  class Relay {
    const buf: array<Byte>
    const rbuf: array<Byte>

    ghost predicate Valid() {
      buf.Length == 256 + EBCP && rbuf.Length == 256 + EBCP && buf != rbuf
    }

    constructor ()
      ensures Valid() && fresh(buf) && fresh(rbuf)
    {
      buf := new Byte[256 + EBCP](_ => 0);
      rbuf := new Byte[256 + EBCP](_ => 0);
    }

    /** The payload moves eight bytes down; ascending, so it never overtakes itself. */
    method MoveDown()
      requires Valid() && EBCP + buf[3] <= buf.Length
      modifies buf
      ensures buf[..] == old(buf[..BCP]) + old(buf[EBCP..EBCP + buf[3]]) + old(buf[BCP + buf[3]..])
    {
      ghost var s := buf[..];
      var length := buf[3];
      var i := 0;
      while i < length
        invariant 0 <= i <= length
        invariant forall k :: BCP <= k < BCP + i ==> buf[k] == s[k + BCP]
        invariant forall k :: BCP + i <= k < buf.Length ==> buf[k] == s[k]
        invariant forall k :: 0 <= k < BCP ==> buf[k] == s[k]
      {
        buf[BCP + i] := buf[EBCP + i];
        i := i + 1;
      }
      Moved(s, buf[..], length);
    }

    static lemma Moved(s: seq<Byte>, t: seq<Byte>, length: nat)
      requires |t| == |s| && EBCP + length <= |s|
      requires forall k :: BCP <= k < BCP + length ==> t[k] == s[k + BCP]
      requires forall k :: BCP + length <= k < |t| ==> t[k] == s[k]
      requires forall k :: 0 <= k < BCP ==> t[k] == s[k]
      ensures t == s[..BCP] + s[EBCP..EBCP + length] + s[BCP + length..]
    {
      assert t[..BCP] == s[..BCP];
      assert t[BCP..BCP + length] == s[EBCP..EBCP + length];
      assert t[BCP + length..] == s[BCP + length..];
      assert t == t[..BCP] + t[BCP..BCP + length] + t[BCP + length..];
    }

    /** The request half: version, then the payload over the destination. */
    method ShrinkRequest(ndata: nat) returns (len: nat, ip: nat, port: nat)
      requires Valid() && EBCP <= ndata <= buf.Length
      modifies buf
      ensures buf[..] == Shrunk(old(buf[..])) && len == ndata - BCP
      ensures ip == GetU32(old(buf[..]), 8) && port == GetU32(old(buf[..]), 12)
    {
      ip, port := GetU32(buf[..], 8), GetU32(buf[..], 12);
      ghost var s := buf[..];
      buf[0] := RBCP_VER;
      ghost var u := buf[..];
      assert u == [RBCP_VER] + s[1..];
      MoveDown();
      len := ndata - BCP;
      Retyped(s, u);
    }

    static lemma Retyped(s: seq<Byte>, u: seq<Byte>)
      requires |s| >= EBCP && EBCP + s[3] <= |s| && u == [RBCP_VER] + s[1..]
      ensures u[..BCP] + u[EBCP..EBCP + u[3]] + u[BCP + u[3]..] == Shrunk(s)
    {
      assert u[..BCP] == [RBCP_VER] + s[1..BCP];
      assert u[EBCP..EBCP + u[3]] == s[EBCP..EBCP + s[3]] && u[BCP + u[3]..] == s[BCP + s[3]..];
    }

    method PutU32(p: nat, n: nat)
      requires Valid() && p + 4 <= rbuf.Length
      modifies rbuf
      ensures rbuf[..] == old(rbuf[..p]) + U32(n) + old(rbuf[p + 4..])
    {
      var w := U32(n);
      rbuf[p], rbuf[p + 1], rbuf[p + 2], rbuf[p + 3] := w[0], w[1], w[2], w[3];
      assert rbuf[p..p + 4] == w;
      assert rbuf[..] == rbuf[..p] + rbuf[p..p + 4] + rbuf[p + 4..];
    }

    /** The payload moves eight bytes up; descending, so it never overtakes itself. */
    method MoveUp()
      requires Valid() && EBCP + rbuf[3] <= rbuf.Length
      modifies rbuf
      ensures rbuf[..EBCP] == old(rbuf[..EBCP])
      ensures rbuf[EBCP..EBCP + old(rbuf[3])] == old(rbuf[BCP..BCP + rbuf[3]])
      ensures rbuf[EBCP + old(rbuf[3])..] == old(rbuf[EBCP + rbuf[3]..])
    {
      ghost var s := rbuf[..];
      var length: int := rbuf[3];
      var i := 0;
      while i < length
        invariant 0 <= i <= length
        invariant forall k :: EBCP + length - i <= k < EBCP + length ==> rbuf[k] == s[k - BCP]
        invariant forall k :: 0 <= k < EBCP + length - i ==> rbuf[k] == s[k]
        invariant forall k :: EBCP + length <= k < rbuf.Length ==> rbuf[k] == s[k]
      {
        rbuf[EBCP + (length - i - 1)] := rbuf[BCP + (length - i - 1)];
        i := i + 1;
      }
    }

    /** The header fields of the reply. */
    method PutHead(ip: nat, port: nat)
      requires Valid()
      modifies rbuf
      ensures rbuf[..] == [RBCP_TYPE_HOP] + old(rbuf[1..8]) + U32(ip) + U32(port) + old(rbuf[16..])
    {
      ghost var s := rbuf[..];
      PutU32(8, ip);
      ghost var a := rbuf[..];
      assert a == s[..8] + U32(ip) + s[12..];
      PutU32(12, port);
      ghost var b := rbuf[..];
      assert b == a[..12] + U32(port) + a[16..];
      rbuf[0] := RBCP_TYPE_HOP;
      Headed(s, U32(ip), U32(port), a, b);
      assert rbuf[..] == [RBCP_TYPE_HOP] + b[1..];
    }

    static lemma Headed(s: seq<Byte>, u: seq<Byte>, v: seq<Byte>, a: seq<Byte>, b: seq<Byte>)
      requires |s| >= EBCP && |u| == 4 && |v| == 4 && a == s[..8] + u + s[12..] && b == a[..12] + v + a[16..]
      ensures [RBCP_TYPE_HOP] + b[1..] == [RBCP_TYPE_HOP] + s[1..8] + u + v + s[16..]
    {
      assert a[..12] == s[..8] + u && a[16..] == s[16..];
      assert b[1..8] == s[1..8] && b[8..12] == u && b[12..16] == v && b[16..] == s[16..];
      assert b[1..] == b[1..8] + b[8..12] + b[12..16] + b[16..];
    }

    /** The reply half: payload up, then the header fields. */
    method ExpandReply(rlen: nat, ip: nat, port: nat) returns (elen: nat)
      requires Valid() && BCP <= rlen <= rbuf.Length - BCP
      modifies rbuf
      ensures rbuf[..] == Expanded(old(rbuf[..]), ip, port) && elen == rlen + BCP
    {
      ghost var s := rbuf[..];
      MoveUp();
      ghost var moved := rbuf[..];
      PutHead(ip, port);
      elen := rlen + BCP;
      assert moved[..EBCP] == s[..EBCP] && moved[EBCP + s[3]..] == s[EBCP + s[3]..];
      assert moved[EBCP..EBCP + s[3]] == s[BCP..BCP + s[3]];
      Assembled(moved, s, ip, port, rbuf[..]);
    }

    static lemma Assembled(moved: seq<Byte>, s: seq<Byte>, ip: nat, port: nat, r: seq<Byte>)
      requires |moved| == |s| >= EBCP && EBCP + s[3] <= |s|
      requires moved[..EBCP] == s[..EBCP] && moved[EBCP + s[3]..] == s[EBCP + s[3]..]
      requires moved[EBCP..EBCP + s[3]] == s[BCP..BCP + s[3]]
      requires r == [RBCP_TYPE_HOP] + moved[1..8] + U32(ip) + U32(port) + moved[16..]
      ensures r == Expanded(s, ip, port)
    {
    }
  }

  /** A register read or write within the memory: what the server itself does not check. */
  predicate InRange(mem: seq<Byte>, req: seq<Byte>)
    requires |req| >= BCP
  {
    (req[1] == RBCP_CMD_RD || req[1] == RBCP_CMD_WR ==> GetU32(req, 4) + req[3] <= |mem|)
    && (req[1] == RBCP_CMD_WR ==> BCP + req[3] <= |req|)
  }

  /** Register memory after request req. */
  function MemAfter(mem: seq<Byte>, req: seq<Byte>): (m: seq<Byte>)
    requires |req| >= BCP && InRange(mem, req)
    ensures |m| == |mem|
  {
    var addr, len := GetU32(req, 4), req[3];
    if req[1] == RBCP_CMD_WR then mem[..addr] + req[BCP..BCP + len] + mem[addr + len..] else mem
  }

  /** The reply: header fields copied but for the type, and the bytes read or written. */
  function ReplyTo(mem: seq<Byte>, req: seq<Byte>, stale: seq<Byte>): (r: seq<Byte>)
    requires |req| >= BCP && InRange(mem, req) && BCP + req[3] <= |stale|
    ensures |r| == BCP + req[3]
  {
    var addr, len := GetU32(req, 4), req[3];
    [stale[0]] + req[1..BCP] +
    if req[1] == RBCP_CMD_RD then mem[addr..addr + len]
    else if req[1] == RBCP_CMD_WR then req[BCP..BCP + len]
    else stale[BCP..BCP + len]
  }

  /** RBCPServer: the register memory and the static reply buffer. */
  class RegisterServer {
    const mem: array<Byte>
    const rbuf: array<Byte>

    ghost predicate Valid() {
      rbuf.Length == 256 + BCP && mem != rbuf
    }

    constructor (size: nat)
      ensures Valid() && fresh(mem) && fresh(rbuf) && mem.Length == size
    {
      mem := new Byte[size](_ => 0);
      rbuf := new Byte[256 + BCP](_ => 0);
    }

    method CopyHeader(buf: array<Byte>)
      requires Valid() && buf.Length >= BCP && buf != rbuf
      modifies rbuf
      ensures rbuf[..] == [old(rbuf[0])] + buf[1..BCP] + old(rbuf[BCP..])
    {
      rbuf[1], rbuf[2], rbuf[3] := buf[1], buf[2], buf[3];
      rbuf[4], rbuf[5], rbuf[6], rbuf[7] := buf[4], buf[5], buf[6], buf[7];
      assert rbuf[..] == [rbuf[0]] + rbuf[1..BCP] + rbuf[BCP..];
    }

    method CopyOut(addr: nat, len: nat)
      requires Valid() && addr + len <= mem.Length && len < 256
      modifies rbuf
      ensures rbuf[..BCP] == old(rbuf[..BCP]) && rbuf[BCP..BCP + len] == mem[addr..addr + len]
      ensures rbuf[BCP + len..] == old(rbuf[BCP + len..])
    {
      var i := 0;
      while i < len
        invariant 0 <= i <= len
        invariant rbuf[BCP..BCP + i] == mem[addr..addr + i]
        invariant rbuf[..BCP] == old(rbuf[..BCP]) && rbuf[BCP + i..] == old(rbuf[BCP + i..])
      {
        rbuf[BCP + i] := mem[i + addr];
        i := i + 1;
      }
    }

    method CopyIn(buf: array<Byte>, addr: nat, len: nat)
      requires Valid() && addr + len <= mem.Length && len < 256
      requires BCP + len <= buf.Length && buf != mem && buf != rbuf
      modifies mem, rbuf
      ensures rbuf[..BCP] == old(rbuf[..BCP]) && rbuf[BCP..BCP + len] == buf[BCP..BCP + len]
      ensures rbuf[BCP + len..] == old(rbuf[BCP + len..])
      ensures mem[..] == old(mem[..addr]) + buf[BCP..BCP + len] + old(mem[addr + len..])
    {
      var i := 0;
      while i < len
        invariant 0 <= i <= len
        invariant rbuf[BCP..BCP + i] == buf[BCP..BCP + i]
        invariant mem[addr..addr + i] == buf[BCP..BCP + i]
        invariant rbuf[..BCP] == old(rbuf[..BCP]) && rbuf[BCP + i..] == old(rbuf[BCP + i..])
        invariant mem[..addr] == old(mem[..addr]) && mem[addr + i..] == old(mem[addr + i..])
      {
        mem[i + addr] := buf[BCP + i];
        rbuf[BCP + i] := mem[i + addr];
        assert rbuf[BCP..BCP + i + 1] == rbuf[BCP..BCP + i] + [rbuf[BCP + i]];
        assert mem[addr..addr + i + 1] == mem[addr..addr + i] + [mem[addr + i]];
        assert buf[BCP..BCP + i + 1] == buf[BCP..BCP + i] + [buf[BCP + i]];
        i := i + 1;
      }
      assert mem[..] == mem[..addr] + mem[addr..addr + len] + mem[addr + len..];
    }

    /** server_recv_to_reg_mem on a buffer that holds a request. */
    method Serve(buf: array<Byte>) returns (rlen: nat)
      requires Valid() && buf.Length >= BCP && buf != mem && buf != rbuf
      requires InRange(mem[..], buf[..])
      modifies mem, rbuf
      ensures rlen == BCP + old(buf[3]) && buf[..] == old(buf[..])
      ensures mem[..] == MemAfter(old(mem[..]), old(buf[..]))
      ensures rbuf[..rlen] == ReplyTo(old(mem[..]), old(buf[..]), old(rbuf[..]))
    {
      var addr, com, len := GetU32(buf[..], 4), buf[1], buf[3];
      ghost var stale, req := rbuf[..], buf[..];
      CopyHeader(buf);
      ghost var head := rbuf[..BCP];
      assert rbuf[BCP..] == stale[BCP..];
      if com == RBCP_CMD_RD {
        CopyOut(addr, len);
      }
      if com == RBCP_CMD_WR {
        CopyIn(buf, addr, len);
      }
      rlen := BCP + len;
      assert rbuf[..rlen] == rbuf[..BCP] + rbuf[BCP..rlen];
      assert head == [stale[0]] + req[1..BCP];
    }
  }

  /** The datagram the relay sends on for a hop request. */
  function RelayedRequest(buf: seq<Byte>, packet: seq<Byte>): seq<Byte>
    requires EBCP <= |packet| <= |buf| == 256 + EBCP
  {
    Shrunk(Delivered(buf, packet))[..|packet| - BCP]
  }

  /** The datagram the relay sends back for a reply. */
  function RelayedReply(rbuf: seq<Byte>, reply: seq<Byte>, ip: nat, port: nat): seq<Byte>
    requires BCP <= |reply| <= 256 + BCP && |rbuf| == 256 + EBCP
  {
    Expanded(Delivered(rbuf, reply), ip, port)[..|reply| + BCP]
  }

  /**
   What leaves the relay is the direct request: the same bytes, without the destination,
   whatever the buffer held before.
   */
  lemma RelayForwards(buf: seq<Byte>, command: Byte, id: Byte, length: Byte, addr: nat, ip: nat, port: nat,
                      payload: seq<Byte>)
    requires |buf| == 256 + EBCP && |payload| <= length
    ensures RelayedRequest(buf, EbcpHeader(command, id, length, addr, ip, port) + payload)
            == BcpHeader(RBCP_VER, command, id, length, addr) + payload
  {
    var head, packet := BcpHeader(RBCP_VER, command, id, length, addr), EbcpHeader(command, id, length, addr, ip, port);
    var s := Delivered(buf, packet + payload);
    assert s[3] == length;
    assert s[1..BCP] == packet[1..BCP] == head[1..];
    ShrunkPacket(s, head, payload);
  }

  lemma ShrunkPacket(s: seq<Byte>, head: seq<Byte>, payload: seq<Byte>)
    requires |s| >= EBCP && EBCP + s[3] <= |s| && |head| == BCP && |payload| <= s[3]
    requires head[0] == RBCP_VER && s[1..BCP] == head[1..] && s[EBCP..EBCP + |payload|] == payload
    ensures Shrunk(s)[..BCP + |payload|] == head + payload
  {
    assert s[EBCP..EBCP + s[3]][..|payload|] == payload;
    assert [RBCP_VER] + s[1..BCP] == head;
  }

  /** What comes back is the server's reply with type and destination put in. */
  lemma RelayReturns(rbuf: seq<Byte>, reply: seq<Byte>, ip: nat, port: nat)
    requires BCP <= |reply| == BCP + reply[3] && |rbuf| == 256 + EBCP
    ensures RelayedReply(rbuf, reply, ip, port)
            == [RBCP_TYPE_HOP] + reply[1..BCP] + U32(ip) + U32(port) + reply[BCP..]
  {
  }

  /** A register server somewhere on the network, and the buffer it receives into. */
  datatype Site = Site(server: RegisterServer, sbuf: array<Byte>)

  /** Who answers at which address and port. */
  type Network = map<(nat, nat), Site>

  ghost function Arrays(site: Site): set<object> {
    {site.server.mem, site.server.rbuf, site.sbuf}
  }

  /** What a packet to this address and port can change. */
  ghost function Reach(net: Network, at: (nat, nat)): set<object> {
    if at in net then Arrays(net[at]) else {}
  }

  predicate SiteOk(relay: Relay, site: Site) {
    site.server.mem !in {relay.buf, relay.rbuf} && site.server.rbuf !in {relay.buf, relay.rbuf}
    && site.sbuf !in {site.server.mem, site.server.rbuf, relay.buf, relay.rbuf} && site.sbuf.Length >= 256 + EBCP
  }

  /** Every server has its own memory and buffers, apart from the relay's. */
  ghost predicate NetOk(relay: Relay, net: Network) {
    relay.Valid()
    && (forall at :: at in net ==> net[at].server.Valid() && SiteOk(relay, net[at]))
    && forall a, b :: a in net && b in net && a != b ==> Arrays(net[a]) !! Arrays(net[b])
  }

  /** The packet arrives at the relay, which reads where it wants to go. */
  method Arrive(relay: Relay, packet: seq<Byte>) returns (ip: nat, port: nat)
    requires relay.Valid() && EBCP <= |packet| <= 256 + EBCP
    modifies relay.buf
    ensures relay.buf[..] == Delivered(old(relay.buf[..]), packet)
    ensures ip == GetU32(packet, 8) && port == GetU32(packet, 12)
  {
    Deposit(relay.buf, packet);
    ip, port := GetU32(relay.buf[..], 8), GetU32(relay.buf[..], 12);
  }

  /** The request half of relay(): the packet that has arrived is shrunk, and goes to the server. */
  method ForwardRequest(relay: Relay, sbuf: array<Byte>, ndata: nat)
    requires relay.Valid() && EBCP <= ndata <= 256 + EBCP && sbuf.Length >= ndata && sbuf != relay.buf
    modifies relay.buf, sbuf
    ensures sbuf[..] == old(Delivered(sbuf[..], Shrunk(relay.buf[..])[..ndata - BCP]))
  {
    var len, _, _ := relay.ShrinkRequest(ndata);
    Deposit(sbuf, relay.buf[..len]);
  }

  /** The reply half: the server's reply arrives, is expanded, and goes back. */
  method ReturnReply(relay: Relay, reply: seq<Byte>, ip: nat, port: nat) returns (answer: seq<Byte>)
    requires relay.Valid() && BCP <= |reply| <= 256 + BCP
    modifies relay.rbuf
    ensures answer == RelayedReply(old(relay.rbuf[..]), reply, ip, port)
  {
    Deposit(relay.rbuf, reply);
    var elen := relay.ExpandReply(|reply|, ip, port);
    answer := relay.rbuf[..elen];
  }

  /** Forwarding, serving and returning, once the site is known. */
  method Exchange(relay: Relay, site: Site, ndata: nat, ip: nat, port: nat) returns (answer: seq<Byte>)
    requires relay.Valid() && site.server.Valid() && SiteOk(relay, site) && EBCP <= ndata <= 256 + EBCP
    requires InRange(site.server.mem[..], Delivered(site.sbuf[..], Shrunk(relay.buf[..])[..ndata - BCP]))
    modifies relay.buf, relay.rbuf, Arrays(site)
    ensures var req := old(Delivered(site.sbuf[..], Shrunk(relay.buf[..])[..ndata - BCP]));
            site.server.mem[..] == MemAfter(old(site.server.mem[..]), req)
            && answer == old(RelayedReply(relay.rbuf[..],
                                          ReplyTo(site.server.mem[..], req, site.server.rbuf[..]), ip, port))
  {
    ForwardRequest(relay, site.sbuf, ndata);
    var rlen := site.server.Serve(site.sbuf);
    answer := ReturnReply(relay, site.server.rbuf[..rlen], ip, port);
  }

  /** The request as the server at this site receives it. */
  ghost function Received(relay: Relay, site: Site, packet: seq<Byte>): seq<Byte>
    requires relay.Valid() && SiteOk(relay, site) && EBCP <= |packet| <= 256 + EBCP
    reads relay.buf, site.sbuf
  {
    Delivered(site.sbuf[..], RelayedRequest(relay.buf[..], packet))
  }

  /** Where the relay opens its socket: the address named, and the port as htons leaves it. */
  function Destination(packet: seq<Byte>): (nat, nat)
    requires EBCP <= |packet|
  {
    (GetU32(packet, 8), GetU32(packet, 12) % 0x1_0000)
  }

  /** relay() for one hop request: the server that the packet names answers it, or nobody does. */
  method Hop(relay: Relay, net: Network, packet: seq<Byte>) returns (answer: Option<seq<Byte>>)
    requires NetOk(relay, net) && EBCP <= |packet| <= 256 + EBCP
    requires var at := Destination(packet);
             at in net ==> InRange(net[at].server.mem[..], Received(relay, net[at], packet))
    modifies relay.buf, relay.rbuf, Reach(net, Destination(packet))
    ensures var at := Destination(packet);
            if at !in net then answer == None
            else
              var site := net[at];
              site.server.mem[..] == MemAfter(old(site.server.mem[..]), old(Received(relay, site, packet)))
              && answer == Some(old(RelayedReply(relay.rbuf[..],
                                                 ReplyTo(site.server.mem[..], Received(relay, site, packet),
                                                         site.server.rbuf[..]),
                                                 GetU32(packet, 8), GetU32(packet, 12))))
  {
    var ip, port := Arrive(relay, packet);
    var at := (ip, port % 0x1_0000);
    if at !in net {
      return None;
    }
    var site := net[at];
    assert SiteOk(relay, site);
    var reply := Exchange(relay, site, |packet|, ip, port);
    answer := Some(reply);
  }

  /** recvfrom: the packet overwrites the front of the buffer. */
  method Deposit(buf: array<Byte>, packet: seq<Byte>)
    requires |packet| <= buf.Length
    modifies buf
    ensures buf[..] == Delivered(old(buf[..]), packet)
  {
    forall i | 0 <= i < |packet| {
      buf[i] := packet[i];
    }
  }
}
