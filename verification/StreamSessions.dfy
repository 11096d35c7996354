/**
 A whole session of get, read, ignore and getline calls on a TcpBuffer, and what its replies
 say of the stream: nothing is lost, repeated or reordered, however recv cuts the stream up.
 */
module StreamSessions {
  import opened Bytes
  import opened Numbers
  import opened TcpStream

  /** The reader's side of a connection: bytes to come, and the state the calls leave. */
  datatype Reader = Reader(rest: seq<Byte>, gcount: int, eof: bool, fail: bool)

  datatype Call = GetCall | ReadCall(len: int) | IgnoreCall(len: int) | LineCall(maxlen: int)

  /** What a caller gets: the bytes stored or returned, and gcount. */
  datatype Reply = Reply(data: seq<Byte>, gcount: int)

  /** A C string: the bytes before the first NUL. */
  function CText(s: seq<Byte>): (t: seq<Byte>)
    ensures t <= s
  {
    if s == [] || s[0] == 0 then [] else [s[0]] + CText(s[1..])
  }

  lemma {:induction false} CTextEnds(text: seq<Byte>, s: seq<Byte>)
    requires |text| < |s| && s[..|text|] == text && s[|text|] == 0
    ensures CText(s) == CText(text)
  {
    if text != [] && text[0] != 0 {
      assert s[0] == text[0];
      assert s[1..][..|text| - 1] == text[1..];
      CTextEnds(text[1..], s[1..]);
    }
  }

  lemma {:induction false} NoNulText(text: seq<Byte>)
    requires 0 !in text
    ensures CText(text) == text
  {
    if text != [] {
      assert text[0] in text;
      NoNulText(text[1..]);
    }
  }

  /** What the stream alone decides about one call: how far it moves, and the state bits. */
  function After(r: Reader, call: Call): Reader {
    match call
    case GetCall =>
      if r.rest == [] then Reader([], 0, true, r.fail) else Reader(r.rest[1..], 1, r.eof, r.fail)
    case ReadCall(len) =>
      var k := Gives(|r.rest|, len);
      Reader(r.rest[k..], k, r.eof || k < len, r.fail)
    case IgnoreCall(len) =>
      var k := Gives(|r.rest|, len);
      Reader(r.rest[k..], k, r.eof || k < len, r.fail)
    case LineCall(maxlen) =>
      if maxlen <= 1 then r.(gcount := 0, fail := true)
      else
        var line := LineOf(r.rest, maxlen - 1);
        Reader(r.rest[line.taken..], line.taken, r.eof || line.eof, r.fail || line.fail)
  }

  /** And the bytes the caller gets. */
  function Data(s: seq<Byte>, call: Call): seq<Byte> {
    match call
    case GetCall => s[..Min(|s|, 1)]
    case ReadCall(len) => s[..Gives(|s|, len)]
    case IgnoreCall(len) => []
    case LineCall(maxlen) => if maxlen <= 1 then [] else CText(LineOf(s, maxlen - 1).text)
  }

  function ReplyTo(r: Reader, call: Call): Reply {
    Reply(Data(r.rest, call), After(r, call).gcount)
  }

  function Final(r: Reader, calls: seq<Call>): Reader
    decreases |calls|
  {
    if calls == [] then r else Final(After(r, calls[0]), calls[1..])
  }

  function Replies(r: Reader, calls: seq<Call>): (replies: seq<Reply>)
    ensures |replies| == |calls|
    decreases |calls|
  {
    if calls == [] then [] else [ReplyTo(r, calls[0])] + Replies(After(r, calls[0]), calls[1..])
  }

  ghost function View(b: TcpBuffer): Reader
    requires b.Valid()
    reads b, b.rbuf, b.socket
  {
    Reader(b.Unread(), b.gcount, b.eof, b.fail)
  }

  method ReadInto(b: TcpBuffer, len: int) returns (data: seq<Byte>)
    requires b.Valid()
    modifies b`rbuflen, b`rbufnxt, b`gcount, b`eof, b.rbuf, b.socket`incoming
    ensures b.Valid() && View(b) == After(old(View(b)), ReadCall(len))
    ensures data == Data(old(b.Unread()), ReadCall(len))
  {
    var buf := new Byte[if len < 0 then 0 else len];
    b.Read(buf, len);
    data := buf[..b.gcount];
  }

  method LineInto(b: TcpBuffer, maxlen: int) returns (data: seq<Byte>)
    requires b.Valid()
    modifies b`rbuflen, b`rbufnxt, b`gcount, b`eof, b`fail, b.rbuf, b.socket`incoming
    ensures b.Valid() && View(b) == After(old(View(b)), LineCall(maxlen))
    ensures data == Data(old(b.Unread()), LineCall(maxlen))
  {
    var buf := new Byte[if maxlen < 1 then 1 else maxlen];
    b.GetLine(buf, maxlen);
    if maxlen <= 1 {
      return [];
    }
    data := CText(buf[..]);
    ghost var text := LineOf(old(b.Unread()), maxlen - 1).text;
    assert buf[..][..|text|] == text && buf[..][|text|] == 0;
    CTextEnds(text, buf[..]);
  }

  /** One call, into a buffer of the caller's own. */
  method Perform(b: TcpBuffer, call: Call) returns (reply: Reply)
    requires b.Valid()
    modifies b`rbuflen, b`rbufnxt, b`gcount, b`eof, b`fail, b.rbuf, b.socket`incoming
    ensures b.Valid() && View(b) == After(old(View(b)), call)
    ensures reply == ReplyTo(old(View(b)), call)
  {
    var data: seq<Byte> := [];
    match call {
      case GetCall =>
        var c := b.Get();
        if c != EOF {
          data := [c];
        }
      case ReadCall(len) =>
        data := ReadInto(b, len);
      case IgnoreCall(len) =>
        b.Ignore(len);
      case LineCall(maxlen) =>
        data := LineInto(b, maxlen);
    }
    reply := Reply(data, b.gcount);
  }

  lemma NextReply(r: Reader, calls: seq<Call>, i: nat, done: seq<Reply>, reply: Reply)
    requires i < |calls| && reply == ReplyTo(r, calls[i])
    ensures done + Replies(r, calls[i..]) == done + [reply] + Replies(After(r, calls[i]), calls[i + 1..])
    ensures Final(r, calls[i..]) == Final(After(r, calls[i]), calls[i + 1..])
  {
  }

  /** A session's replies and final state are functions of the stream, not of its portions. */
  method Serve(b: TcpBuffer, calls: seq<Call>) returns (replies: seq<Reply>)
    requires b.Valid()
    modifies b`rbuflen, b`rbufnxt, b`gcount, b`eof, b`fail, b.rbuf, b.socket`incoming
    ensures b.Valid() && View(b) == Final(old(View(b)), calls)
    ensures replies == Replies(old(View(b)), calls)
  {
    replies := [];
    assert calls[0..] == calls;
    var i := 0;
    while i < |calls|
      invariant i <= |calls| && b.Valid()
      invariant replies + Replies(View(b), calls[i..]) == Replies(old(View(b)), calls)
      invariant Final(View(b), calls[i..]) == Final(old(View(b)), calls)
    {
      ghost var before := View(b);
      var reply := Perform(b, calls[i]);
      NextReply(before, calls, i, replies, reply);
      replies := replies + [reply];
      i := i + 1;
    }
  }

  /** The bytes a session took, by its own account. */
  function Total(replies: seq<Reply>): int {
    if replies == [] then 0 else replies[0].gcount + Total(replies[1..])
  }

  function Delivered(replies: seq<Reply>): seq<Byte> {
    if replies == [] then [] else replies[0].data + Delivered(replies[1..])
  }

  /** The bytes one call takes off the stream are as many as gcount says. */
  lemma CallConsumes(r: Reader, call: Call)
    ensures var n := After(r, call).gcount; 0 <= n <= |r.rest| && After(r, call).rest == r.rest[n..]
  {
  }

  /** gcount tells exactly how far the stream has moved, over any session. */
  lemma {:induction false} SessionConsumes(r: Reader, calls: seq<Call>)
    ensures var n := Total(Replies(r, calls)); 0 <= n <= |r.rest| && Final(r, calls).rest == r.rest[n..]
    decreases |calls|
  {
    if calls == [] {
      assert r.rest[0..] == r.rest;
    } else {
      var next := After(r, calls[0]);
      CallConsumes(r, calls[0]);
      SessionConsumes(next, calls[1..]);
      assert Replies(r, calls)[1..] == Replies(next, calls[1..]);
    }
  }

  /** Nothing but get and read. */
  predicate OnlyReads(calls: seq<Call>) {
    calls == [] || ((calls[0].GetCall? || calls[0].ReadCall?) && OnlyReads(calls[1..]))
  }

  lemma ReadTakes(r: Reader, call: Call)
    requires call.GetCall? || call.ReadCall?
    ensures Data(r.rest, call) + After(r, call).rest == r.rest
  {
  }

  /** get and read hand the stream over in order: what they delivered, then what is left. */
  lemma {:induction false} ReadsAreFifo(r: Reader, calls: seq<Call>)
    requires OnlyReads(calls)
    ensures Delivered(Replies(r, calls)) + Final(r, calls).rest == r.rest
    decreases |calls|
  {
    if calls != [] {
      var next, data := After(r, calls[0]), Data(r.rest, calls[0]);
      ReadTakes(r, calls[0]);
      ReadsAreFifo(next, calls[1..]);
      assert Replies(r, calls)[1..] == Replies(next, calls[1..]);
      var more := Delivered(Replies(next, calls[1..]));
      assert data + more + Final(next, calls[1..]).rest == data + (more + Final(next, calls[1..]).rest);
    }
  }

  /** Lines as they are written: each followed by a line feed. */
  function Joined(lines: seq<seq<Byte>>): seq<Byte> {
    if lines == [] then [] else lines[0] + [0x0a] + Joined(lines[1..])
  }

  ghost predicate IsLine(line: seq<Byte>) {
    0x0a !in line && 0 !in line
  }

  lemma FirstLine(line: seq<Byte>, more: seq<Byte>, nmax: nat)
    requires DELIM !in line
    ensures LineOf(line + [DELIM] + more, nmax) ==
              if |line| < nmax then Line(line, |line| + 1, false, false)
              else Line(line[..nmax], nmax, true, false)
  {
    var s := line + [DELIM] + more;
    assert s[|line|] == DELIM;
    assert forall k :: 0 <= k < |line| ==> s[k] == line[k] && line[k] in line;
    assert LineEnd(s) == |line|;
    assert s[..|line|] == line;
    if |line| >= nmax {
      assert s[..nmax] == line[..nmax];
    }
  }

  /** failbit, once raised, stays. */
  lemma {:induction false} FailStays(r: Reader, calls: seq<Call>)
    requires r.fail
    ensures Final(r, calls).fail
    decreases |calls|
  {
    if calls != [] {
      FailStays(After(r, calls[0]), calls[1..]);
    }
  }

  function LineCalls(n: nat, maxlen: int): (calls: seq<Call>)
    ensures |calls| == n
  {
    if n == 0 then [] else [LineCall(maxlen)] + LineCalls(n - 1, maxlen)
  }

  function DataOf(replies: seq<Reply>): seq<seq<Byte>> {
    if replies == [] then [] else [replies[0].data] + DataOf(replies[1..])
  }

  /** Texts without delimiter or NUL. */
  ghost predicate AllLines(lines: seq<seq<Byte>>) {
    lines == [] || (IsLine(lines[0]) && AllLines(lines[1..]))
  }

  /** Each leaves room for the terminating NUL and is ended by its delimiter in time. */
  ghost predicate AllFit(lines: seq<seq<Byte>>, maxlen: int) {
    lines == [] || (|lines[0]| < maxlen - 1 && AllFit(lines[1..], maxlen))
  }

  lemma LineTaken(line: seq<Byte>, more: seq<Byte>, maxlen: int, r: Reader, next: Reader)
    requires maxlen > 1 && IsLine(line) && r.rest == line + [DELIM] + more
    requires next == After(r, LineCall(maxlen))
    ensures |line| < maxlen - 1 ==>
              next.rest == more && next.fail == r.fail && Data(r.rest, LineCall(maxlen)) == line
    ensures |line| >= maxlen - 1 ==> next.fail
  {
    FirstLine(line, more, maxlen - 1);
    NoNulText(line);
  }

  /** n getline calls give these lines, no failbit, and leave the tail. */
  ghost predicate GivesLines(r: Reader, n: nat, maxlen: int, lines: seq<seq<Byte>>, tail: seq<Byte>) {
    var last := Final(r, LineCalls(n, maxlen));
    !last.fail && last.rest == tail && DataOf(Replies(r, LineCalls(n, maxlen))) == lines
  }

  lemma OneMoreLine(r: Reader, n: nat, maxlen: int, lines: seq<seq<Byte>>, tail: seq<Byte>)
    requires lines != []
    ensures var next := After(r, LineCall(maxlen));
            GivesLines(r, n + 1, maxlen, lines, tail)
            <==> Data(r.rest, LineCall(maxlen)) == lines[0] && GivesLines(next, n, maxlen, lines[1..], tail)
  {
  }

  /** getline returns a file's lines, and raises no failbit, exactly when every line fits. */
  lemma {:induction false} LinesRoundTrip(lines: seq<seq<Byte>>, tail: seq<Byte>, maxlen: int, r: Reader)
    requires maxlen > 1 && AllLines(lines)
    requires r.rest == Joined(lines) + tail && !r.fail
    ensures GivesLines(r, |lines|, maxlen, lines, tail) <==> AllFit(lines, maxlen)
    decreases |lines|
  {
    if lines != [] {
      var more, next := Joined(lines[1..]) + tail, After(r, LineCall(maxlen));
      assert r.rest == lines[0] + [DELIM] + more;
      LineTaken(lines[0], more, maxlen, r, next);
      OneMoreLine(r, |lines| - 1, maxlen, lines, tail);
      if |lines[0]| >= maxlen - 1 {
        FailStays(next, LineCalls(|lines| - 1, maxlen));
      } else {
        LinesRoundTrip(lines[1..], tail, maxlen, next);
      }
    }
  }

  /** The last line of a stream that does not end in a line feed: all of it, eofbit, and no failbit. */
  lemma LastLine(line: seq<Byte>, maxlen: int, r: Reader)
    requires maxlen > 1 && IsLine(line) && |line| < maxlen - 1 && r.rest == line
    ensures var next := After(r, LineCall(maxlen));
            Data(r.rest, LineCall(maxlen)) == line && next.rest == [] && next.gcount == |line|
            && next.eof && next.fail == (r.fail || line == [])
  {
    assert forall k :: 0 <= k < |line| ==> line[k] in line;
    assert LineEnd(line) == |line|;
    AtEnd(line, maxlen - 1);
    NoNulText(line);
  }

  /** read takes what it is asked for, or all there is and raises eofbit; ignore moves as far. */
  lemma ReadsEnough(r: Reader, len: int)
    ensures var next := After(r, ReadCall(len));
            |Data(r.rest, ReadCall(len))| == next.gcount && next == After(r, IgnoreCall(len)) && next.fail == r.fail
            && (if len <= 0 then next == r.(gcount := 0)
                else if len <= |r.rest| then next.gcount == len && next.eof == r.eof
                else next.gcount == |r.rest| && next.rest == [] && next.eof)
  {
    assert r.rest[0..] == r.rest;
  }

  datatype OutCall = PutCall(c: int) | WriteCall(bytes: seq<Byte>) | FlushCall

  /** The bytes one output call hands over. */
  function Sent(call: OutCall): seq<Byte> {
    match call
    case PutCall(c) => [c % 256]
    case WriteCall(bytes) => bytes
    case FlushCall => []
  }

  function Handed(calls: seq<OutCall>): seq<Byte> {
    if calls == [] then [] else Sent(calls[0]) + Handed(calls[1..])
  }

  method Hand(b: TcpBuffer, call: OutCall)
    requires b.Valid()
    modifies b`bad, b`sbufnxt, b.sbuf, b.socket`outgoing, b.socket`refusals
    ensures b.Valid() && b.socket.refusals >= old(b.socket.refusals)
    ensures b.bad == (old(b.bad) || b.socket.refusals > old(b.socket.refusals))
    ensures !b.bad ==> b.Written() == old(b.Written()) + Sent(call)
  {
    match call {
      case PutCall(c) => b.Put(c);
      case WriteCall(bytes) => b.Write(bytes);
      case FlushCall =>
        b.Flush();
        assert old(b.Written()) + [] == old(b.Written());
    }
  }

  lemma NextHanded(calls: seq<OutCall>, i: nat, done: seq<Byte>)
    requires i < |calls|
    ensures done + Handed(calls[i..]) == done + Sent(calls[i]) + Handed(calls[i + 1..])
  {
    assert calls[i..][1..] == calls[i + 1..];
  }

  /**
   Any session of put, write and flush, then a flush: badbit goes up exactly if the socket refuses
   a block. If it never does, and was not up before, the wire carries all that was handed over, in
   order, however send cuts it up.
   */
  method Send(b: TcpBuffer, calls: seq<OutCall>)
    requires b.Valid()
    modifies b`bad, b`sbufnxt, b.sbuf, b.socket`outgoing, b.socket`refusals
    ensures b.Valid() && b.socket.refusals >= old(b.socket.refusals)
    ensures b.bad == (old(b.bad) || b.socket.refusals > old(b.socket.refusals))
    ensures !old(b.bad) && b.socket.refusals == old(b.socket.refusals) ==>
              b.sbufnxt == 0 && b.socket.outgoing == old(b.Written()) + Handed(calls)
  {
    var i := 0;
    ghost var before := b.Written();
    assert calls[0..] == calls;
    while i < |calls|
      invariant i <= |calls| && b.Valid() && b.socket.refusals >= old(b.socket.refusals)
      invariant b.bad == (old(b.bad) || b.socket.refusals > old(b.socket.refusals))
      invariant !b.bad ==> b.Written() + Handed(calls[i..]) == before + Handed(calls)
    {
      NextHanded(calls, i, b.Written());
      Hand(b, calls[i]);
      i := i + 1;
    }
    assert b.Written() + [] == b.Written();
    b.Flush();
    assert !b.bad ==> b.Written() == b.socket.outgoing;
  }

  /** Lines as a program sends them: the text, then the delimiter. */
  function LineWrites(lines: seq<seq<Byte>>): seq<OutCall> {
    if lines == [] then [] else [WriteCall(lines[0]), PutCall(DELIM)] + LineWrites(lines[1..])
  }

  lemma {:induction false} LinesHanded(lines: seq<seq<Byte>>)
    ensures Handed(LineWrites(lines)) == Joined(lines)
  {
    if lines != [] {
      LinesHanded(lines[1..]);
      var calls, rest := LineWrites(lines), LineWrites(lines[1..]);
      assert calls[1..] == [PutCall(DELIM)] + rest && calls[1..][1..] == rest;
    }
  }

  /** From writer to reader: lines sent that way come back as lines exactly when all of them fit. */
  lemma LinesCross(lines: seq<seq<Byte>>, maxlen: int)
    requires maxlen > 1 && AllLines(lines)
    ensures GivesLines(Reader(Handed(LineWrites(lines)), 0, false, false), |lines|, maxlen, lines, [])
            <==> AllFit(lines, maxlen)
  {
    LinesHanded(lines);
    assert Joined(lines) + [] == Joined(lines);
    LinesRoundTrip(lines, [], maxlen, Reader(Handed(LineWrites(lines)), 0, false, false));
  }
}
