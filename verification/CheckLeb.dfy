/**
 checkleb: the reader of a stream of packed events. It inverts pack_data, and at the end
 of the stream it reports the last event a second time.
 */
module CheckLeb {
  import opened Bytes
  import opened Options
  import opened Events
  import opened GapFreeRuns
  import opened PackedEvents

  const RECORD_HEADER := 12

  /** A recbe_header in host order, and where in the event body it was found. */
  datatype Record = Record(at: nat, kind: Byte, id: Byte, sent: nat, time: nat, len: nat, trig: nat)

  /** What is printed for one event; None stands for headers read beyond the known bytes. */
  datatype Report = Report(magic: seq<Byte>, length: int, id: nat, nodes: nat, flag: nat,
                           records: Option<seq<Record>>)

  function NtohHeader(s: seq<Byte>, p: nat): Record
    requires p + RECORD_HEADER <= |s|
  {
    Record(p, s[p], s[p + 1], GetU16(s, p + 2), GetU16(s, p + 4), GetU16(s, p + 6), GetU32(s, p + 8))
  }

  /** A record put together from known fields reads back as those, wherever it lies. */
  lemma FieldsReadBack(front: seq<Byte>, kind: Byte, id: Byte, sent: nat, time: nat, len: nat, trig: nat,
                       rest: seq<Byte>)
    ensures var s := front + [kind, id] + U16(sent) + U16(time) + U16(len) + U32(trig) + rest;
            NtohHeader(s, |front|)
            == Record(|front|, kind, id, sent % 0x1_0000, time % 0x1_0000, len % 0x1_0000, trig % 0x1_0000_0000)
  {
    var p := |front|;
    var s := front + [kind, id] + U16(sent) + U16(time) + U16(len) + U32(trig) + rest;
    assert s[p + 2..p + 4] == U16(sent) && s[p + 4..p + 6] == U16(time);
    assert s[p + 6..p + 8] == U16(len) && s[p + 8..p + 12] == U32(trig);
    U16RoundTrip(sent, s, p + 2);
    U16RoundTrip(time, s, p + 4);
    U16RoundTrip(len, s, p + 6);
    U32RoundTrip(trig, s, p + 8);
  }

  /** The header loop: each record's own length leads to the next one. */
  function Records(body: seq<Byte>, at: nat, n: nat): Option<seq<Record>>
    decreases n
  {
    if n == 0 then Some([])
    else if at + RECORD_HEADER > |body| then None
    else
      var r := NtohHeader(body, at);
      match Records(body, at + r.len + RECORD_HEADER, n - 1)
      case None => None
      case Some(rest) => Some([r] + rest)
  }

  /** std::cin: the bytes not read yet, and the end-of-file state. */
  datatype Input = Input(rest: seq<Byte>, eof: bool)

  /** read(p, n): n bytes, or what is left and the stream is at its end for good. */
  function Taken(input: Input, n: nat): seq<Byte> {
    if input.eof then [] else if n <= |input.rest| then input.rest[..n] else input.rest
  }

  function After(input: Input, n: nat): Input {
    if input.eof then input
    else if n <= |input.rest| then Input(input.rest[n..], false)
    else Input([], true)
  }

  /** A buffer whose first bytes are overwritten. */
  function Overlay(got: seq<Byte>, stale: seq<Byte>): seq<Byte> {
    got + if |got| <= |stale| then stale[|got|..] else []
  }

  /** ntohl(event.length) kept in an int. */
  function IntLength(header: seq<Byte>): (n: int)
    requires |header| == HEADER_SIZE
    ensures -0x8000_0000 <= n < 0x8000_0000 && n % 0x1_0000_0000 == GetU32(header, 4)
  {
    var u := GetU32(header, 4);
    if u < 0x8000_0000 then u else u - 0x1_0000_0000
  }

  function ReportOf(header: seq<Byte>, body: seq<Byte>): Report
    requires |header| == HEADER_SIZE
  {
    Report(header[..4], IntLength(header), GetU16(header, 8), GetU16(header, 10),
           GetU32(header, 12), Records(body, 0, GetU16(header, 10)))
  }

  /** The variables of the reading loop: input, event header, body buffer and its size. */
  datatype Reader = Reader(input: Input, header: seq<Byte>, body: seq<Byte>, bufsize: int)

  /** The header is read, and the body buffer replaced if the length exceeds it. */
  function WithHeader(r: Reader): (h: Reader)
    requires |r.header| == HEADER_SIZE
    ensures |h.header| == HEADER_SIZE
    ensures !r.input.eof && !h.input.eof ==> |h.input.rest| < |r.input.rest|
  {
    var h := r.(input := After(r.input, HEADER_SIZE),
                header := Overlay(Taken(r.input, HEADER_SIZE), r.header));
    var len := IntLength(h.header);
    if h.bufsize < len then h.(body := [], bufsize := len * 2) else h
  }

  function WithBody(r: Reader): (t: Reader)
    requires |r.header| == HEADER_SIZE
    ensures t.header == r.header && t.bufsize == r.bufsize
    ensures !t.input.eof ==> !r.input.eof && |t.input.rest| <= |r.input.rest|
  {
    var len := IntLength(r.header);
    if len <= 0 then r
    else r.(input := After(r.input, len), body := Overlay(Taken(r.input, len), r.body))
  }

  /** One turn of the loop up to the report. */
  function Turn(r: Reader): (t: Reader)
    requires |r.header| == HEADER_SIZE
    ensures |t.header| == HEADER_SIZE
    ensures !r.input.eof && !t.input.eof ==> |t.input.rest| < |r.input.rest|
  {
    WithBody(WithHeader(r))
  }

  /** All reports of the loop. */
  function Reports(r: Reader): seq<Report>
    requires |r.header| == HEADER_SIZE
    decreases if r.input.eof then 0 else |r.input.rest| + 1
  {
    if r.input.eof then []
    else [ReportOf(Turn(r).header, Turn(r).body)] + Reports(Turn(r))
  }

  /** The body loop reads until len bytes have come; one read gives them, or the end. */
  method ReadBody(r: Reader) returns (t: Reader)
    requires |r.header| == HEADER_SIZE
    ensures t == WithBody(r)
  {
    t := r;
    var len, lnread := IntLength(r.header), 0;
    while lnread < len
      invariant (lnread == 0 && t == r) || lnread >= len
      invariant lnread >= len ==> t == WithBody(r)
      decreases len - lnread
    {
      var got := Taken(t.input, len);
      t := t.(input := After(t.input, len), body := Overlay(got, t.body));
      lnread := lnread + |got|;
      if t.input.eof {
        break;
      }
    }
  }

  method TakeTurn(r: Reader) returns (t: Reader)
    requires |r.header| == HEADER_SIZE
    ensures t == Turn(r)
  {
    t := r.(header := Overlay(Taken(r.input, HEADER_SIZE), r.header),
            input := After(r.input, HEADER_SIZE));
    if t.bufsize < IntLength(t.header) {
      t := t.(body := [], bufsize := IntLength(t.header) * 2);
    }
    t := ReadBody(t);
  }

  lemma ReadOne(r: Reader, t: Reader, out: seq<Report>, all: seq<Report>)
    requires |r.header| == HEADER_SIZE && !r.input.eof && t == Turn(r) && out + Reports(r) == all
    ensures out + [ReportOf(t.header, t.body)] + Reports(t) == all
  {
    NextReport(r);
  }

  /** reading(): header stands for the memory the struct starts with. */
  method Reading(stream: seq<Byte>, header: seq<Byte>) returns (out: seq<Report>)
    requires |header| == HEADER_SIZE
    ensures out == Reports(Reader(Input(stream, false), header, [], 100000))
  {
    var r := Reader(Input(stream, false), header, [], 100000);
    ghost var all := Reports(r);
    out := [];
    while !r.input.eof
      invariant |r.header| == HEADER_SIZE && out + Reports(r) == all
      decreases if r.input.eof then 0 else |r.input.rest| + 1
    {
      ghost var before := r;
      r := TakeTurn(r);
      ReadOne(before, r, out, all);
      out := out + [ReportOf(r.header, r.body)];
    }
  }

  lemma NextReport(r: Reader)
    requires |r.header| == HEADER_SIZE && !r.input.eof
    ensures Reports(r) == [ReportOf(Turn(r).header, Turn(r).body)] + Reports(Turn(r))
  {
  }

  /**
   A stream that ends inside an event is reported once, with its header and what there is of its
   body in front of what the buffer held; a longer length than the buffer's gets a new buffer.
   */
  lemma CutInBody(r: Reader, header: seq<Byte>, part: seq<Byte>)
    requires |r.header| == |header| == HEADER_SIZE && |part| < IntLength(header)
    requires r.input == Input(header + part, false)
    ensures var t := Turn(r);
            t.header == header && t.input == Input([], true)
            && t.body == Overlay(part, if r.bufsize < IntLength(header) then [] else r.body)
            && Reports(r) == [ReportOf(header, t.body)]
  {
    assert (header + part)[..HEADER_SIZE] == header && (header + part)[HEADER_SIZE..] == part;
    assert Overlay(header, r.header) == header;
    assert Reports(Turn(r)) == [];
  }

  /** A stream that ends inside a header: the fields not read, and the body, are those of before. */
  lemma CutInHeader(r: Reader, part: seq<Byte>)
    requires |r.header| == HEADER_SIZE && |part| < HEADER_SIZE && r.input == Input(part, false)
    requires r.bufsize >= IntLength(part + r.header[|part|..])
    ensures Reports(r) == [ReportOf(part + r.header[|part|..], r.body)]
  {
    var h := WithHeader(r);
    assert h == r.(input := Input([], true), header := part + r.header[|part|..]);
    assert Overlay([], r.body) == r.body;
    assert Turn(r) == h;
    assert Reports(h) == [];
  }

  /** A length with the top bit set is negative as an int: no body is read. */
  lemma HugeLength(r: Reader)
    requires |r.header| == HEADER_SIZE && GetU32(r.header, 4) >= 0x8000_0000
    ensures WithBody(r) == r
  {
    assert IntLength(r.header) < 0;
  }

  /** A data block as the front-end boards send it: the header's length covers the rest. */
  predicate IsRecord(b: seq<Byte>, id: nat) {
    |b| >= RECORD_HEADER && b[1] == id && GetU16(b, 6) == |b| - RECORD_HEADER
  }

  /** An event of configured nodes whose blocks are their records; twice its size fits an int. */
  predicate Readable(nodes: seq<nat>, e: Event) {
    |e.data| == |e.node| < 0x1_0000 && NoRepeat(nodes)
    && (forall j :: 0 <= j < |e.node| ==> e.node[j] in nodes && IsRecord(e.data[j], e.node[j]))
    && |Flatten(e.data)| < 0x4000_0000
  }

  predicate AllRecords(blocks: seq<seq<Byte>>) {
    forall k :: 0 <= k < |blocks| ==>
      |blocks[k]| >= RECORD_HEADER && GetU16(blocks[k], 6) == |blocks[k]| - RECORD_HEADER
  }

  /** The headers of the blocks from the k-th on, each at the offset where it was packed. */
  function Headers(blocks: seq<seq<Byte>>, k: nat): (headers: seq<Record>)
    requires k <= |blocks| && AllRecords(blocks)
    ensures |headers| == |blocks| - k
    decreases |blocks| - k
  {
    if k == |blocks| then []
    else [NtohHeader(blocks[k], 0).(at := |Flatten(blocks[..k])|)] + Headers(blocks, k + 1)
  }

  lemma FlattenNext(blocks: seq<seq<Byte>>, k: nat)
    requires k < |blocks|
    ensures Flatten(blocks[..k + 1]) == Flatten(blocks[..k]) + blocks[k]
  {
    assert blocks[..k + 1] == blocks[..k] + [blocks[k]];
    FlattenLast(blocks[..k], blocks[k]);
  }

  /** Block k lies in the concatenation at the end of the blocks before it. */
  lemma BlockAt(body: seq<Byte>, blocks: seq<seq<Byte>>, k: nat)
    requires k < |blocks| && Flatten(blocks) <= body
    ensures var at := |Flatten(blocks[..k])|;
            at + |blocks[k]| <= |body| && body[at..at + |blocks[k]|] == blocks[k]
  {
    FlattenNext(blocks, k);
    assert blocks == blocks[..k + 1] + blocks[k + 1..];
    FlattenAppend(blocks[..k + 1], blocks[k + 1..]);
    Within(Flatten(blocks[..k]), blocks[k], Flatten(blocks[k + 1..]), body);
  }

  lemma Within(a: seq<Byte>, b: seq<Byte>, c: seq<Byte>, s: seq<Byte>)
    requires a + b + c <= s
    ensures |a| + |b| <= |s| && s[|a|..|a| + |b|] == b
  {
  }

  lemma SameHeader(s: seq<Byte>, at: nat, b: seq<Byte>)
    requires at + |b| <= |s| && s[at..at + |b|] == b && |b| >= RECORD_HEADER
    ensures NtohHeader(s, at) == NtohHeader(b, 0).(at := at)
  {
    forall i | 0 <= i < RECORD_HEADER ensures s[at + i] == b[i] {
      assert s[at..at + |b|][i] == b[i];
    }
  }

  /** Following the lengths through the packed blocks finds every block's header. */
  lemma {:induction false} ParseFrom(body: seq<Byte>, blocks: seq<seq<Byte>>, k: nat)
    requires k <= |blocks| && AllRecords(blocks) && Flatten(blocks) <= body
    ensures Records(body, |Flatten(blocks[..k])|, |blocks| - k) == Some(Headers(blocks, k))
    decreases |blocks| - k
  {
    if k < |blocks| {
      BlockAt(body, blocks, k);
      SameHeader(body, |Flatten(blocks[..k])|, blocks[k]);
      FlattenNext(blocks, k);
      ParseFrom(body, blocks, k + 1);
    }
  }

  lemma {:induction false} BlocksAreRecords(e: Event, n: nat, k: nat)
    requires k <= |e.data| <= |e.node|
    requires forall j :: 0 <= j < |e.data| ==> IsRecord(e.data[j], e.node[j])
    ensures AllRecords(BlocksOf(e, n, k))
    ensures forall b :: b in BlocksOf(e, n, k) ==> IsRecord(b, n)
  {
    if k > 0 {
      BlocksAreRecords(e, n, k - 1);
    }
  }

  lemma {:induction false} SelectedAreRecords(nodes: seq<nat>, e: Event)
    requires |e.data| <= |e.node|
    requires forall j :: 0 <= j < |e.data| ==> IsRecord(e.data[j], e.node[j])
    ensures AllRecords(Selected(nodes, e))
  {
    if nodes != [] {
      SelectedAreRecords(nodes[..|nodes| - 1], e);
      BlocksAreRecords(e, nodes[|nodes| - 1], |e.data|);
    }
  }

  /** What the reader should say about a packed event. */
  function Expected(nodes: seq<nat>, id: nat, e: Event): Report
    requires Readable(nodes, e)
  {
    SelectedAreRecords(nodes, e);
    Report(U32(LEB_MAGIC), |Flatten(e.data)|, id % 0x1_0000, |e.data|,
           FlagOf(LastNodePresent(nodes, e, false)), Some(Headers(Selected(nodes, e), 0)))
  }

  /** The packed header reads back as the numbers that went in. */
  lemma HeaderReadsBack(length: nat, id: nat, nodes: nat, flag: nat)
    requires length < 0x8000_0000 && nodes < 0x1_0000 && flag < 0x1_0000
    ensures var h := Header(length, id, nodes, flag);
            h[..4] == U32(LEB_MAGIC) && IntLength(h) == length && GetU16(h, 8) == id % 0x1_0000
            && GetU16(h, 10) == nodes && GetU32(h, 12) == flag
  {
    HeaderLongs(length, id, nodes, flag);
    HeaderShorts(length, id, nodes, flag);
  }

  /** The reader has just taken in event e. */
  ghost predicate Holds(r: Reader, nodes: seq<nat>, id: nat, e: Event)
    requires |e.data| <= |e.node|
  {
    r.header == Packed(nodes, id, e, false)[..HEADER_SIZE]
    && Flatten(Selected(nodes, e)) <= r.body && |Flatten(Selected(nodes, e))| <= r.bufsize
  }

  lemma HeldReport(r: Reader, nodes: seq<nat>, id: nat, e: Event)
    requires Readable(nodes, e) && Holds(r, nodes, id, e)
    ensures ReportOf(r.header, r.body) == Expected(nodes, id, e)
    ensures IntLength(r.header) == |Flatten(Selected(nodes, e))|
  {
    var blocks, flag := Selected(nodes, e), FlagOf(LastNodePresent(nodes, e, false));
    SelectedAreRecords(nodes, e);
    PacksEverything(nodes, e);
    HeaderReadsBack(|Flatten(blocks)|, id, |e.data|, flag);
    assert r.header == Header(|Flatten(blocks)|, id, |e.data|, flag);
    ParseFrom(r.body, blocks, 0);
    assert Flatten(blocks[..0]) == [];
  }

  lemma HeaderOf(nodes: seq<nat>, id: nat, e: Event, more: seq<Byte>)
    requires Readable(nodes, e)
    ensures var p, body := Packed(nodes, id, e, false), Flatten(Selected(nodes, e));
            (p + more)[..HEADER_SIZE] == p[..HEADER_SIZE] && (p + more)[HEADER_SIZE..] == body + more
            && IntLength(p[..HEADER_SIZE]) == |body|
  {
    var body, flag := Flatten(Selected(nodes, e)), FlagOf(LastNodePresent(nodes, e, false));
    var h := Header(|body|, id, |e.data|, flag);
    PacksEverything(nodes, e);
    HeaderReadsBack(|body|, id, |e.data|, flag);
    Behind(h, body, more);
    assert Packed(nodes, id, e, false) == h + body;
  }

  lemma Behind(h: seq<Byte>, body: seq<Byte>, more: seq<Byte>)
    ensures (h + body + more)[..|h|] == (h + body)[..|h|] == h && (h + body + more)[|h|..] == body + more
  {
  }

  /** A turn on a stream that starts with a packed event takes in exactly that event. */
  lemma TurnTakes(r: Reader, nodes: seq<nat>, id: nat, e: Event, more: seq<Byte>)
    requires Readable(nodes, e) && |r.header| == HEADER_SIZE && r.bufsize >= 0
    requires r.input == Input(Packed(nodes, id, e, false) + more, false)
    ensures Holds(Turn(r), nodes, id, e) && Turn(r).input == Input(more, false)
  {
    var body := Flatten(Selected(nodes, e));
    HeaderOf(nodes, id, e, more);
    var h := WithHeader(r);
    assert h.input == Input(body + more, false) && |body| <= h.bufsize;
    assert (body + more)[..|body|] == body && (body + more)[|body|..] == more;
  }

  /** At the end of the stream the variables keep their values: the same report again. */
  lemma TurnAtEnd(r: Reader, nodes: seq<nat>, id: nat, e: Event)
    requires Readable(nodes, e) && Holds(r, nodes, id, e) && |r.header| == HEADER_SIZE
    requires r.input == Input([], false)
    ensures Holds(Turn(r), nodes, id, e) && Turn(r).input == Input([], true)
  {
    HeaderOf(nodes, id, e, []);
    assert Overlay([], r.header) == r.header && Overlay([], r.body) == r.body;
    assert WithHeader(r) == r.(input := Input([], true));
  }

  predicate AllReadable(nodes: seq<nat>, evs: seq<Event>) {
    evs == [] || (Readable(nodes, evs[0]) && AllReadable(nodes, evs[1..]))
  }

  function PackedStream(nodes: seq<nat>, id: nat, evs: seq<Event>): seq<Byte>
    requires AllReadable(nodes, evs)
  {
    if evs == [] then [] else Packed(nodes, id, evs[0], false) + PackedStream(nodes, id, evs[1..])
  }

  /** One report for each event, in order, and one more for the last. */
  function ExpectedAll(nodes: seq<nat>, id: nat, last: Event, evs: seq<Event>): (all: seq<Report>)
    requires Readable(nodes, last) && AllReadable(nodes, evs)
    ensures |all| == |evs| + 1
    decreases |evs|
  {
    if evs == [] then [Expected(nodes, id, last)]
    else [Expected(nodes, id, evs[0])] + ExpectedAll(nodes, id, evs[0], evs[1..])
  }

  /** Report k is about event k, and the extra one about the last. */
  lemma {:induction false} ExpectedAt(nodes: seq<nat>, id: nat, last: Event, evs: seq<Event>, k: nat)
    requires Readable(nodes, last) && AllReadable(nodes, evs) && k <= |evs|
    ensures var e := if k < |evs| then evs[k] else if evs == [] then last else evs[|evs| - 1];
            Readable(nodes, e) && ExpectedAll(nodes, id, last, evs)[k] == Expected(nodes, id, e)
    decreases |evs|
  {
    if evs != [] {
      if k > 0 {
        ExpectedAt(nodes, id, evs[0], evs[1..], k - 1);
      }
    }
  }

  lemma {:induction false} ReadsOn(r: Reader, nodes: seq<nat>, id: nat, last: Event, evs: seq<Event>)
    requires Readable(nodes, last) && Holds(r, nodes, id, last) && r.bufsize >= 0
    requires AllReadable(nodes, evs) && |r.header| == HEADER_SIZE
    requires r.input == Input(PackedStream(nodes, id, evs), false)
    ensures Reports(r) == ExpectedAll(nodes, id, last, evs)
    decreases |evs|
  {
    var t := Turn(r);
    NextReport(r);
    if evs == [] {
      TurnAtEnd(r, nodes, id, last);
      HeldReport(t, nodes, id, last);
      assert Reports(t) == [];
    } else {
      TurnTakes(r, nodes, id, evs[0], PackedStream(nodes, id, evs[1..]));
      HeldReport(t, nodes, id, evs[0]);
      ReadsOn(t, nodes, id, evs[0], evs[1..]);
    }
  }

  /**
   Reading a packed stream recovers every event: its length, identity, flag and records
   in the order of the node list. Then the last event is reported once more.
   */
  lemma PackThenRead(nodes: seq<nat>, id: nat, evs: seq<Event>, header: seq<Byte>)
    requires evs != [] && |header| == HEADER_SIZE && AllReadable(nodes, evs)
    ensures Reports(Reader(Input(PackedStream(nodes, id, evs), false), header, [], 100000))
            == ExpectedAll(nodes, id, evs[0], evs)
  {
    var r := Reader(Input(PackedStream(nodes, id, evs), false), header, [], 100000);
    NextReport(r);
    TurnTakes(r, nodes, id, evs[0], PackedStream(nodes, id, evs[1..]));
    HeldReport(Turn(r), nodes, id, evs[0]);
    ReadsOn(Turn(r), nodes, id, evs[0], evs[1..]);
  }
}
