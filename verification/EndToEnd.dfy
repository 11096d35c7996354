/**
 From the fragments of the nodes to what checkleb prints: building events, packing them and
 reading the packed stream back, for gap-free producers.
 */
module EndToEnd {
  import opened Bytes
  import opened Options
  import opened Numbers
  import opened Events
  import opened Conservation
  import opened GapFreeRuns
  import opened PackedEvents
  import opened CheckLeb
  import opened Pipeline

  /** A fragment as dtarecbe sends it: one record, whose header the ids of the message repeat. */
  predicate Carries(f: Fragment) {
    IsRecord(f.data, f.node) && GetU32(f.data, 8) == f.trig
  }

  predicate AllCarry(frags: seq<Fragment>) {
    forall k :: 0 <= k < |frags| ==> Carries(frags[k])
  }

  lemma FewNodes(s: seq<nat>, bound: nat)
    requires NoRepeat(s) && forall n :: n in s ==> n < bound
    ensures |s| <= bound
  {
    var all := seq(bound, (i: nat) => i);
    if |s| > bound {
      assert forall n :: n in s ==> n in all by {
        forall n | n in s ensures n in all { assert all[n] == n; }
      }
      Pigeonhole(s, all);
    }
  }

  lemma {:induction false} FlattenBound(blocks: seq<seq<Byte>>, most: nat)
    requires forall k :: 0 <= k < |blocks| ==> |blocks[k]| <= most
    ensures |Flatten(blocks)| <= |blocks| * most
  {
    if blocks != [] {
      FlattenBound(blocks[..|blocks| - 1], most);
      assert |blocks| * most == (|blocks| - 1) * most + most;
    }
  }

  /** Block j of an event that arrived as it is: a record of that node and that trigger. */
  lemma BlockCarries(e: Event, frags: seq<Fragment>, j: nat)
    requires AllCarry(frags) && Authentic(e, frags) && j < |e.node|
    ensures IsRecord(e.data[j], e.node[j]) && GetU32(e.data[j], 8) == e.number
    ensures e.node[j] < 256 && |e.data[j]| <= RECORD_HEADER + 0xffff
  {
    var f := Fragment(e.node[j], e.number, e.data[j]);
    var k :| 0 <= k < |frags| && frags[k] == f;
    assert Carries(f);
  }

  /** A complete event of records is always small enough for the reader. */
  lemma CompleteIsReadable(nodes: seq<nat>, e: Event, frags: seq<Fragment>)
    requires NoRepeat(nodes) && Complete(nodes, e) && Authentic(e, frags) && AllCarry(frags)
    ensures Readable(nodes, e)
  {
    forall j | 0 <= j < |e.node|
      ensures IsRecord(e.data[j], e.node[j]) && e.node[j] < 256 && |e.data[j]| <= RECORD_HEADER + 0xffff
    {
      BlockCarries(e, frags, j);
    }
    FewNodes(e.node, 256);
    FlattenBound(e.data, RECORD_HEADER + 0xffff);
    forall j | 0 <= j < |e.node| ensures e.node[j] in nodes {
      assert e.node[j] in e.node;
    }
  }

  lemma {:induction false} HeadersAt(blocks: seq<seq<Byte>>, k: nat, j: nat)
    requires k <= j < |blocks| && AllRecords(blocks)
    ensures Headers(blocks, k)[j - k] == NtohHeader(blocks[j], 0).(at := |Flatten(blocks[..j])|)
    decreases |blocks| - k
  {
    if k < j {
      HeadersAt(blocks, k + 1, j);
      assert Headers(blocks, k)[1..] == Headers(blocks, k + 1);
    }
  }

  /** What checkleb prints about a complete event: one record of each node, in the list's order. */
  predicate TellsTrigger(nodes: seq<nat>, report: Report, trig: nat) {
    report.magic == U32(LEB_MAGIC) && report.nodes == |nodes| && report.flag == LEB_FLAG_COMPLETE
    && report.records.Some? && |report.records.value| == |nodes|
    && forall j :: 0 <= j < |nodes| ==>
         report.records.value[j].id == nodes[j] && report.records.value[j].trig == trig
  }

  /** The j-th block that pack_data selects is the record of the j-th node of the list. */
  lemma SelectedCarries(nodes: seq<nat>, e: Event, frags: seq<Fragment>, j: nat)
    requires NoRepeat(nodes) && Complete(nodes, e) && Authentic(e, frags) && AllCarry(frags) && j < |nodes|
    ensures |Selected(nodes, e)| == |nodes|
    ensures IsRecord(Selected(nodes, e)[j], nodes[j]) && GetU32(Selected(nodes, e)[j], 8) == e.number
  {
    OneBlockPerNode(nodes, e);
    assert nodes[j] in nodes;
    BlockCarries(e, frags, IndexOf(e.node, nodes[j]));
  }

  lemma HeadersTell(nodes: seq<nat>, blocks: seq<seq<Byte>>, trig: nat)
    requires |blocks| == |nodes| && AllRecords(blocks)
    requires forall j :: 0 <= j < |nodes| ==> IsRecord(blocks[j], nodes[j]) && GetU32(blocks[j], 8) == trig
    ensures |Headers(blocks, 0)| == |nodes|
    ensures forall j :: 0 <= j < |nodes| ==> Headers(blocks, 0)[j].id == nodes[j] && Headers(blocks, 0)[j].trig == trig
  {
    var headers := Headers(blocks, 0);
    forall j | 0 <= j < |nodes| ensures headers[j].id == nodes[j] && headers[j].trig == trig {
      HeadersAt(blocks, 0, j);
    }
  }

  lemma CompleteTells(nodes: seq<nat>, id: nat, e: Event, frags: seq<Fragment>)
    requires nodes != [] && NoRepeat(nodes) && Complete(nodes, e) && Authentic(e, frags) && AllCarry(frags)
    ensures Readable(nodes, e) && TellsTrigger(nodes, Expected(nodes, id, e), e.number)
  {
    CompleteIsReadable(nodes, e, frags);
    SelectedAreRecords(nodes, e);
    forall j | 0 <= j < |nodes|
      ensures |Selected(nodes, e)| == |nodes|
              && IsRecord(Selected(nodes, e)[j], nodes[j]) && GetU32(Selected(nodes, e)[j], 8) == e.number
    {
      SelectedCarries(nodes, e, frags, j);
    }
    SelectedCarries(nodes, e, frags, 0);
    HeadersTell(nodes, Selected(nodes, e), e.number);
    assert e.node[..|e.data|] == e.node && nodes[|nodes| - 1] in nodes;
  }

  lemma {:induction false} SentReadable(nodes: seq<nat>, frags: seq<Fragment>, evs: seq<Event>)
    requires NoRepeat(nodes) && AllCarry(frags)
    requires forall k :: 0 <= k < |evs| ==> Complete(nodes, evs[k]) && Authentic(evs[k], frags)
    ensures AllReadable(nodes, evs)
    decreases |evs|
  {
    if evs != [] {
      CompleteIsReadable(nodes, evs[0], frags);
      SentReadable(nodes, frags, evs[1..]);
    }
  }

  /** The reports are about n triggers, one after the other, and about the last one again. */
  ghost predicate TellsAll(nodes: seq<nat>, reports: seq<Report>, start: nat, n: nat)
    requires n > 0
  {
    |reports| == n + 1 && forall k :: 0 <= k <= n ==> TellsTrigger(nodes, reports[k], start + Min(k, n - 1))
  }

  lemma ReportTells(nodes: seq<nat>, id: nat, start: nat, frags: seq<Fragment>, sent: seq<Event>, k: nat)
    requires nodes != [] && NoRepeat(nodes) && AllCarry(frags) && AllReadable(nodes, sent) && sent != [] && k <= |sent|
    requires SentInOrder(nodes, start, frags, sent)
    ensures TellsTrigger(nodes, ExpectedAll(nodes, id, sent[0], sent)[k], start + Min(k, |sent| - 1))
  {
    ExpectedAt(nodes, id, sent[0], sent, k);
    CompleteTells(nodes, id, sent[Min(k, |sent| - 1)], frags);
  }

  lemma SentReadsBack(nodes: seq<nat>, start: nat, frags: seq<Fragment>, sent: seq<Event>, id: nat, header: seq<Byte>)
    requires nodes != [] && NoRepeat(nodes) && AllCarry(frags) && SentInOrder(nodes, start, frags, sent)
    requires sent != [] && |header| == HEADER_SIZE
    ensures AllReadable(nodes, sent)
    ensures TellsAll(nodes, Reports(Reader(Input(PackedStream(nodes, id, sent), false), header, [], 100000)),
                     start, |sent|)
  {
    SentReadable(nodes, frags, sent);
    PackThenRead(nodes, id, sent, header);
    var reports := ExpectedAll(nodes, id, sent[0], sent);
    forall k | 0 <= k <= |sent| ensures TellsTrigger(nodes, reports[k], start + Min(k, |sent| - 1)) {
      ReportTells(nodes, id, start, frags, sent, k);
    }
  }

  /**
   Gap-free records of N nodes, in any interleaving within the depth limit, are built, packed and
   read back as the triggers that every node has passed: consecutive from the start, each COMPLETE
   with one record of each node in the order of the node list; then the last one once more.
   */
  lemma TriggersReadBack(c: Config, start: nat, frags: seq<Fragment>, id: nat, header: seq<Byte>)
    requires |c.nodes| >= 2 && NoRepeat(c.nodes) && AllCarry(frags) && |header| == HEADER_SIZE
    requires GapFree(c.nodes, start, frags) && WithinSkew(c, frags) && Slowest(c.nodes, frags) > 0
    ensures AllReadable(c.nodes, Run(c, frags).sent)
    ensures var stream := PackedStream(c.nodes, id, Run(c, frags).sent);
            TellsAll(c.nodes, Reports(Reader(Input(stream, false), header, [], 100000)), start, Slowest(c.nodes, frags))
  {
    GapFreeRun(c, start, frags);
    SentReadsBack(c.nodes, start, frags, Run(c, frags).sent, id, header);
  }

  /** A dummy producer's record as the reader prints it, and its counted words. */
  lemma DummyReads(p: nat, trig: nat, time: nat)
    ensures |DummyRecord(p, trig, time)| == 140
    ensures NtohHeader(DummyRecord(p, trig, time), 0)
            == Record(0, 0xaa, p % 256, trig % 0x1_0000, time % 0x1_0000, 128, trig % 0x1_0000_0000)
    ensures forall i :: 0 <= i < 64 ==> GetU16(DummyRecord(p, trig, time), 12 + 2 * i) == i
  {
    var words := seq(128, k => if k % 2 == 0 then 0 else k / 2 % 256);
    FieldsReadBack([], 0xaa, p % 256, trig, time, 128, trig, words);
    var b := DummyRecord(p, trig, time);
    assert b == [] + [0xaa, p % 256] + U16(trig) + U16(time) + U16(128) + U32(trig) + words;
    forall i | 0 <= i < 64 ensures GetU16(b, 12 + 2 * i) == i {
      assert b[12 + 2 * i] == words[2 * i] && b[12 + 2 * i + 1] == words[2 * i + 1];
    }
  }

  /** A dummy producer's record is one, as long as its trigger number fits the message. */
  lemma DummyCarries(p: nat, trig: nat, time: nat)
    requires p < 256 && trig < TRIG_LIMIT
    ensures Carries(Made(p, trig, time))
  {
    DummyReads(p, trig, time);
    HeaderWords(p, trig);
    assert NtohHeader(DummyRecord(p, trig, time), 0).len == 128;
    assert NtohHeader(DummyRecord(p, trig, time), 0).trig == trig;
  }

  /** Every fragment on its way or arrived is a record. */
  ghost predicate AllRecorded(s: System) {
    AllCarry(Arrived(s)) && forall p :: p in s.producers ==> AllCarry(OnTheWay(s.producers[p]))
  }

  lemma TakeRecords(s: System, p: nat)
    requires AllRecorded(s) && Enabled(s, BuilderTakes(p))
    ensures AllRecorded(Take(s, BuilderTakes(p)))
  {
    var t, q := Take(s, BuilderTakes(p)), s.producers[p];
    assert OnTheWay(q)[0] == q.queue[0] && OnTheWay(t.producers[p]) == OnTheWay(q)[1..];
    assert Arrived(t) == Arrived(s) + [q.queue[0]];
  }

  lemma FillRecords(s: System, p: nat, time: nat)
    requires AllRecorded(s) && Enabled(s, Fill(p, time)) && p < 256 && s.producers[p].made < TRIG_LIMIT
    ensures AllRecorded(Take(s, Fill(p, time)))
  {
    var t, q := Take(s, Fill(p, time)), s.producers[p];
    DummyCarries(p, q.made, time);
    assert OnTheWay(t.producers[p]) == OnTheWay(q) + [Made(p, q.made, time)];
  }

  lemma StepRecords(nodes: seq<nat>, s: System, step: Step)
    requires AllRecorded(s) && Enabled(s, step) && Regular(nodes, s) && Regular(nodes, Take(s, step))
    ensures AllRecorded(Take(s, step))
  {
    if step.BuilderTakes? {
      TakeRecords(s, step.p);
    } else if step.Fill? {
      assert Take(s, step).producers[step.p].made <= TRIG_LIMIT;
      FillRecords(s, step.p, step.time);
    } else if step.Send? {
      assert OnTheWay(Take(s, step).producers[step.p]) == OnTheWay(s.producers[step.p]);
    }
  }

  lemma {:induction false} RunRecords(nodes: seq<nat>, s: System, steps: seq<Step>)
    requires AllRecorded(s) && Possible(s, steps) && Regular(nodes, Reached(s, steps))
    ensures AllRecorded(Reached(s, steps))
    decreases |steps|
  {
    if steps != [] {
      RegularAlong(nodes, Take(s, steps[0]), steps[1..]);
      RegularBefore(nodes, s, steps[0]);
      StepRecords(nodes, s, steps[0]);
      RunRecords(nodes, Take(s, steps[0]), steps[1..]);
    }
  }

  /**
   From the producers to the report: whatever the interleaving of dummy producers, queue, builder
   and controller, what was received within the depth limit reads back as the consecutive
   triggers from 0 that every node has passed, each COMPLETE, then the last one once more.
   */
  lemma ProducersReadBack(c: Config, steps: seq<Step>, id: nat, header: seq<Byte>)
    requires |c.nodes| >= 2 && NoRepeat(c.nodes) && Possible(Start(c.nodes), steps) && |header| == HEADER_SIZE
    requires Regular(c.nodes, Reached(Start(c.nodes), steps))
    requires var frags := Reached(Start(c.nodes), steps).received;
             WithinSkew(c, frags) && Slowest(c.nodes, frags) > 0
    ensures var sent := Run(c, Reached(Start(c.nodes), steps).received).sent;
            AllReadable(c.nodes, sent) && sent != []
            && TellsAll(c.nodes, Reports(Reader(Input(PackedStream(c.nodes, id, sent), false), header, [], 100000)),
                        0, |sent|)
  {
    var s := Reached(Start(c.nodes), steps);
    PipelineBuildsConsecutively(c, steps);
    RunRecords(c.nodes, Start(c.nodes), steps);
    assert AllCarry(s.received) by {
      assert Arrived(s)[..|s.received|] == s.received;
    }
    TriggersReadBack(c, 0, s.received, id, header);
  }
}
