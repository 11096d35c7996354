/**
 Producers, queue and builder around the shared counter g_avant_depth, as an interleaving
 of atomic steps: DTArecbe::st_running, the receive loop of DTeb::st_running and a
 controller that may set any run state at any time.
 */
module Pipeline {
  import opened Bytes
  import opened Events
  import opened GapFreeRuns

  datatype RunState = INIT | IDLE | RUNNING | END | EXIT

  /** Where a producer is in its loop. Holding: g_avant_depth counts its buffer. */
  datatype ProducerPc = Outside | Top | Checked | Holding | Filled(f: Fragment)

  /** A producer, its queue to the builder, and the buffers it left behind on read errors. */
  datatype Producer = Producer(pc: ProducerPc, queue: seq<Fragment>, abandoned: nat, made: nat, failed: bool)

  /** Where the builder is. Freeing: the message is processed and not yet destroyed. */
  datatype BuilderPc = Away | Ready | SawStop | Receiving | Taken(f: Fragment) | Freeing

  datatype System = System(run: RunState, depth: int, producers: map<nat, Producer>,
                           builder: BuilderPc, received: seq<Fragment>)

  datatype Step =
    | SetState(run: RunState)
    | Enter(p: nat)
    | Check(p: nat)
    | AllocFails(p: nat)
    | Allocate(p: nat)
    | ReadFails(p: nat)
    | Fill(p: nat, time: nat)
    | SendFails(p: nat)
    | Send(p: nat)
    | BuilderEnters
    | BuilderChecksState
    | BuilderChecksDepth
    | BuilderFindsNothing
    | BuilderTakes(p: nat)
    | BuilderProcesses
    | BuilderFrees

  /** The 28 bits of the trigger number that survive the header words. */
  const TRIG_LIMIT := 0x1000_0000

  /** ebheader[0] and [1]: the id and trigger with their upper bits set. */
  function EncodeId(id: nat): nat { 0xff00_0000 + id % 256 }
  function EncodeTrig(trig: nat): nat { 0xf000_0000 + trig % TRIG_LIMIT }

  /** head[0] & 0xff and head[1] & 0x0fffffff at the builder. */
  function DecodeId(word: nat): nat { word % 256 }
  function DecodeTrig(word: nat): nat { word % TRIG_LIMIT }

  lemma HeaderWords(id: nat, trig: nat)
    ensures DecodeId(EncodeId(id)) == id % 256 && DecodeTrig(EncodeTrig(trig)) == trig % 0x1000_0000
    ensures EncodeId(id) / 256 == 0xff_0000 && EncodeTrig(trig) / 0x1000_0000 == 0xf
  {
    var t := trig % TRIG_LIMIT;
    assert (0xf000_0000 + t) % TRIG_LIMIT == t;
  }

  /** What a dummy producer writes: a recbe_header and 64 counted words, in network order. */
  function DummyRecord(id: nat, trig: nat, time: nat): seq<Byte> {
    [0xaa, id % 256] + U16(trig) + U16(time) + U16(128) + U32(trig)
    + seq(128, k => if k % 2 == 0 then 0 else k / 2 % 256)
  }

  /** The message of a dummy producer, as the builder will read it. */
  function Made(p: nat, trig: nat, time: nat): Fragment {
    Fragment(DecodeId(EncodeId(p)), DecodeTrig(EncodeTrig(trig)), DummyRecord(p, trig, time))
  }

  function Start(nodes: seq<nat>): System {
    System(INIT, 0, map n | n in nodes :: Producer(Outside, [], 0, 0, false), Away, [])
  }

  predicate Enabled(s: System, step: Step) {
    match step
    case SetState(_) => true
    case Enter(p) => p in s.producers && s.producers[p].pc.Outside? && s.run == RUNNING
    case Check(p) => p in s.producers && s.producers[p].pc.Top?
    case AllocFails(p) => p in s.producers && s.producers[p].pc.Checked?
    case Allocate(p) => p in s.producers && s.producers[p].pc.Checked?
    case ReadFails(p) => p in s.producers && s.producers[p].pc.Holding?
    case Fill(p, _) => p in s.producers && s.producers[p].pc.Holding?
    case SendFails(p) => p in s.producers && s.producers[p].pc.Filled?
    case Send(p) => p in s.producers && s.producers[p].pc.Filled?
    case BuilderEnters => s.builder.Away? && s.run == RUNNING
    case BuilderChecksState => s.builder.Ready?
    case BuilderChecksDepth => s.builder.SawStop?
    case BuilderFindsNothing => s.builder.Receiving?
    case BuilderTakes(p) => s.builder.Receiving? && p in s.producers && s.producers[p].queue != []
    case BuilderProcesses => s.builder.Taken?
    case BuilderFrees => s.builder.Freeing?
  }

  function With(s: System, p: nat, q: Producer): System {
    s.(producers := s.producers[p := q])
  }

  function Take(s: System, step: Step): System
    requires Enabled(s, step)
  {
    match step
    case SetState(run) => s.(run := run)
    case Enter(p) => With(s, p, s.producers[p].(pc := Top))
    case Check(p) =>
      With(s, p, s.producers[p].(pc := if s.run == RUNNING then Checked else Outside))
    case AllocFails(p) => With(s, p, s.producers[p].(pc := Outside))
    case Allocate(p) => With(s, p, s.producers[p].(pc := Holding)).(depth := s.depth + 1)
    case ReadFails(p) =>
      var q := s.producers[p];
      With(s, p, q.(pc := Outside, abandoned := q.abandoned + 1, failed := true))
    case Fill(p, time) =>
      var q := s.producers[p];
      With(s, p, q.(pc := Filled(Made(p, q.made, time)), made := q.made + 1))
    case SendFails(p) =>
      With(s, p, s.producers[p].(pc := Outside, failed := true)).(depth := s.depth - 1)
    case Send(p) =>
      var q := s.producers[p];
      With(s, p, q.(pc := Top, queue := q.queue + [q.pc.f]))
    case BuilderEnters => s.(builder := Ready)
    case BuilderChecksState => s.(builder := if s.run != RUNNING then SawStop else Receiving)
    case BuilderChecksDepth => s.(builder := if s.depth <= 0 then Away else Receiving)
    case BuilderFindsNothing => s.(builder := Ready)
    case BuilderTakes(p) =>
      var q := s.producers[p];
      With(s, p, q.(queue := q.queue[1..])).(builder := Taken(q.queue[0]))
    case BuilderProcesses => s.(builder := Freeing, received := s.received + [s.builder.f])
    case BuilderFrees => s.(builder := Ready, depth := s.depth - 1)
  }

  /** A run: each step enabled where the ones before it lead. */
  predicate Possible(s: System, steps: seq<Step>)
    decreases |steps|
  {
    steps == [] || (Enabled(s, steps[0]) && Possible(Take(s, steps[0]), steps[1..]))
  }

  function Reached(s: System, steps: seq<Step>): System
    requires Possible(s, steps)
    decreases |steps|
  {
    if steps == [] then s else Reached(Take(s, steps[0]), steps[1..])
  }

  /** Buffers a producer accounts for: in its hands, queued, abandoned. */
  function Load(q: Producer): nat {
    (if q.pc.Holding? || q.pc.Filled? then 1 else 0) + |q.queue| + q.abandoned
  }

  function TotalLoad(nodes: seq<nat>, producers: map<nat, Producer>): nat
    requires forall n :: n in nodes ==> n in producers
  {
    if nodes == [] then 0
    else TotalLoad(nodes[..|nodes| - 1], producers) + Load(producers[nodes[|nodes| - 1]])
  }

  function InBuilder(b: BuilderPc): nat {
    if b.Taken? || b.Freeing? then 1 else 0
  }

  lemma {:induction false} LoadChange(nodes: seq<nat>, producers: map<nat, Producer>, p: nat, q: Producer)
    requires NoRepeat(nodes) && (forall n :: n in nodes ==> n in producers) && p in producers
    ensures TotalLoad(nodes, producers[p := q])
            == TotalLoad(nodes, producers) + if p in nodes then Load(q) - Load(producers[p]) else 0
  {
    if nodes != [] {
      var k := |nodes| - 1;
      LoadChange(nodes[..k], producers, p, q);
      assert nodes == nodes[..k] + [nodes[k]];
      assert nodes[k] !in nodes[..k];
    }
  }

  lemma {:induction false} NoLoad(nodes: seq<nat>, producers: map<nat, Producer>, p: nat)
    requires (forall n :: n in nodes ==> n in producers) && p in nodes
    ensures Load(producers[p]) <= TotalLoad(nodes, producers)
  {
    var k := |nodes| - 1;
    if nodes[k] != p {
      assert nodes == nodes[..k] + [nodes[k]];
      NoLoad(nodes[..k], producers, p);
    }
  }

  /** g_avant_depth is exactly the buffers that are somewhere. */
  ghost predicate Accounted(nodes: seq<nat>, s: System) {
    (forall n :: n in nodes <==> n in s.producers)
    && s.depth == TotalLoad(nodes, s.producers) + InBuilder(s.builder)
  }

  lemma StepAccounts(nodes: seq<nat>, s: System, step: Step)
    requires NoRepeat(nodes) && Accounted(nodes, s) && Enabled(s, step)
    ensures Accounted(nodes, Take(s, step))
  {
    var t := Take(s, step);
    match step {
      case Enter(p) => LoadChange(nodes, s.producers, p, t.producers[p]);
      case Check(p) => LoadChange(nodes, s.producers, p, t.producers[p]);
      case AllocFails(p) => LoadChange(nodes, s.producers, p, t.producers[p]);
      case Allocate(p) => LoadChange(nodes, s.producers, p, t.producers[p]);
      case ReadFails(p) => LoadChange(nodes, s.producers, p, t.producers[p]);
      case Fill(p, _) => LoadChange(nodes, s.producers, p, t.producers[p]);
      case SendFails(p) => LoadChange(nodes, s.producers, p, t.producers[p]);
      case Send(p) => LoadChange(nodes, s.producers, p, t.producers[p]);
      case BuilderTakes(p) => LoadChange(nodes, s.producers, p, t.producers[p]);
      case _ =>
    }
  }

  lemma {:induction false} StartAccounted(nodes: seq<nat>, producers: map<nat, Producer>)
    requires forall n :: n in nodes ==> n in producers && Load(producers[n]) == 0
    ensures TotalLoad(nodes, producers) == 0
  {
    if nodes != [] {
      StartAccounted(nodes[..|nodes| - 1], producers);
    }
  }

  lemma {:induction false} RunAccountsFrom(nodes: seq<nat>, s: System, steps: seq<Step>)
    requires NoRepeat(nodes) && Accounted(nodes, s) && Possible(s, steps)
    ensures Accounted(nodes, Reached(s, steps))
    decreases |steps|
  {
    if steps != [] {
      StepAccounts(nodes, s, steps[0]);
      RunAccountsFrom(nodes, Take(s, steps[0]), steps[1..]);
    }
  }

  /** In every reachable state the counter is what producers, queues and builder hold. */
  lemma RunAccounts(nodes: seq<nat>, steps: seq<Step>)
    requires NoRepeat(nodes) && Possible(Start(nodes), steps)
    ensures Accounted(nodes, Reached(Start(nodes), steps))
  {
    StartAccounted(nodes, Start(nodes).producers);
    RunAccountsFrom(nodes, Start(nodes), steps);
  }

  /** Nothing queued, held or abandoned anywhere. */
  predicate Drained(s: System) {
    forall p :: p in s.producers ==>
      s.producers[p].queue == [] && s.producers[p].abandoned == 0
      && !s.producers[p].pc.Holding? && !s.producers[p].pc.Filled?
  }

  /** When the builder leaves its loop the pipeline is drained, whatever happened before. */
  lemma DrainedOnExit(nodes: seq<nat>, steps: seq<Step>)
    requires NoRepeat(nodes) && Possible(Start(nodes), steps)
    requires var s := Reached(Start(nodes), steps); s.builder.SawStop? && s.depth <= 0
    ensures Drained(Take(Reached(Start(nodes), steps), BuilderChecksDepth))
    ensures Take(Reached(Start(nodes), steps), BuilderChecksDepth).builder == Away
  {
    var s := Reached(Start(nodes), steps);
    RunAccounts(nodes, steps);
    forall p | p in s.producers ensures Load(s.producers[p]) == 0 {
      NoLoad(nodes, s.producers, p);
    }
  }

  function Sends(steps: seq<Step>, p: nat): nat {
    if steps == [] then 0 else (if steps[0] == Send(p) then 1 else 0) + Sends(steps[1..], p)
  }

  predicate NeverRuns(steps: seq<Step>) {
    forall k :: 0 <= k < |steps| ==> steps[k] != SetState(RUNNING)
  }

  /** A producer past its check of the run state still has one fragment to add. */
  function Budget(q: Producer): nat {
    if q.pc.Outside? || q.pc.Top? then 0 else 1
  }

  lemma BudgetStep(s: System, step: Step, p: nat)
    requires p in s.producers && s.run != RUNNING && Enabled(s, step) && step != SetState(RUNNING)
    ensures var t := Take(s, step);
            p in t.producers && t.run != RUNNING
            && Budget(t.producers[p]) + (if step == Send(p) then 1 else 0) <= Budget(s.producers[p])
  {
  }

  /** Once stopped and not restarted, a producer adds one more fragment at the very most. */
  lemma {:induction false} AtMostOneMore(s: System, steps: seq<Step>, p: nat)
    requires p in s.producers && s.run != RUNNING && Possible(s, steps) && NeverRuns(steps)
    ensures Sends(steps, p) <= Budget(s.producers[p]) <= 1
    decreases |steps|
  {
    if steps != [] {
      BudgetStep(s, steps[0], p);
      AtMostOneMore(Take(s, steps[0]), steps[1..], p);
    }
  }

  lemma {:induction false} RunsOn(s: System, a: seq<Step>, b: seq<Step>)
    requires Possible(s, a + b)
    ensures Possible(s, a) && Possible(Reached(s, a), b)
    ensures Reached(s, a + b) == Reached(Reached(s, a), b)
    decreases |a|
  {
    if a == [] {
      assert a + b == b;
    } else {
      assert (a + b)[1..] == a[1..] + b;
      RunsOn(Take(s, a[0]), a[1..], b);
    }
  }

  /**
   The drain: after the builder has left, with RUNNING not entered again, each producer
   can add one fragment at most, and only one that had passed its check before.
   */
  lemma DrainProtocol(nodes: seq<nat>, steps: seq<Step>, later: seq<Step>, p: nat)
    requires NoRepeat(nodes) && p in nodes
    requires Possible(Start(nodes), steps + [BuilderChecksDepth] + later)
    requires Possible(Start(nodes), steps)
    requires var s := Reached(Start(nodes), steps);
             s.builder.SawStop? && s.depth <= 0 && s.run != RUNNING
    requires NeverRuns(later)
    ensures var s := Reached(Start(nodes), steps);
            p in s.producers && s.producers[p].queue == []
            && Sends(later, p) <= if s.producers[p].pc.Checked? then 1 else 0
  {
    var s := Reached(Start(nodes), steps);
    DrainedOnExit(nodes, steps);
    RunAccounts(nodes, steps);
    assert steps + [BuilderChecksDepth] + later == steps + ([BuilderChecksDepth] + later);
    RunsOn(Start(nodes), steps, [BuilderChecksDepth] + later);
    RunsOn(s, [BuilderChecksDepth], later);
    assert Reached(s, [BuilderChecksDepth]) == Take(s, BuilderChecksDepth) by {
      assert [BuilderChecksDepth][1..] == [];
    }
    AtMostOneMore(Take(s, BuilderChecksDepth), later, p);
  }

  /** Buffers lost to a read error are never given back. */
  lemma {:induction false} AbandonedStays(s: System, steps: seq<Step>, p: nat)
    requires p in s.producers && Possible(s, steps)
    ensures p in Reached(s, steps).producers
    ensures Reached(s, steps).producers[p].abandoned >= s.producers[p].abandoned
    decreases |steps|
  {
    if steps != [] {
      AbandonedStays(Take(s, steps[0]), steps[1..], p);
    }
  }

  /** So after one read error the builder never leaves its loop again. */
  lemma ReadErrorBlocksExit(nodes: seq<nat>, steps: seq<Step>, later: seq<Step>, p: nat)
    requires NoRepeat(nodes) && p in nodes && Possible(Start(nodes), steps + later)
    requires Possible(Start(nodes), steps)
    requires p in Reached(Start(nodes), steps).producers
    requires Reached(Start(nodes), steps).producers[p].abandoned > 0
    ensures Reached(Start(nodes), steps + later).depth > 0
  {
    RunsOn(Start(nodes), steps, later);
    RunAccounts(nodes, steps + later);
    AbandonedStays(Reached(Start(nodes), steps), later, p);
    NoLoad(nodes, Reached(Start(nodes), steps + later).producers, p);
  }

  /** What of p's fragments is still on its way: queued, then filled and not yet sent. */
  function OnTheWay(q: Producer): seq<Fragment> {
    q.queue + if q.pc.Filled? then [q.pc.f] else []
  }

  /** Fragments that have left the queues. */
  function Arrived(s: System): seq<Fragment> {
    s.received + if s.builder.Taken? then [s.builder.f] else []
  }

  /** Consecutive triggers of node p from the given one on. */
  predicate Consecutive(fs: seq<Fragment>, p: nat, from: nat) {
    forall k :: 0 <= k < |fs| ==> fs[k].node == p && fs[k].trig == from + k
  }

  /** No failures, ids of one byte, and trigger numbers that have not wrapped yet. */
  predicate Regular(nodes: seq<nat>, s: System) {
    forall p :: p in s.producers ==>
      p in nodes && p < 256 && !s.producers[p].failed && s.producers[p].made <= TRIG_LIMIT
  }

  predicate InSequence(s: System, p: nat)
    requires p in s.producers
  {
    var q, done := s.producers[p], Count(Arrived(s), p);
    Consecutive(OnTheWay(q), p, done) && q.made == done + |OnTheWay(q)|
  }

  predicate Delivering(nodes: seq<nat>, s: System) {
    GapFree(nodes, 0, Arrived(s)) && forall p :: p in s.producers ==> InSequence(s, p)
  }

  /** Whatever is regular now was regular before. */
  lemma RegularBefore(nodes: seq<nat>, s: System, step: Step)
    requires Enabled(s, step) && Regular(nodes, Take(s, step))
    ensures Regular(nodes, s)
  {
    forall p | p in s.producers
      ensures p in nodes && p < 256 && !s.producers[p].failed && s.producers[p].made <= TRIG_LIMIT
    {
      var t := Take(s, step);
      assert p in t.producers;
    }
  }

  /** Taking the front of p's queue moves one fragment of p from on-the-way to arrived. */
  lemma TakeKeepsSequence(s: System, t: System, p: nat, n: nat)
    requires Enabled(s, BuilderTakes(p)) && t == Take(s, BuilderTakes(p))
    requires n in s.producers && InSequence(s, n) && InSequence(s, p)
    ensures Arrived(t) == Arrived(s) + [s.producers[p].queue[0]] && InSequence(t, n)
  {
    var q := s.producers[p];
    var f := q.queue[0];
    assert OnTheWay(q)[0] == f && OnTheWay(q)[1..] == OnTheWay(t.producers[p]);
    assert Arrived(t) == Arrived(s) + [f];
    CountNext(Arrived(s), f, n);
  }

  lemma TakeDelivers(nodes: seq<nat>, s: System, p: nat)
    requires Regular(nodes, s) && Delivering(nodes, s) && Enabled(s, BuilderTakes(p))
    ensures Delivering(nodes, Take(s, BuilderTakes(p)))
  {
    var t, f := Take(s, BuilderTakes(p)), s.producers[p].queue[0];
    assert InSequence(s, p) && OnTheWay(s.producers[p])[0] == f;
    TakeKeepsSequence(s, t, p, p);
    assert Arrived(t)[..|Arrived(s)|] == Arrived(s);
    forall n | n in t.producers ensures InSequence(t, n) {
      TakeKeepsSequence(s, t, p, n);
    }
  }

  lemma StepDelivers(nodes: seq<nat>, s: System, step: Step)
    requires Delivering(nodes, s) && Enabled(s, step) && Regular(nodes, Take(s, step))
    ensures Delivering(nodes, Take(s, step))
  {
    RegularBefore(nodes, s, step);
    var t := Take(s, step);
    if step.BuilderTakes? {
      TakeDelivers(nodes, s, step.p);
    } else {
      assert Arrived(t) == Arrived(s);
      forall n | n in t.producers ensures InSequence(t, n) {
        assert InSequence(s, n);
        OneSequence(nodes, s, step, n);
      }
    }
  }

  lemma MadeIs(p: nat, trig: nat, time: nat)
    requires p < 256 && trig < TRIG_LIMIT
    ensures Made(p, trig, time).node == p && Made(p, trig, time).trig == trig
  {
    HeaderWords(p, trig);
  }

  /** A filled buffer is the next of p's triggers, and waits behind those queued. */
  lemma FillSequence(s: System, p: nat, time: nat)
    requires Enabled(s, Fill(p, time)) && InSequence(s, p) && p < 256 && s.producers[p].made < TRIG_LIMIT
    ensures InSequence(Take(s, Fill(p, time)), p)
  {
    var t, q := Take(s, Fill(p, time)), s.producers[p];
    var f := Made(p, q.made, time);
    MadeIs(p, q.made, time);
    assert Arrived(t) == Arrived(s);
    assert OnTheWay(t.producers[p]) == OnTheWay(q) + [f];
  }

  /** Sending moves it to the end of the queue. */
  lemma SendSequence(s: System, p: nat)
    requires Enabled(s, Send(p)) && InSequence(s, p)
    ensures InSequence(Take(s, Send(p)), p)
  {
    var t := Take(s, Send(p));
    assert Arrived(t) == Arrived(s);
    assert OnTheWay(t.producers[p]) == OnTheWay(s.producers[p]);
  }

  lemma OneSequence(nodes: seq<nat>, s: System, step: Step, n: nat)
    requires Enabled(s, step) && !step.BuilderTakes? && Regular(nodes, Take(s, step))
    requires n in s.producers && InSequence(s, n)
    requires Arrived(Take(s, step)) == Arrived(s)
    ensures InSequence(Take(s, step), n)
  {
    var t := Take(s, step);
    if step.Fill? && step.p == n {
      assert t.producers[n].made <= TRIG_LIMIT;
      FillSequence(s, n, step.time);
    } else if step.Send? && step.p == n {
      SendSequence(s, n);
    } else {
      assert OnTheWay(t.producers[n]) == OnTheWay(s.producers[n]);
    }
  }

  lemma {:induction false} RegularAlong(nodes: seq<nat>, s: System, steps: seq<Step>)
    requires Possible(s, steps) && Regular(nodes, Reached(s, steps))
    ensures Regular(nodes, s)
    decreases |steps|
  {
    if steps != [] {
      RegularAlong(nodes, Take(s, steps[0]), steps[1..]);
      RegularBefore(nodes, s, steps[0]);
    }
  }

  lemma {:induction false} RunDelivers(nodes: seq<nat>, s: System, steps: seq<Step>)
    requires Delivering(nodes, s) && Possible(s, steps) && Regular(nodes, Reached(s, steps))
    ensures Delivering(nodes, Reached(s, steps))
    decreases |steps|
  {
    if steps != [] {
      RegularAlong(nodes, Take(s, steps[0]), steps[1..]);
      StepDelivers(nodes, s, steps[0]);
      RunDelivers(nodes, Take(s, steps[0]), steps[1..]);
    }
  }

  lemma {:induction false} GapFreePrefix(nodes: seq<nat>, start: nat, frags: seq<Fragment>, n: nat)
    requires n <= |frags| && GapFree(nodes, start, frags)
    ensures GapFree(nodes, start, frags[..n])
  {
    if n < |frags| {
      GapFreePrefix(nodes, start, frags[..|frags| - 1], n);
      assert frags[..|frags| - 1][..n] == frags[..n];
    } else {
      assert frags[..n] == frags;
    }
  }

  /**
   Whatever the interleaving, what the builder has received from dummy producers is
   gap-free and in order for each of them; so its output is the consecutive triggers
   that every node has passed.
   */
  lemma PipelineBuildsConsecutively(c: Config, steps: seq<Step>)
    requires |c.nodes| >= 2 && NoRepeat(c.nodes) && Possible(Start(c.nodes), steps)
    requires Regular(c.nodes, Reached(Start(c.nodes), steps))
    ensures GapFree(c.nodes, 0, Reached(Start(c.nodes), steps).received)
    ensures var frags := Reached(Start(c.nodes), steps).received;
            WithinSkew(c, frags) ==> GapFreeState(c, 0, frags, Run(c, frags))
  {
    var s := Reached(Start(c.nodes), steps);
    RunDelivers(c.nodes, Start(c.nodes), steps);
    GapFreePrefix(c.nodes, 0, Arrived(s), |s.received|);
    assert Arrived(s)[..|s.received|] == s.received;
    if WithinSkew(c, s.received) {
      GapFreeRun(c, 0, s.received);
    }
  }
}
