/**
 When the builder can leave its receive loop: once the run has been stopped, exactly as long as
 no producer has abandoned a buffer on a read error.
 */
module Drain {
  import opened Events
  import opened GapFreeRuns
  import opened Pipeline

  /** The builder can be out of its loop without RUNNING being entered again. */
  ghost predicate CanLeave(s: System) {
    exists more :: Leaves(s, more)
  }

  predicate Leaves(s: System, more: seq<Step>) {
    Possible(s, more) && NeverRuns(more) && Reached(s, more).builder == Away
  }

  predicate NoneAbandoned(s: System) {
    forall p :: p in s.producers ==> s.producers[p].abandoned == 0
  }

  /** Steps until a producer has sent what it holds. */
  function Work(q: Producer): nat {
    match q.pc case Holding => 2 case Filled(_) => 1 case _ => 0
  }

  function TotalWork(nodes: seq<nat>, producers: map<nat, Producer>): nat
    requires forall n :: n in nodes ==> n in producers
  {
    if nodes == [] then 0
    else TotalWork(nodes[..|nodes| - 1], producers) + Work(producers[nodes[|nodes| - 1]])
  }

  lemma {:induction false} WorkChange(nodes: seq<nat>, producers: map<nat, Producer>, p: nat, q: Producer)
    requires NoRepeat(nodes) && (forall n :: n in nodes ==> n in producers) && p in producers
    ensures TotalWork(nodes, producers[p := q])
            == TotalWork(nodes, producers) + if p in nodes then Work(q) - Work(producers[p]) else 0
  {
    if nodes != [] {
      var k := |nodes| - 1;
      WorkChange(nodes[..k], producers, p, q);
      assert nodes == nodes[..k] + [nodes[k]];
      assert nodes[k] !in nodes[..k];
    }
  }

  /** How far the builder is from its next look at the counter, or from freeing a message. */
  function Rank(s: System): nat {
    match s.builder
    case Away => 0
    case Freeing => 1
    case Taken(_) => 2
    case Receiving => 3
    case Ready => if s.depth > 0 then 5 else 2
    case SawStop => if s.depth > 0 then 4 else 1
  }

  /** Some producer's queue holds what the counter says is still about. */
  lemma {:induction false} SomeLoad(nodes: seq<nat>, producers: map<nat, Producer>) returns (p: nat)
    requires (forall n :: n in nodes ==> n in producers) && TotalLoad(nodes, producers) > 0
    ensures p in nodes && Load(producers[p]) > 0
  {
    var k := |nodes| - 1;
    p := nodes[k];
    if Load(producers[p]) == 0 {
      p := SomeLoad(nodes[..k], producers);
    }
  }

  /** Nearer to the exit: less in the pipeline, or less to do before that. */
  ghost predicate Nearer(nodes: seq<nat>, t: System, s: System)
    requires forall n :: n in nodes ==> n in s.producers && n in t.producers
  {
    t.builder == Away || t.depth < s.depth
    || (t.depth == s.depth && TotalWork(nodes, t.producers) < TotalWork(nodes, s.producers))
    || (t.depth == s.depth && TotalWork(nodes, t.producers) == TotalWork(nodes, s.producers) && Rank(t) < Rank(s))
  }

  /** A producer that holds a buffer fills it, then sends it. */
  lemma ProducerStep(nodes: seq<nat>, s: System, p: nat) returns (step: Step)
    requires NoRepeat(nodes) && Accounted(nodes, s) && NoneAbandoned(s)
    requires p in s.producers && Work(s.producers[p]) > 0
    ensures Enabled(s, step) && step != SetState(RUNNING) && Accounted(nodes, Take(s, step))
    ensures Take(s, step).run == s.run && NoneAbandoned(Take(s, step)) && Nearer(nodes, Take(s, step), s)
  {
    step := if s.producers[p].pc.Holding? then Fill(p, 0) else Send(p);
    WorkChange(nodes, s.producers, p, Take(s, step).producers[p]);
    StepAccounts(nodes, s, step);
  }

  /** With nothing in the producers' hands what is counted is queued, and the builder takes it. */
  lemma TakeStep(nodes: seq<nat>, s: System) returns (step: Step)
    requires NoRepeat(nodes) && Accounted(nodes, s) && NoneAbandoned(s) && s.builder == Receiving && s.depth > 0
    requires forall p :: p in s.producers ==> Work(s.producers[p]) == 0
    ensures Enabled(s, step) && step != SetState(RUNNING) && Accounted(nodes, Take(s, step))
    ensures Take(s, step).run == s.run && NoneAbandoned(Take(s, step)) && Nearer(nodes, Take(s, step), s)
  {
    var p := SomeLoad(nodes, s.producers);
    assert Work(s.producers[p]) == 0;
    step := BuilderTakes(p);
    WorkChange(nodes, s.producers, p, Take(s, step).producers[p]);
    StepAccounts(nodes, s, step);
  }

  /** The next step towards the exit. */
  lemma NextStep(nodes: seq<nat>, s: System) returns (step: Step)
    requires NoRepeat(nodes) && Accounted(nodes, s) && s.run != RUNNING && s.builder != Away && NoneAbandoned(s)
    ensures Enabled(s, step) && step != SetState(RUNNING) && Accounted(nodes, Take(s, step))
    ensures Take(s, step).run == s.run && NoneAbandoned(Take(s, step)) && Nearer(nodes, Take(s, step), s)
  {
    if p :| p in s.producers && Work(s.producers[p]) > 0 {
      step := ProducerStep(nodes, s, p);
    } else if s.builder == Receiving && s.depth > 0 {
      step := TakeStep(nodes, s);
    } else {
      step := if s.builder == Ready then BuilderChecksState
              else if s.builder == SawStop then BuilderChecksDepth
              else if s.builder == Receiving then BuilderFindsNothing
              else if s.builder == Freeing then BuilderFrees
              else BuilderProcesses;
      StepAccounts(nodes, s, step);
    }
  }

  /** Going on with such steps leads out of the loop. */
  lemma {:induction false} Drains(nodes: seq<nat>, s: System) returns (more: seq<Step>)
    requires NoRepeat(nodes) && Accounted(nodes, s) && s.run != RUNNING && NoneAbandoned(s)
    ensures Leaves(s, more)
    decreases if s.builder == Away then 0 else 1, s.depth, TotalWork(nodes, s.producers), Rank(s)
  {
    more := [];
    if s.builder != Away {
      var step := NextStep(nodes, s);
      var rest := Drains(nodes, Take(s, step));
      more := [step] + rest;
      assert more[1..] == rest;
      assert forall k :: 0 < k < |more| ==> more[k] == rest[k - 1];
    }
  }

  /** Whoever leaves the loop finds nothing abandoned, then and before. */
  lemma {:induction false} LeavingNeedsAll(nodes: seq<nat>, s: System, more: seq<Step>)
    requires NoRepeat(nodes) && Accounted(nodes, s) && s.builder != Away
    requires Possible(s, more) && Reached(s, more).builder == Away
    ensures NoneAbandoned(s)
    decreases |more|
  {
    var t := Take(s, more[0]);
    StepAccounts(nodes, s, more[0]);
    if t.builder == Away {
      forall p | p in s.producers ensures Load(s.producers[p]) == 0 {
        NoLoad(nodes, s.producers, p);
      }
    } else {
      LeavingNeedsAll(nodes, t, more[1..]);
      forall p | p in s.producers ensures s.producers[p].abandoned == 0 {
        assert p in t.producers;
      }
    }
  }

  /**
   In every reachable state with the run stopped and the builder in its loop: it can leave without
   a restart if and only if no producer has abandoned a buffer.
   */
  lemma LeavesIff(nodes: seq<nat>, steps: seq<Step>)
    requires NoRepeat(nodes) && Possible(Start(nodes), steps)
    requires var s := Reached(Start(nodes), steps); s.run != RUNNING && s.builder != Away
    ensures CanLeave(Reached(Start(nodes), steps)) <==> NoneAbandoned(Reached(Start(nodes), steps))
  {
    var s := Reached(Start(nodes), steps);
    RunAccounts(nodes, steps);
    if NoneAbandoned(s) {
      var more := Drains(nodes, s);
    } else if CanLeave(s) {
      var more :| Leaves(s, more);
      LeavingNeedsAll(nodes, s, more);
    }
  }

  /** How often a read failed at producer p. */
  function ReadErrors(steps: seq<Step>, p: nat): nat {
    if steps == [] then 0 else (if steps[0] == ReadFails(p) then 1 else 0) + ReadErrors(steps[1..], p)
  }

  /** A failed read abandons a buffer, and nothing else does. */
  lemma {:induction false} AbandonedByReads(s: System, steps: seq<Step>, p: nat)
    requires p in s.producers && Possible(s, steps)
    ensures p in Reached(s, steps).producers
    ensures Reached(s, steps).producers[p].abandoned == s.producers[p].abandoned + ReadErrors(steps, p)
    decreases |steps|
  {
    if steps != [] {
      AbandonedByReads(Take(s, steps[0]), steps[1..], p);
    }
  }

  /** So a stopped builder can leave if and only if no read has failed, at any producer, in the whole run. */
  lemma LeavesIffNoReadFailed(nodes: seq<nat>, steps: seq<Step>)
    requires NoRepeat(nodes) && Possible(Start(nodes), steps)
    requires var s := Reached(Start(nodes), steps); s.run != RUNNING && s.builder != Away
    ensures CanLeave(Reached(Start(nodes), steps)) <==> forall p :: p in nodes ==> ReadErrors(steps, p) == 0
  {
    LeavesIff(nodes, steps);
    RunAccounts(nodes, steps);
    var s := Reached(Start(nodes), steps);
    forall p | p in nodes ensures p in s.producers && s.producers[p].abandoned == ReadErrors(steps, p) {
      AbandonedByReads(Start(nodes), steps, p);
    }
    assert forall p :: p in s.producers ==> p in nodes;
  }

  lemma {:induction false} OutsideStays(s: System, steps: seq<Step>, p: nat)
    requires p in s.producers && s.producers[p].pc == Outside && Possible(s, steps)
    requires forall k :: 0 <= k < |steps| ==> steps[k] != Enter(p)
    ensures p in Reached(s, steps).producers && Reached(s, steps).producers[p].pc == Outside
    ensures Reached(s, steps).producers[p].made == s.producers[p].made && Sends(steps, p) == 0
    decreases |steps|
  {
    if steps != [] {
      assert steps[0] != Enter(p);
      OutsideStays(Take(s, steps[0]), steps[1..], p);
    }
  }

  /** After any failure the producer is out of its loop: nothing more is made or sent before it enters again. */
  lemma AfterFailure(s: System, fails: Step, steps: seq<Step>, p: nat)
    requires fails in {AllocFails(p), ReadFails(p), SendFails(p)} && Possible(s, [fails] + steps)
    requires forall k :: 0 <= k < |steps| ==> steps[k] != Enter(p)
    ensures p in s.producers && p in Reached(s, [fails] + steps).producers
    ensures var q := Reached(s, [fails] + steps).producers[p];
            q.pc == Outside && q.made == s.producers[p].made && Sends(steps, p) == 0
  {
    assert ([fails] + steps)[1..] == steps;
    OutsideStays(Take(s, fails), steps, p);
  }

  /** In its loop, and not on the way out. */
  predicate Inside(s: System) { s.builder != Away && s.builder != SawStop }

  predicate AlwaysRunning(steps: seq<Step>) {
    forall k :: 0 <= k < |steps| && steps[k].SetState? ==> steps[k] == SetState(RUNNING)
  }

  /** While the state is RUNNING the builder stays in its loop, empty or not. */
  lemma {:induction false} StaysWhileRunning(s: System, steps: seq<Step>)
    requires s.run == RUNNING && Inside(s) && Possible(s, steps) && AlwaysRunning(steps)
    ensures Reached(s, steps).run == RUNNING && Inside(Reached(s, steps))
    decreases |steps|
  {
    if steps != [] {
      assert steps[0].SetState? ==> steps[0] == SetState(RUNNING);
      StaysWhileRunning(Take(s, steps[0]), steps[1..]);
    }
  }

  /** And there it takes what is queued: from its next look it can receive the front of any queue. */
  lemma TakesWhileRunning(s: System, p: nat)
    requires s.run == RUNNING && s.builder == Ready && p in s.producers && s.producers[p].queue != []
    ensures var steps := [BuilderChecksState, BuilderTakes(p), BuilderProcesses, BuilderFrees];
            Possible(s, steps) && Reached(s, steps).builder == Ready
            && Reached(s, steps).received == s.received + [s.producers[p].queue[0]]
            && p in Reached(s, steps).producers && Reached(s, steps).producers[p].queue == s.producers[p].queue[1..]
  {
    var t, u;
    t, u := Then(s, [], s, BuilderChecksState);
    t, u := Then(s, t, u, BuilderTakes(p));
    t, u := Then(s, t, u, BuilderProcesses);
    t, u := Then(s, t, u, BuilderFrees);
    assert t == [BuilderChecksState, BuilderTakes(p), BuilderProcesses, BuilderFrees];
  }

  /** Nothing fails at producer p: no allocation, read or send. */
  predicate Unfailing(steps: seq<Step>, p: nat) {
    forall k :: 0 <= k < |steps| ==> steps[k] != AllocFails(p) && steps[k] != ReadFails(p) && steps[k] != SendFails(p)
  }

  /** While the state is RUNNING a producer at which nothing fails stays in its loop. */
  lemma {:induction false} ProducerStays(s: System, steps: seq<Step>, p: nat)
    requires s.run == RUNNING && p in s.producers && !s.producers[p].pc.Outside?
    requires Possible(s, steps) && AlwaysRunning(steps) && Unfailing(steps, p)
    ensures p in Reached(s, steps).producers && !Reached(s, steps).producers[p].pc.Outside?
    decreases |steps|
  {
    if steps != [] {
      assert steps[0].SetState? ==> steps[0] == SetState(RUNNING);
      assert steps[0] != AllocFails(p) && steps[0] != ReadFails(p) && steps[0] != SendFails(p);
      ProducerStays(Take(s, steps[0]), steps[1..], p);
    }
  }

  /** And one turn of its loop queues the next fragment behind the others. */
  lemma SendsWhileRunning(s: System, p: nat, time: nat)
    requires s.run == RUNNING && p in s.producers && s.producers[p].pc == Top
    ensures var steps := [Check(p), Allocate(p), Fill(p, time), Send(p)];
            Possible(s, steps) && p in Reached(s, steps).producers
            && Reached(s, steps).depth == s.depth + 1
            && var q, f := Reached(s, steps).producers[p], Fragment(p % 256, s.producers[p].made % 0x1000_0000,
                                                                    DummyRecord(p, s.producers[p].made, time));
               q == s.producers[p].(queue := s.producers[p].queue + [f], made := s.producers[p].made + 1)
  {
    var t, u;
    t, u := Then(s, [], s, Check(p));
    t, u := Then(s, t, u, Allocate(p));
    t, u := Then(s, t, u, Fill(p, time));
    HeaderWords(p, s.producers[p].made);
    t, u := Then(s, t, u, Send(p));
    assert t == [Check(p), Allocate(p), Fill(p, time), Send(p)];
  }

  /** The builder leaves in one way only: after it has seen a stop, with the counter down. */
  lemma LeavesOnlyFromStop(s: System, step: Step)
    requires Enabled(s, step) && s.builder != Away
    ensures Take(s, step).builder == Away <==> step == BuilderChecksDepth && s.builder == SawStop && s.depth <= 0
  {
  }

  /** At step k the builder looked at the state, found it not RUNNING, and has not looked since. */
  ghost predicate LastLook(s: System, steps: seq<Step>, k: nat) {
    k < |steps| && steps[k] == BuilderChecksState
    && Possible(s, steps[..k]) && Reached(s, steps[..k]).run != RUNNING
    && forall j :: k < j < |steps| ==> steps[j] != BuilderChecksState
  }

  /** Whoever is about to leave had seen a state other than RUNNING at its last look. */
  lemma {:induction false} LastLookWasStop(s: System, steps: seq<Step>) returns (k: nat)
    requires Possible(s, steps) && s.builder != SawStop && Reached(s, steps).builder == SawStop
    ensures LastLook(s, steps, k)
    decreases |steps|
  {
    var n := |steps| - 1;
    var front, last := steps[..n], steps[n];
    assert steps == front + [last];
    SplitLast(s, front, last);
    if Reached(s, front).builder == SawStop {
      k := LastLookWasStop(s, front);
      assert steps[..k] == front[..k];
    } else {
      k := n;
    }
  }

  lemma {:induction false} SplitLast(s: System, front: seq<Step>, last: Step)
    requires Possible(s, front + [last])
    ensures Possible(s, front) && Enabled(Reached(s, front), last)
    ensures Reached(s, front + [last]) == Take(Reached(s, front), last)
  {
    RunsOn(s, front, [last]);
    assert [last][1..] == [];
  }

  /** A run from the start in which the builder leaves: at its last look before, the run was stopped. */
  lemma LeftAfterStop(nodes: seq<nat>, steps: seq<Step>, step: Step) returns (k: nat)
    requires Possible(Start(nodes), steps) && Enabled(Reached(Start(nodes), steps), step)
    requires Reached(Start(nodes), steps).builder != Away && Take(Reached(Start(nodes), steps), step).builder == Away
    ensures LastLook(Start(nodes), steps, k)
  {
    LeavesOnlyFromStop(Reached(Start(nodes), steps), step);
    k := LastLookWasStop(Start(nodes), steps);
  }

  lemma Then(s: System, steps: seq<Step>, t: System, step: Step) returns (more: seq<Step>, u: System)
    requires Possible(s, steps) && Reached(s, steps) == t && Enabled(t, step)
    ensures more == steps + [step] && u == Take(t, step) && Possible(s, more) && Reached(s, more) == u
  {
    more, u := steps + [step], Take(t, step);
    Append(s, steps, step);
  }

  lemma {:induction false} Append(s: System, steps: seq<Step>, step: Step)
    requires Possible(s, steps) && Enabled(Reached(s, steps), step)
    ensures Possible(s, steps + [step]) && Reached(s, steps + [step]) == Take(Reached(s, steps), step)
    decreases |steps|
  {
    if steps == [] {
      assert [step][1..] == [] && steps + [step] == [step];
    } else {
      assert (steps + [step])[1..] == steps[1..] + [step];
      Append(Take(s, steps[0]), steps[1..], step);
    }
  }

  /** One failed read, then the stop: the builder is caught in its loop. */
  lemma ReadErrorHappens() returns (steps: seq<Step>)
    ensures Possible(Start([1]), steps)
    ensures var s := Reached(Start([1]), steps);
            s.run != RUNNING && s.builder != Away && !NoneAbandoned(s) && !CanLeave(s)
  {
    var s, t := Start([1]), Start([1]);
    steps, t := Then(s, [], t, SetState(RUNNING));
    steps, t := Then(s, steps, t, BuilderEnters);
    steps, t := Then(s, steps, t, Enter(1));
    steps, t := Then(s, steps, t, Check(1));
    steps, t := Then(s, steps, t, Allocate(1));
    steps, t := Then(s, steps, t, ReadFails(1));
    steps, t := Then(s, steps, t, SetState(END));
    assert t.producers[1].abandoned == 1;
    LeavesIff([1], steps);
  }
}
