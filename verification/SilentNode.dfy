/**
 Runs in which one node delivers nothing, so that no event completes: the buffer is a window on
 the triggers in order of first arrival, and what leaves it at the depth limit is the oldest.
 */
module SilentNode {
  import opened Numbers
  import opened Events
  import opened Conservation
  import opened GapFreeRuns
  import opened IncreasingRuns
  import opened StepLaws

  /** The last depth of these, or all of them. */
  function Newest(opens: seq<nat>, depth: nat): (newest: seq<nat>)
    ensures |newest| == Min(|opens|, depth)
  {
    if |opens| <= depth then opens else opens[|opens| - depth..]
  }

  /** The triggers in order of arrival, each listed unless it is among the newest depth already. */
  function Openings(frags: seq<Fragment>, depth: nat): seq<nat> {
    if frags == [] then []
    else
      var opens, t := Openings(frags[..|frags| - 1], depth), frags[|frags| - 1].trig;
      if t in Newest(opens, depth) then opens else opens + [t]
  }

  function NumbersOf(es: seq<Event>): (ns: seq<nat>)
    ensures |ns| == |es| && forall k :: 0 <= k < |es| ==> ns[k] == es[k].number
  {
    seq(|es|, k requires 0 <= k < |es| => es[k].number)
  }

  /** The buffer holds the newest of the triggers opens, the output the ones before. */
  ghost predicate Window(s: State, opens: seq<nat>, depth: nat) {
    NumbersOf(s.sent) + NumbersOf(s.buf) == opens && NumbersOf(s.buf) == Newest(opens, depth)
  }

  predicate Silent(frags: seq<Fragment>, z: nat) {
    forall k :: 0 <= k < |frags| ==> frags[k].node != z
  }

  /** An entry that lacks a node is not full. */
  lemma NeverFull(nodes: seq<nat>, frags: seq<Fragment>, z: nat, e: Event)
    requires NoRepeat(nodes) && z in nodes && Silent(frags, z) && Witnessed(nodes, frags, e)
    ensures |e.node| < |nodes|
  {
    assert z !in e.node;
    if |e.node| >= |nodes| {
      Pigeonhole(e.node, nodes);
    }
  }

  /** A node that has delivered nothing yet of this trigger joins its entry. */
  lemma JoinsEntry(c: Config, frags: seq<Fragment>, f: Fragment, s: State, i: nat, z: nat)
    requires NoRepeat(c.nodes) && z in c.nodes && Silent(frags + [f], z) && Increasing(c.nodes, frags + [f])
    requires AllWitnessed(c.nodes, frags, s.buf) && i == Find(s.buf, f.trig) < |s.buf|
    ensures Witnessed(c.nodes, frags + [f], Add(s.buf[i], f)) && |s.buf[i].node| + 1 < |c.nodes|
  {
    var e := s.buf[i];
    assert Witnessed(c.nodes, frags, e);
    if f.node in e.node {
      DeliveredIsPassed(frags, f.node, e.number, f.trig);
      NotAgain(c.nodes, frags, f, f.trig);
    }
    ArrivesNow(c.nodes, frags, f);
    forall n | n in Add(e, f).node ensures n in c.nodes && Delivered(frags + [f], n, e.number) {
      if n in e.node {
        DeliveredGrows(frags, f, n, e.number);
      }
    }
    NeverFull(c.nodes, frags + [f], z, Add(e, f));
  }

  lemma FillsWindow(c: Config, frags: seq<Fragment>, f: Fragment, s: State, z: nat, opens: seq<nat>)
    requires NoRepeat(c.nodes) && z in c.nodes && Silent(frags + [f], z) && Increasing(c.nodes, frags + [f])
    requires AllWitnessed(c.nodes, frags, s.buf) && Window(s, opens, c.maxDepth) && Find(s.buf, f.trig) < |s.buf|
    ensures f.trig in Newest(opens, c.maxDepth)
    ensures Window(Receive(c, s, f), opens, c.maxDepth)
    ensures AllWitnessed(c.nodes, frags + [f], Receive(c, s, f).buf)
  {
    var i := Find(s.buf, f.trig);
    var t := State(s.buf[i := Add(s.buf[i], f)], s.sent);
    JoinsEntry(c, frags, f, s, i, z);
    assert Receive(c, s, f) == t;
    assert NumbersOf(t.buf) == NumbersOf(s.buf) && NumbersOf(s.buf)[i] == f.trig;
    WitnessedGrows(c.nodes, frags, f, s.buf);
  }

  lemma OpensWindow(c: Config, frags: seq<Fragment>, f: Fragment, s: State, opens: seq<nat>)
    requires |c.nodes| >= 2 && Increasing(c.nodes, frags + [f])
    requires AllWitnessed(c.nodes, frags, s.buf) && Window(s, opens, c.maxDepth) && Find(s.buf, f.trig) == |s.buf|
    ensures f.trig !in Newest(opens, c.maxDepth)
    ensures Window(Receive(c, s, f), opens + [f.trig], c.maxDepth)
    ensures AllWitnessed(c.nodes, frags + [f], Receive(c, s, f).buf)
  {
    var t, e := Receive(c, s, f), Event(f.trig, [f.node], [f.data]);
    ArrivesNow(c.nodes, frags, f);
    WitnessedGrows(c.nodes, frags, f, s.buf);
    assert Witnessed(c.nodes, frags + [f], e);
    MovesWindow(c, s, f, opens, t);
  }

  lemma MovesWindow(c: Config, s: State, f: Fragment, opens: seq<nat>, t: State)
    requires |c.nodes| >= 2 && Window(s, opens, c.maxDepth) && Find(s.buf, f.trig) == |s.buf| && t == Receive(c, s, f)
    ensures Window(t, opens + [f.trig], c.maxDepth)
  {
    var e := Event(f.trig, [f.node], [f.data]);
    if |s.buf| < c.maxDepth {
      RoomKeepsAll(c, s, f);
      WindowGrows(s, e, opens, c.maxDepth);
    } else {
      FullBufferSendsHead(c, s, f);
      WindowSlides(s, e, opens, c.maxDepth);
    }
  }

  lemma WindowGrows(s: State, e: Event, opens: seq<nat>, depth: nat)
    requires Window(s, opens, depth) && |s.buf| < depth
    ensures Window(State(s.buf + [e], s.sent), opens + [e.number], depth)
  {
    var ns, m := NumbersOf(s.buf), NumbersOf(s.sent);
    assert NumbersOf(s.buf + [e]) == ns + [e.number];
    assert m + (ns + [e.number]) == opens + [e.number];
  }

  lemma WindowSlides(s: State, e: Event, opens: seq<nat>, depth: nat)
    requires Window(s, opens, depth) && |s.buf| >= depth
    ensures Window(if s.buf == [] then State([], s.sent + [e]) else State(s.buf[1..] + [e], s.sent + [s.buf[0]]),
                   opens + [e.number], depth)
  {
    var ns, m := NumbersOf(s.buf), NumbersOf(s.sent);
    if s.buf == [] {
      assert NumbersOf(s.sent + [e]) == m + [e.number] == opens + [e.number];
    } else {
      assert NumbersOf(s.buf[1..] + [e]) == ns[1..] + [e.number];
      assert NumbersOf(s.sent + [s.buf[0]]) == m + [ns[0]];
      NumbersSlide(m, ns, opens, e.number, depth);
    }
  }

  lemma NumbersSlide(m: seq<nat>, ns: seq<nat>, opens: seq<nat>, x: nat, depth: nat)
    requires m + ns == opens && ns == Newest(opens, depth) && |ns| >= depth && ns != []
    ensures m + [ns[0]] + (ns[1..] + [x]) == opens + [x]
    ensures ns[1..] + [x] == Newest(opens + [x], depth)
  {
    var front := m + [ns[0]];
    assert front + (ns[1..] + [x]) == opens + [x];
    assert |front| == |opens + [x]| - depth;
    assert (front + (ns[1..] + [x]))[|front|..] == ns[1..] + [x];
  }

  /**
   While one node is silent the others' triggers go out oldest first, in order of first arrival,
   and the newest maxDepth stay in the buffer, whatever else the nodes skip.
   */
  lemma {:induction false} SilentRun(c: Config, frags: seq<Fragment>, z: nat)
    requires |c.nodes| >= 2 && NoRepeat(c.nodes) && z in c.nodes
    requires Silent(frags, z) && Increasing(c.nodes, frags)
    ensures Window(Run(c, frags), Openings(frags, c.maxDepth), c.maxDepth)
    ensures AllWitnessed(c.nodes, frags, Run(c, frags).buf)
  {
    if frags != [] {
      var k := |frags| - 1;
      var front, f, s, opens := frags[..k], frags[k], Run(c, frags[..k]), Openings(frags[..k], c.maxDepth);
      IncreasingPrefix(c.nodes, frags, k);
      SilentRun(c, front, z);
      LastStep(c, frags);
      if Find(s.buf, f.trig) < |s.buf| {
        FillsWindow(c, front, f, s, z, opens);
      } else {
        OpensWindow(c, front, f, s, opens);
      }
    }
  }

  /** Nodes 1 and 2, depth 1, node 1 alone delivers 0 and 1: 0 goes out and 1 stays. */
  lemma OldestLeaves(c: Config, a: Fragment, b: Fragment)
    requires c.nodes == [1, 2] && c.maxDepth == 1 && a.node == b.node == 1 && a.trig == 0 && b.trig == 1
    ensures Run(c, [a, b]) == State([Event(1, [1], [b.data])], [Event(0, [1], [a.data])])
  {
    var s := State([Event(0, [1], [a.data])], []);
    RoomKeepsAll(c, EMPTY, a);
    assert Receive(c, EMPTY, a) == s;
    FullBufferSendsHead(c, s, b);
    assert [a, b][..1] == [a] && [a][..0] == [];
    assert Run(c, [a]) == Receive(c, Run(c, []), a) == s;
    assert Run(c, [a, b]) == Receive(c, Run(c, [a]), b);
  }
}
