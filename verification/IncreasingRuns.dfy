/**
 Runs in which nodes may skip triggers but each delivers strictly increasing numbers, and
 the depth limit never fires. Then what is sent is past every node, and nothing is sent
 twice, exactly as long as the erase loop deletes what was sent.
 */
module IncreasingRuns {
  import opened Events
  import opened EraseRules
  import opened Conservation
  import opened GapFreeRuns

  predicate Increasing(nodes: seq<nat>, frags: seq<Fragment>) {
    (forall k :: 0 <= k < |frags| ==> frags[k].node in nodes)
    && forall a, b :: 0 <= a < b < |frags| && frags[a].node == frags[b].node ==>
         frags[a].trig < frags[b].trig
  }

  /** A step that does not push the head out. */
  predicate FitsStep(c: Config, s: State, f: Fragment) {
    Find(s.buf, f.trig) == |s.buf| ==> |Queued(c, s, f).buf| <= c.maxDepth
  }

  predicate Fits(c: Config, frags: seq<Fragment>) {
    frags == [] ||
    (Fits(c, frags[..|frags| - 1])
     && FitsStep(c, Run(c, frags[..|frags| - 1]), frags[|frags| - 1]))
  }

  predicate Delivered(frags: seq<Fragment>, n: nat, t: nat) {
    exists k :: 0 <= k < |frags| && frags[k].node == n && frags[k].trig == t
  }

  /** Node n has delivered trigger t or a later one. */
  predicate Passed(frags: seq<Fragment>, n: nat, t: nat) {
    exists k :: 0 <= k < |frags| && frags[k].node == n && frags[k].trig >= t
  }

  /** Position of the first fragment of trigger t, or |frags|. */
  function First(frags: seq<Fragment>, t: nat): (i: nat)
    ensures i <= |frags|
    ensures i < |frags| ==> frags[i].trig == t
    ensures forall k :: 0 <= k < i ==> frags[k].trig != t
  {
    if frags == [] then 0
    else
      var last := |frags| - 1;
      var i := First(frags[..last], t);
      if i < last || frags[last].trig == t then i else i + 1
  }

  /** The nodes listed in an entry are configured, differ, and did deliver its number. */
  predicate Witnessed(nodes: seq<nat>, frags: seq<Fragment>, e: Event) {
    NoRepeat(e.node) && e.node != []
    && forall n :: n in e.node ==> n in nodes && Delivered(frags, n, e.number)
  }

  predicate AllWitnessed(nodes: seq<nat>, frags: seq<Fragment>, buf: seq<Event>) {
    forall k {:trigger Witnessed(nodes, frags, buf[k])} ::
      0 <= k < |buf| ==> Witnessed(nodes, frags, buf[k])
  }

  /** The node listed first is the one that delivered the first fragment of the trigger. */
  predicate Opened(frags: seq<Fragment>, e: Event) {
    e.node != [] && First(frags, e.number) < |frags|
    && frags[First(frags, e.number)].node == e.node[0]
  }

  /** Entries stand in the order in which their triggers first arrived. */
  predicate InArrivalOrder(frags: seq<Fragment>, buf: seq<Event>) {
    (forall k {:trigger Opened(frags, buf[k])} :: 0 <= k < |buf| ==> Opened(frags, buf[k]))
    && forall a, b :: 0 <= a < b < |buf| ==> First(frags, buf[a].number) < First(frags, buf[b].number)
  }

  predicate AllPassed(nodes: seq<nat>, frags: seq<Fragment>, sent: seq<Event>) {
    forall k, n {:trigger Passed(frags, n, sent[k].number)} ::
      0 <= k < |sent| && n in nodes ==> Passed(frags, n, sent[k].number)
  }

  predicate Apart(sent: seq<Event>, buf: seq<Event>) {
    forall a, b :: 0 <= a < |sent| && 0 <= b < |buf| ==> sent[a].number != buf[b].number
  }

  predicate Has(es: seq<Event>, t: nat) {
    exists k :: 0 <= k < |es| && es[k].number == t
  }

  /** Every trigger that arrived is buffered or sent. */
  predicate Known(frags: seq<Fragment>, s: State) {
    forall k {:trigger Has(s.buf, frags[k].trig)} ::
      0 <= k < |frags| ==> Has(s.buf, frags[k].trig) || Has(s.sent, frags[k].trig)
  }

  predicate Sound(c: Config, frags: seq<Fragment>, s: State) {
    Distinct(s.buf) && Distinct(s.sent) && Apart(s.sent, s.buf)
    && AllWitnessed(c.nodes, frags, s.buf) && InArrivalOrder(frags, s.buf)
    && AllPassed(c.nodes, frags, s.sent) && Known(frags, s)
  }

  lemma DeliveredGrows(frags: seq<Fragment>, f: Fragment, n: nat, t: nat)
    requires Delivered(frags, n, t)
    ensures Delivered(frags + [f], n, t)
  {
    var k :| 0 <= k < |frags| && frags[k].node == n && frags[k].trig == t;
    assert (frags + [f])[k] == frags[k];
  }

  lemma PassedGrows(frags: seq<Fragment>, f: Fragment, n: nat, t: nat)
    requires Passed(frags, n, t)
    ensures Passed(frags + [f], n, t)
  {
    var k :| 0 <= k < |frags| && frags[k].node == n && frags[k].trig >= t;
    assert (frags + [f])[k] == frags[k];
  }

  lemma FirstGrows(frags: seq<Fragment>, f: Fragment, t: nat)
    ensures First(frags, t) < |frags| ==> First(frags + [f], t) == First(frags, t)
    ensures First(frags, t) == |frags| && f.trig == t ==> First(frags + [f], t) == |frags|
  {
  }

  lemma WitnessedGrows(nodes: seq<nat>, frags: seq<Fragment>, f: Fragment, buf: seq<Event>)
    requires AllWitnessed(nodes, frags, buf)
    ensures AllWitnessed(nodes, frags + [f], buf)
  {
    forall k | 0 <= k < |buf| ensures Witnessed(nodes, frags + [f], buf[k]) {
      assert Witnessed(nodes, frags, buf[k]);
      forall n | n in buf[k].node ensures Delivered(frags + [f], n, buf[k].number) {
        DeliveredGrows(frags, f, n, buf[k].number);
      }
    }
  }

  lemma OrderGrows(frags: seq<Fragment>, f: Fragment, buf: seq<Event>)
    requires InArrivalOrder(frags, buf)
    ensures InArrivalOrder(frags + [f], buf)
  {
    forall k | 0 <= k < |buf|
      ensures First(frags + [f], buf[k].number) == First(frags, buf[k].number)
              && Opened(frags + [f], buf[k])
    {
      assert Opened(frags, buf[k]);
      FirstGrows(frags, f, buf[k].number);
    }
  }

  lemma AllPassedGrows(nodes: seq<nat>, frags: seq<Fragment>, f: Fragment, sent: seq<Event>)
    requires AllPassed(nodes, frags, sent)
    ensures AllPassed(nodes, frags + [f], sent)
  {
    forall k, n | 0 <= k < |sent| && n in nodes
      ensures Passed(frags + [f], n, sent[k].number)
    {
      PassedGrows(frags, f, n, sent[k].number);
    }
  }

  /** A number that every node has passed cannot arrive any more. */
  lemma NotAgain(nodes: seq<nat>, frags: seq<Fragment>, f: Fragment, t: nat)
    requires Increasing(nodes, frags + [f]) && Passed(frags, f.node, t)
    ensures f.trig > t
  {
    var k :| 0 <= k < |frags| && frags[k].node == f.node && frags[k].trig >= t;
    var all := frags + [f];
    assert all[k] == frags[k] && all[|frags|] == f;
  }

  lemma DeliveredIsPassed(frags: seq<Fragment>, n: nat, t: nat, u: nat)
    requires Delivered(frags, n, t) && u <= t
    ensures Passed(frags, n, u)
  {
  }

  lemma ArrivesNow(nodes: seq<nat>, frags: seq<Fragment>, f: Fragment)
    requires Increasing(nodes, frags + [f])
    ensures f.node in nodes && Delivered(frags + [f], f.node, f.trig)
  {
    assert (frags + [f])[|frags|] == f;
  }

  /** What is new arrives for the first time, since everything earlier is known. */
  lemma NewIsFirst(c: Config, frags: seq<Fragment>, f: Fragment, s: State)
    requires Sound(c, frags, s) && Increasing(c.nodes, frags + [f])
    requires !Has(s.buf, f.trig)
    ensures !Has(s.sent, f.trig)
    ensures First(frags, f.trig) == |frags|
  {
    ArrivesNow(c.nodes, frags, f);
    if k :| 0 <= k < |s.sent| && s.sent[k].number == f.trig {
      assert Passed(frags, f.node, s.sent[k].number);
      NotAgain(c.nodes, frags, f, f.trig);
    }
    assert !(Has(s.buf, f.trig) || Has(s.sent, f.trig));
    assert forall i :: 0 <= i < |frags| ==> frags[i].trig != f.trig;
  }

  lemma FindHas(buf: seq<Event>, t: nat)
    ensures Has(buf, t) <==> Find(buf, t) < |buf|
  {
  }

  lemma HasAppend(es: seq<Event>, e: Event, t: nat)
    ensures Has(es + [e], t) <==> Has(es, t) || e.number == t
  {
    var all := es + [e];
    if k :| 0 <= k < |es| && es[k].number == t { assert all[k].number == t; }
    if e.number == t { assert all[|es|].number == t; }
  }

  lemma KnownNext(frags: seq<Fragment>, f: Fragment, s: State, next: State)
    requires Known(frags, s)
    requires forall t :: Has(s.buf, t) || Has(s.sent, t) || t == f.trig ==> Has(next.buf, t) || Has(next.sent, t)
    ensures Known(frags + [f], next)
  {
  }

  /** A new number is queued, behind all older entries; one node sends it at once. */
  lemma QueueStep(c: Config, frags: seq<Fragment>, f: Fragment, s: State)
    requires c.nodes != [] && NoRepeat(c.nodes) && Sound(c, frags, s)
    requires Increasing(c.nodes, frags + [f]) && !Has(s.buf, f.trig)
    ensures Sound(c, frags + [f], Queued(c, s, f))
  {
    var now := frags + [f];
    NewIsFirst(c, frags, f, s);
    ArrivesNow(c.nodes, frags, f);
    WitnessedGrows(c.nodes, frags, f, s.buf);
    OrderGrows(frags, f, s.buf);
    AllPassedGrows(c.nodes, frags, f, s.sent);
    FirstGrows(frags, f, f.trig);
    QueuedKnown(c, frags, f, s);
    if |c.nodes| == 1 {
      OnlyNode(c.nodes, frags, f);
      AppendSent(c.nodes, now, s, Fresh(f));
    } else {
      AppendApart(s, Fresh(f));
      AppendWitnessed(c.nodes, now, s.buf, f);
      AppendInOrder(now, s.buf, f);
    }
  }

  lemma QueuedKnown(c: Config, frags: seq<Fragment>, f: Fragment, s: State)
    requires Known(frags, s)
    ensures Known(frags + [f], Queued(c, s, f))
  {
    var next := Queued(c, s, f);
    forall t | Has(s.buf, t) || Has(s.sent, t) || t == f.trig
      ensures Has(next.buf, t) || Has(next.sent, t)
    {
      HasAppend(s.buf, Fresh(f), t);
      HasAppend(s.sent, Fresh(f), t);
    }
    KnownNext(frags, f, s, next);
  }

  lemma OnlyNode(nodes: seq<nat>, frags: seq<Fragment>, f: Fragment)
    requires |nodes| == 1 && f.node in nodes
    ensures forall n :: n in nodes ==> Passed(frags + [f], n, f.trig)
  {
    forall n | n in nodes ensures Passed(frags + [f], n, f.trig) {
      assert n == nodes[0] == f.node;
      assert (frags + [f])[|frags|] == f;
    }
  }

  lemma AppendSent(nodes: seq<nat>, frags: seq<Fragment>, s: State, e: Event)
    requires Distinct(s.sent) && Apart(s.sent, s.buf) && AllPassed(nodes, frags, s.sent)
    requires !Has(s.sent, e.number) && !Has(s.buf, e.number)
    requires forall n :: n in nodes ==> Passed(frags, n, e.number)
    ensures Distinct(s.sent + [e]) && Apart(s.sent + [e], s.buf) && AllPassed(nodes, frags, s.sent + [e])
  {
  }

  lemma AppendApart(s: State, e: Event)
    requires Distinct(s.buf) && Apart(s.sent, s.buf)
    requires !Has(s.sent, e.number) && !Has(s.buf, e.number)
    ensures Distinct(s.buf + [e]) && Apart(s.sent, s.buf + [e])
  {
  }

  lemma AppendWitnessed(nodes: seq<nat>, frags: seq<Fragment>, buf: seq<Event>, f: Fragment)
    requires AllWitnessed(nodes, frags, buf)
    requires f.node in nodes && Delivered(frags, f.node, f.trig)
    ensures AllWitnessed(nodes, frags, buf + [Fresh(f)])
  {
  }

  lemma OpenedAt(frags: seq<Fragment>, buf: seq<Event>, k: nat)
    requires k < |buf| && InArrivalOrder(frags, buf)
    ensures Opened(frags, buf[k])
  {
  }

  lemma NotLast(frags: seq<Fragment>, t: nat, f: Fragment)
    requires frags != [] && frags[|frags| - 1] == f && t != f.trig && First(frags, t) < |frags|
    ensures First(frags, t) < |frags| - 1
  {
  }

  lemma AppendInOrder(frags: seq<Fragment>, buf: seq<Event>, f: Fragment)
    requires InArrivalOrder(frags, buf) && !Has(buf, f.trig)
    requires frags != [] && First(frags, f.trig) == |frags| - 1 && frags[|frags| - 1] == f
    ensures InArrivalOrder(frags, buf + [Fresh(f)])
  {
    assert Opened(frags, Fresh(f));
    forall a | 0 <= a < |buf| ensures First(frags, buf[a].number) < First(frags, f.trig) {
      assert Opened(frags, buf[a]);
      NotLast(frags, buf[a].number, f);
    }
  }

  /** The entry takes in a node it did not list, since that node never repeats a number. */
  lemma FillStep(c: Config, frags: seq<Fragment>, f: Fragment, s: State, i: nat)
    requires Sound(c, frags, s) && Increasing(c.nodes, frags + [f])
    requires i < |s.buf| && s.buf[i].number == f.trig
    ensures Sound(c, frags + [f], State(s.buf[i := Add(s.buf[i], f)], s.sent))
  {
    var e := s.buf[i];
    var buf := s.buf[i := Add(e, f)];
    ArrivesNow(c.nodes, frags, f);
    assert Witnessed(c.nodes, frags, e);
    if f.node in e.node {
      DeliveredIsPassed(frags, f.node, f.trig, f.trig);
      NotAgain(c.nodes, frags, f, f.trig);
    }
    WitnessedGrows(c.nodes, frags, f, s.buf);
    OrderGrows(frags, f, s.buf);
    AllPassedGrows(c.nodes, frags, f, s.sent);
    assert Witnessed(c.nodes, frags + [f], s.buf[i]);
    assert Witnessed(c.nodes, frags + [f], Add(e, f));
    OpenedAt(frags + [f], s.buf, i);
    assert Add(e, f).node[0] == e.node[0];
    forall t ensures Has(buf, t) <==> Has(s.buf, t) { SameNumbers(s.buf, i, Add(e, f), t); }
    assert Has(s.buf, f.trig);
    KnownNext(frags, f, s, State(buf, s.sent));
  }

  lemma SameNumbers(buf: seq<Event>, i: nat, e: Event, t: nat)
    requires i < |buf| && e.number == buf[i].number
    ensures Has(buf[i := e], t) <==> Has(buf, t)
  {
    if k :| 0 <= k < |buf| && buf[k].number == t { assert buf[i := e][k].number == t; }
    var changed := buf[i := e];
    if k :| 0 <= k < |changed| && changed[k].number == t { assert buf[k].number == t; }
  }

  /**
   A full entry was delivered by every node, so every node is past it; and whatever
   stands before it in the buffer is lower-numbered.
   */
  lemma FullIsPassed(c: Config, frags: seq<Fragment>, s: State, i: nat)
    requires Sound(c, frags, s) && Increasing(c.nodes, frags)
    requires i < |s.buf| && |s.buf[i].node| >= |c.nodes|
    ensures forall n :: n in c.nodes ==> Delivered(frags, n, s.buf[i].number)
    ensures Precede(s.buf, i)
  {
    var e := s.buf[i];
    assert Witnessed(c.nodes, frags, e);
    Pigeonhole(e.node, c.nodes);
    forall j | 0 <= j < i ensures s.buf[j].number < e.number {
      assert Opened(frags, s.buf[j]) && Witnessed(c.nodes, frags, s.buf[j]);
      var x, p := s.buf[j].node[0], First(frags, s.buf[j].number);
      var q :| 0 <= q < |frags| && frags[q].node == x && frags[q].trig == e.number;
      assert p < First(frags, e.number) <= q;
    }
  }

  /** Sending the prefix and keeping the suffix keeps everything sound. */
  lemma FlushStep(c: Config, frags: seq<Fragment>, s: State, i: nat)
    requires Sound(c, frags, s) && Increasing(c.nodes, frags)
    requires i < |s.buf| && |s.buf[i].node| >= |c.nodes|
    ensures Sound(c, frags, State(s.buf[i + 1..], s.sent + s.buf[..i + 1]))
  {
    FullIsPassed(c, frags, s, i);
    SplitApart(s, i);
    FlushPassed(c.nodes, frags, s, i);
    FlushKnown(frags, s, i);
    SuffixSound(c.nodes, frags, s.buf, i);
  }

  lemma SplitApart(s: State, i: nat)
    requires i < |s.buf| && Distinct(s.buf) && Distinct(s.sent) && Apart(s.sent, s.buf)
    ensures Distinct(s.buf[i + 1..]) && Distinct(s.sent + s.buf[..i + 1])
    ensures Apart(s.sent + s.buf[..i + 1], s.buf[i + 1..])
  {
  }

  lemma SuffixSound(nodes: seq<nat>, frags: seq<Fragment>, buf: seq<Event>, i: nat)
    requires i < |buf| && AllWitnessed(nodes, frags, buf) && InArrivalOrder(frags, buf)
    ensures AllWitnessed(nodes, frags, buf[i + 1..]) && InArrivalOrder(frags, buf[i + 1..])
  {
  }

  lemma FlushPassed(nodes: seq<nat>, frags: seq<Fragment>, s: State, i: nat)
    requires i < |s.buf| && Precede(s.buf, i) && AllPassed(nodes, frags, s.sent)
    requires forall n :: n in nodes ==> Delivered(frags, n, s.buf[i].number)
    ensures AllPassed(nodes, frags, s.sent + s.buf[..i + 1])
  {
  }

  lemma FlushKnown(frags: seq<Fragment>, s: State, i: nat)
    requires i < |s.buf| && Known(frags, s)
    ensures Known(frags, State(s.buf[i + 1..], s.sent + s.buf[..i + 1]))
  {
    forall k | 0 <= k < |frags|
      ensures Has(s.buf[i + 1..], frags[k].trig) || Has(s.sent + s.buf[..i + 1], frags[k].trig)
    {
      MovedHas(s, i, frags[k].trig);
    }
  }

  lemma MovedHas(s: State, i: nat, t: nat)
    requires i < |s.buf| && (Has(s.buf, t) || Has(s.sent, t))
    ensures Has(s.buf[i + 1..], t) || Has(s.sent + s.buf[..i + 1], t)
  {
    var buf, sent := s.buf[i + 1..], s.sent + s.buf[..i + 1];
    if k :| 0 <= k < |s.sent| && s.sent[k].number == t {
      assert sent[k].number == t;
    } else {
      var k :| 0 <= k < |s.buf| && s.buf[k].number == t;
      if k <= i {
        assert sent[|s.sent| + k].number == t;
      } else {
        assert buf[k - i - 1].number == t;
      }
    }
  }

  /** One step of a run, given that its completion erases what it sends. */
  lemma SoundStep(c: Config, frags: seq<Fragment>, f: Fragment, s: State, all: seq<Fragment>, next: State)
    requires c.nodes != [] && NoRepeat(c.nodes) && Sound(c, frags, s)
    requires all == frags + [f] && next == Receive(c, s, f)
    requires Increasing(c.nodes, all) && FitsStep(c, s, f)
    requires c.rule == AsCommented || CleanStep(c, s, f)
    ensures Sound(c, all, next)
  {
    var i := Find(s.buf, f.trig);
    FindHas(s.buf, f.trig);
    if i < |s.buf| {
      FillStep(c, frags, f, s, i);
      var buf := s.buf[i := Add(s.buf[i], f)];
      if |buf[i].node| >= |c.nodes| {
        FullIsPassed(c, all, State(buf, s.sent), i);
        PrefixFlush(buf, i);
        WrittenMeetsComment(buf, i);
        FlushStep(c, all, State(buf, s.sent), i);
      }
    } else {
      QueueStep(c, frags, f, s);
    }
  }

  lemma {:induction false} FitsPrefix(c: Config, frags: seq<Fragment>, n: nat)
    requires n <= |frags| && Fits(c, frags)
    ensures Fits(c, frags[..n])
  {
    var last := |frags| - 1;
    if n <= last {
      FitsPrefix(c, frags[..last], n);
      assert frags[..last][..n] == frags[..n];
    } else {
      assert frags[..n] == frags;
    }
  }

  lemma IncreasingPrefix(nodes: seq<nat>, frags: seq<Fragment>, n: nat)
    requires n <= |frags| && Increasing(nodes, frags)
    ensures Increasing(nodes, frags[..n])
  {
  }

  lemma {:induction false} RunSound(c: Config, frags: seq<Fragment>, s: State)
    requires c.nodes != [] && NoRepeat(c.nodes) && Increasing(c.nodes, frags) && Fits(c, frags)
    requires c.rule == AsCommented || Clean(c, frags)
    requires s == Run(c, frags)
    ensures Sound(c, frags, s)
  {
    if frags != [] {
      var k := |frags| - 1;
      var front, f := frags[..k], frags[k];
      var before := Run(c, front);
      IncreasingPrefix(c.nodes, frags, k);
      RunSound(c, front, before);
      LastStep(c, frags);
      SoundStep(c, front, f, before, frags, s);
    }
  }

  /** Nothing is sent twice, what is sent has left the buffer, and every node is past it. */
  lemma AtMostOnce(c: Config, frags: seq<Fragment>)
    requires c.nodes != [] && NoRepeat(c.nodes) && Increasing(c.nodes, frags) && Fits(c, frags)
    requires c.rule == AsCommented || Clean(c, frags)
    ensures Distinct(Run(c, frags).sent) && Apart(Run(c, frags).sent, Run(c, frags).buf)
    ensures AllPassed(c.nodes, frags, Run(c, frags).sent)
  {
    RunSound(c, frags, Run(c, frags));
  }

  /** With one node everything is sent on arrival and nothing is ever buffered. */
  lemma {:induction false} SingleNodeRun(c: Config, frags: seq<Fragment>)
    requires |c.nodes| == 1
    ensures Run(c, frags) == State([], seq(|frags|, k requires 0 <= k < |frags| => Fresh(frags[k])))
  {
    if frags != [] {
      SingleNodeRun(c, frags[..|frags| - 1]);
    }
  }

  /** An unclean completion leaves an event in the buffer that it has sent. */
  lemma UncleanStep(c: Config, frags: seq<Fragment>, f: Fragment, s: State)
    requires c.rule == AsWritten && Sound(c, frags, s) && Increasing(c.nodes, frags + [f])
    requires |s.buf| <= c.maxDepth && !CleanStep(c, s, f)
    ensures !Apart(Receive(c, s, f).sent, Receive(c, s, f).buf)
    ensures |Receive(c, s, f).buf| < c.maxDepth
  {
    var i := Find(s.buf, f.trig);
    FillStep(c, frags, f, s, i);
    var buf := s.buf[i := Add(s.buf[i], f)];
    FullIsPassed(c, frags + [f], State(buf, s.sent), i);
    var m := WrittenErrs(buf, i);
    ErasedDistinct(AsWritten, buf, i);
    InBoth(s.sent + Flushed(buf, i), Erased(AsWritten, buf, i), buf[m]);
  }

  lemma RunNext(c: Config, frags: seq<Fragment>, k: nat)
    requires k < |frags|
    ensures Run(c, frags[..k + 1]) == Receive(c, Run(c, frags[..k]), frags[k])
  {
    assert frags[..k + 1][..k] == frags[..k];
  }

  lemma IncreasingNext(nodes: seq<nat>, frags: seq<Fragment>, k: nat)
    requires k < |frags| && Increasing(nodes, frags)
    ensures Increasing(nodes, frags[..k] + [frags[k]])
  {
  }

  lemma UncleanKeepsSent(c: Config, frags: seq<Fragment>, k: nat)
    requires c.rule == AsWritten && |c.nodes| >= 2 && NoRepeat(c.nodes)
    requires Increasing(c.nodes, frags) && Fits(c, frags)
    requires k < |frags| && Clean(c, frags[..k]) && !CleanStep(c, Run(c, frags[..k]), frags[k])
    ensures !Apart(Run(c, frags[..k + 1]).sent, Run(c, frags[..k + 1]).buf)
    ensures |Run(c, frags[..k + 1]).buf| < c.maxDepth
  {
    var s := Run(c, frags[..k]);
    assert Sound(c, frags[..k], s) by {
      FitsPrefix(c, frags, k);
      IncreasingPrefix(c.nodes, frags, k);
      RunSound(c, frags[..k], s);
    }
    assert |s.buf| <= c.maxDepth by {
      BufferInvariant(c, frags[..k]);
    }
    IncreasingNext(c.nodes, frags, k);
    UncleanStep(c, frags[..k], frags[k], s);
    RunNext(c, frags, k);
  }

  lemma InBoth(a: seq<Event>, b: seq<Event>, e: Event)
    requires e in a && e in b
    ensures !Apart(a, b)
  {
  }

  /** What was sent stays out of the buffer all along if and only if the run is clean. */
  lemma SentLeavesIff(c: Config, frags: seq<Fragment>)
    requires c.rule == AsWritten && |c.nodes| >= 2 && NoRepeat(c.nodes)
    requires Increasing(c.nodes, frags) && Fits(c, frags)
    ensures Clean(c, frags) <==>
            forall n :: 0 <= n <= |frags| ==> Apart(Run(c, frags[..n]).sent, Run(c, frags[..n]).buf)
  {
    if Clean(c, frags) {
      forall n | 0 <= n <= |frags| ensures Apart(Run(c, frags[..n]).sent, Run(c, frags[..n]).buf) {
        CleanPrefix(c, frags, n);
        FitsPrefix(c, frags, n);
        IncreasingPrefix(c.nodes, frags, n);
        AtMostOnce(c, frags[..n]);
      }
    } else {
      var k := FirstUnclean(c, frags);
      UncleanKeepsSent(c, frags, k);
    }
  }

  /** All nodes deliver one more trigger, in the order of the node list. */
  function Closing(nodes: seq<nat>, trig: nat, n: nat): seq<Fragment>
    requires n <= |nodes|
  {
    seq(n, j requires 0 <= j < n => Fragment(nodes[j], trig, []))
  }

  lemma BelowWithin(es: seq<Event>, buf: seq<Event>, top: nat)
    requires Below(buf, top) && forall e :: e in es ==> e in buf
    ensures Below(es, top)
  {
    forall k | 0 <= k < |es| ensures es[k].number < top {
      assert es[k] in buf;
    }
  }

  lemma ReceiveBelow(c: Config, s: State, f: Fragment, top: nat)
    requires Distinct(s.buf) && Below(s.buf, top) && f.trig < top
    ensures Below(Receive(c, s, f).buf, top)
  {
    var i := Find(s.buf, f.trig);
    if i < |s.buf| {
      var buf := s.buf[i := Add(s.buf[i], f)];
      ErasedDistinct(c.rule, buf, i);
      if |buf[i].node| >= |c.nodes| {
        BelowWithin(Erased(c.rule, buf, i), buf, top);
      }
    }
  }

  lemma {:induction false} BufferBelow(c: Config, frags: seq<Fragment>, top: nat)
    requires forall k :: 0 <= k < |frags| ==> frags[k].trig < top
    ensures Below(Run(c, frags).buf, top)
  {
    if frags != [] {
      var k := |frags| - 1;
      BufferBelow(c, frags[..k], top);
      RunDistinct(c, frags[..k]);
      ReceiveBelow(c, Run(c, frags[..k]), frags[k], top);
    }
  }

  /** State t is s with an entry numbered top at the end, listing n nodes. */
  predicate Waits(s: State, t: State, top: nat, n: nat) {
    t.sent == s.sent && |t.buf| == |s.buf| + 1 && t.buf[..|s.buf|] == s.buf
    && t.buf[|s.buf|].number == top && |t.buf[|s.buf|].node| == n
  }

  predicate Below(buf: seq<Event>, top: nat) {
    forall k :: 0 <= k < |buf| ==> buf[k].number < top
  }

  lemma FindsLast(front: seq<Event>, buf: seq<Event>, top: nat)
    requires |buf| == |front| + 1 && buf[..|front|] == front && buf[|front|].number == top
    requires Below(front, top)
    ensures Find(buf, top) == |front|
  {
  }

  lemma WaitMore(c: Config, s: State, t: State, f: Fragment, n: nat)
    requires Waits(s, t, f.trig, n) && n + 1 < |c.nodes| && Below(s.buf, f.trig)
    ensures Waits(s, Receive(c, t, f), f.trig, n + 1) && FitsStep(c, t, f)
  {
  }

  /** The last node completes it, and everything still buffered goes out with it. */
  lemma WaitOver(c: Config, s: State, t: State, f: Fragment)
    requires c.nodes != [] && Waits(s, t, f.trig, |c.nodes| - 1) && Below(s.buf, f.trig)
    ensures s.sent + s.buf <= Receive(c, t, f).sent && FitsStep(c, t, f)
  {
    var i := |s.buf|;
    FindsLast(s.buf, t.buf, f.trig);
    FlushesAll(s.buf, t.buf, Add(t.buf[i], f));
    assert s.sent + (s.buf + [Add(t.buf[i], f)]) == s.sent + s.buf + [Add(t.buf[i], f)];
  }

  lemma FlushesAll(front: seq<Event>, buf: seq<Event>, full: Event)
    requires |buf| == |front| + 1 && buf[..|front|] == front && Below(front, full.number)
    ensures Flushed(buf[|front| := full], |front|) == front + [full]
  {
    var all := buf[|front| := full];
    assert all == front + [full] by {
      assert all[..|front|] == buf[..|front|];
    }
    FilterAll(all, full.number);
    assert all[..|front| + 1] == all;
  }

  /** Each closing round is the one before and one fragment more. */
  lemma ClosingNext(c: Config, frags: seq<Fragment>, top: nat, n: nat)
    requires 1 <= n <= |c.nodes|
    ensures frags + Closing(c.nodes, top, n)
            == frags + Closing(c.nodes, top, n - 1) + [Fragment(c.nodes[n - 1], top, [])]
  {
  }

  /** All the fragments so far have left s with an entry for n nodes at the end. */
  ghost predicate ClosingAt(c: Config, all: seq<Fragment>, s: State, top: nat, n: nat) {
    Fits(c, all) && Waits(s, Run(c, all), top, n)
  }

  lemma ClosingFirst(c: Config, frags: seq<Fragment>, s: State, f: Fragment, next: seq<Fragment>)
    requires |c.nodes| >= 2 && s == Run(c, frags) && Fits(c, frags)
    requires |s.buf| < c.maxDepth && Below(s.buf, f.trig) && next == frags + [f]
    ensures ClosingAt(c, next, s, f.trig, 1)
  {
    AppendStep(c, frags, f);
    QueueNew(c, s, f);
  }

  lemma ClosingMore(c: Config, all: seq<Fragment>, s: State, f: Fragment, n: nat, next: seq<Fragment>)
    requires n + 1 < |c.nodes| && Below(s.buf, f.trig) && ClosingAt(c, all, s, f.trig, n) && next == all + [f]
    ensures ClosingAt(c, next, s, f.trig, n + 1)
  {
    AppendStep(c, all, f);
    WaitMore(c, s, Run(c, all), f, n);
  }

  /** Until the last node, the closing trigger waits at the end of the buffer. */
  lemma {:induction false} ClosingWaits(c: Config, frags: seq<Fragment>, s: State, top: nat, n: nat)
    requires 1 <= n < |c.nodes| && s == Run(c, frags) && Fits(c, frags)
    requires |s.buf| < c.maxDepth && Below(s.buf, top)
    ensures ClosingAt(c, frags + Closing(c.nodes, top, n), s, top, n)
  {
    var f, next := Fragment(c.nodes[n - 1], top, []), frags + Closing(c.nodes, top, n);
    ClosingNext(c, frags, top, n);
    if n == 1 {
      assert frags + Closing(c.nodes, top, 0) == frags;
      ClosingFirst(c, frags, s, f, next);
    } else {
      ClosingWaits(c, frags, s, top, n - 1);
      ClosingMore(c, frags + Closing(c.nodes, top, n - 1), s, f, n - 1, next);
    }
  }

  lemma ClosingLast(c: Config, all: seq<Fragment>, s: State, f: Fragment, whole: seq<Fragment>)
    requires c.nodes != [] && Below(s.buf, f.trig) && ClosingAt(c, all, s, f.trig, |c.nodes| - 1)
    requires whole == all + [f]
    ensures s.sent + s.buf <= Run(c, whole).sent && Fits(c, whole)
  {
    AppendStep(c, all, f);
    WaitOver(c, s, Run(c, all), f);
  }

  lemma ClosingEnds(c: Config, frags: seq<Fragment>, s: State, top: nat, n: nat, whole: seq<Fragment>)
    requires 1 <= n == |c.nodes| - 1 && s == Run(c, frags) && Fits(c, frags)
    requires |s.buf| < c.maxDepth && Below(s.buf, top)
    requires whole == frags + Closing(c.nodes, top, n) + [Fragment(c.nodes[n], top, [])]
    ensures s.sent + s.buf <= Run(c, whole).sent && Fits(c, whole)
  {
    ClosingWaits(c, frags, s, top, n);
    ClosingLast(c, frags + Closing(c.nodes, top, n), s, Fragment(c.nodes[n], top, []), whole);
  }

  lemma ClosingFlushes(c: Config, frags: seq<Fragment>, s: State, top: nat)
    requires |c.nodes| >= 2 && s == Run(c, frags) && Fits(c, frags)
    requires |s.buf| < c.maxDepth && Below(s.buf, top)
    ensures s.sent + s.buf <= Run(c, frags + Closing(c.nodes, top, |c.nodes|)).sent
    ensures Fits(c, frags + Closing(c.nodes, top, |c.nodes|))
  {
    ClosingNext(c, frags, top, |c.nodes|);
    ClosingEnds(c, frags, s, top, |c.nodes| - 1, frags + Closing(c.nodes, top, |c.nodes|));
  }

  lemma ClosingIncreasing(nodes: seq<nat>, frags: seq<Fragment>, top: nat)
    requires NoRepeat(nodes) && Increasing(nodes, frags)
    requires forall k :: 0 <= k < |frags| ==> frags[k].trig < top
    ensures Increasing(nodes, frags + Closing(nodes, top, |nodes|))
  {
  }

  lemma {:induction false} HigherThanAll(frags: seq<Fragment>) returns (top: nat)
    ensures forall k :: 0 <= k < |frags| ==> frags[k].trig < top
  {
    top := 0;
    if frags != [] {
      var t := HigherThanAll(frags[..|frags| - 1]);
      top := t + frags[|frags| - 1].trig + 1;
    }
  }

  predicate Higher(frags: seq<Fragment>, top: nat) {
    forall k :: 0 <= k < |frags| ==> frags[k].trig < top
  }

  /** The run up to k, closed by one more, higher trigger from every node. */
  function Closed(c: Config, frags: seq<Fragment>, k: nat, top: nat): seq<Fragment>
    requires k <= |frags|
  {
    frags[..k] + Closing(c.nodes, top, |c.nodes|)
  }

  /**
   After an unclean completion one more trigger from every node is enough to send an
   event number twice, in a run that is still increasing.
   */
  lemma UncleanResends(c: Config, frags: seq<Fragment>) returns (k: nat, top: nat)
    requires c.rule == AsWritten && |c.nodes| >= 2 && NoRepeat(c.nodes)
    requires Increasing(c.nodes, frags) && Fits(c, frags) && !Clean(c, frags)
    ensures k <= |frags| && Higher(frags[..k], top) && Increasing(c.nodes, Closed(c, frags, k, top))
    ensures Fits(c, Closed(c, frags, k, top)) && !Distinct(Run(c, Closed(c, frags, k, top)).sent)
  {
    k := FirstUnclean(c, frags);
    UncleanKeepsSent(c, frags, k);
    k := k + 1;
    IncreasingPrefix(c.nodes, frags, k);
    FitsPrefix(c, frags, k);
    var p := frags[..k];
    var s := Run(c, p);
    top := HigherThanAll(p);
    BufferBelow(c, p, top);
    ClosingFlushes(c, p, s, top);
    ClosingIncreasing(c.nodes, p, top);
    Repeats(s, Run(c, Closed(c, frags, k, top)).sent);
  }

  /** A completion at the end of the buffer looks up nothing that has moved. */
  lemma LastSlotAgrees(buf: seq<Event>)
    requires buf != [] && Precede(buf, |buf| - 1)
    ensures SlotsAgree(buf, |buf| - 1)
  {
    var i := |buf| - 1;
    forall j | 0 <= j < i ensures Agrees(buf, i, j) {
      SafeIsAgreement(buf, i, j);
    }
  }

  /** The closing trigger completes where it waits: at the end of the buffer. */
  lemma WaitOverClean(c: Config, s: State, t: State, f: Fragment)
    requires c.nodes != [] && Waits(s, t, f.trig, |c.nodes| - 1) && Below(s.buf, f.trig)
    ensures CleanStep(c, t, f)
  {
    FindsLast(s.buf, t.buf, f.trig);
    var buf := t.buf[|s.buf| := Add(t.buf[|s.buf|], f)];
    assert forall j :: 0 <= j < |s.buf| ==> buf[j] == t.buf[..|s.buf|][j];
    LastSlotAgrees(buf);
  }

  /** The closing trigger is new, or waits for another node: nothing completes. */
  lemma NotYet(c: Config, s: State, t: State, f: Fragment, n: nat)
    requires Below(s.buf, f.trig) && n + 1 < |c.nodes| && (if n == 0 then t == s else Waits(s, t, f.trig, n))
    ensures CleanStep(c, t, f)
  {
    if n > 0 {
      FindsLast(s.buf, t.buf, f.trig);
    }
  }

  lemma {:induction false} ClosingClean(c: Config, frags: seq<Fragment>, s: State, top: nat, n: nat)
    requires n <= |c.nodes| && |c.nodes| >= 2 && s == Run(c, frags) && Fits(c, frags) && Clean(c, frags)
    requires |s.buf| < c.maxDepth && Below(s.buf, top)
    ensures Clean(c, frags + Closing(c.nodes, top, n))
  {
    if n == 0 {
      assert frags + Closing(c.nodes, top, 0) == frags;
    } else {
      ClosingClean(c, frags, s, top, n - 1);
      var front, f := frags + Closing(c.nodes, top, n - 1), Fragment(c.nodes[n - 1], top, []);
      ClosingNext(c, frags, top, n);
      if n > 1 {
        ClosingWaits(c, frags, s, top, n - 1);
      } else {
        assert front == frags;
      }
      if n < |c.nodes| {
        NotYet(c, s, Run(c, front), f, n - 1);
      } else {
        WaitOverClean(c, s, Run(c, front), f);
      }
      AppendStep(c, front, f);
    }
  }

  /** A closing round that fits finds room for its entry. */
  lemma RoomToClose(c: Config, frags: seq<Fragment>, top: nat)
    requires |c.nodes| >= 2 && Below(Run(c, frags).buf, top) && Fits(c, frags + Closing(c.nodes, top, |c.nodes|))
    ensures Fits(c, frags) && |Run(c, frags).buf| < c.maxDepth
  {
    var all, one := frags + Closing(c.nodes, top, |c.nodes|), frags + Closing(c.nodes, top, 1);
    assert all[..|frags| + 1] == one;
    FitsPrefix(c, all, |frags| + 1);
    ClosingNext(c, frags, top, 1);
    assert frags + Closing(c.nodes, top, 0) == frags;
    AppendStep(c, frags, Fragment(c.nodes[0], top, []));
  }

  /** No closing round of the run up to k sends anything twice. */
  ghost predicate ClosesOnce(c: Config, frags: seq<Fragment>, k: nat, top: nat)
    requires k <= |frags|
  {
    Higher(frags[..k], top) && Fits(c, Closed(c, frags, k, top)) ==> Distinct(Run(c, Closed(c, frags, k, top)).sent)
  }

  lemma CleanClosesOnce(c: Config, frags: seq<Fragment>, k: nat, top: nat)
    requires c.rule == AsWritten && |c.nodes| >= 2 && NoRepeat(c.nodes)
    requires Increasing(c.nodes, frags) && Clean(c, frags) && k <= |frags|
    ensures ClosesOnce(c, frags, k, top)
  {
    var p, all := frags[..k], Closed(c, frags, k, top);
    if Higher(p, top) && Fits(c, all) {
      CleanPrefix(c, frags, k);
      IncreasingPrefix(c.nodes, frags, k);
      BufferBelow(c, p, top);
      RoomToClose(c, p, top);
      ClosingClean(c, p, Run(c, p), top, |c.nodes|);
      ClosingIncreasing(c.nodes, p, top);
      AtMostOnce(c, all);
    }
  }

  /**
   The code sends nothing twice, in this run and however it is closed at any point, if and only if
   each completion of the run leaves slots that agree.
   */
  lemma AtMostOnceIff(c: Config, frags: seq<Fragment>)
    requires c.rule == AsWritten && |c.nodes| >= 2 && NoRepeat(c.nodes)
    requires Increasing(c.nodes, frags) && Fits(c, frags)
    ensures Clean(c, frags) <==>
            forall k: nat, top: nat :: k <= |frags| ==> ClosesOnce(c, frags, k, top)
  {
    if Clean(c, frags) {
      forall k: nat, top: nat | k <= |frags| ensures ClosesOnce(c, frags, k, top) {
        CleanClosesOnce(c, frags, k, top);
      }
    } else {
      var k, top := UncleanResends(c, frags);
      assert !ClosesOnce(c, frags, k, top);
    }
  }

  lemma Repeats(s: State, out: seq<Event>)
    requires !Apart(s.sent, s.buf) && s.sent + s.buf <= out
    ensures !Distinct(out)
  {
    var a, b :| 0 <= a < |s.sent| && 0 <= b < |s.buf| && s.sent[a].number == s.buf[b].number;
    var all := s.sent + s.buf;
    assert out[a] == all[a] && out[|s.sent| + b] == all[|s.sent| + b];
  }

  lemma AppendStep(c: Config, frags: seq<Fragment>, f: Fragment)
    ensures Run(c, frags + [f]) == Receive(c, Run(c, frags), f)
    ensures Fits(c, frags + [f]) <==> Fits(c, frags) && FitsStep(c, Run(c, frags), f)
    ensures Clean(c, frags + [f]) <==> Clean(c, frags) && CleanStep(c, Run(c, frags), f)
  {
  }

  lemma QueueNew(c: Config, s: State, f: Fragment)
    requires |c.nodes| >= 2 && |s.buf| < c.maxDepth
    requires forall k :: 0 <= k < |s.buf| ==> s.buf[k].number != f.trig
    ensures Receive(c, s, f) == State(s.buf + [Fresh(f)], s.sent) && FitsStep(c, s, f)
  {
  }

  lemma FillSecond(c: Config, s: State, f: Fragment)
    requires |s.buf| == 3 && s.buf[0].number != f.trig && s.buf[1].number == f.trig
    ensures Find(s.buf, f.trig) == 1 && FitsStep(c, s, f)
    ensures |s.buf[1].node| + 1 < |c.nodes| ==>
              Receive(c, s, f) == State([s.buf[0], Add(s.buf[1], f), s.buf[2]], s.sent)
  {
  }

  /** 5, 7 and 3 in the buffer with 7 complete: the erase loop would look at 3 for 5. */
  lemma UncleanSecond(c: Config, s: State, f: Fragment)
    requires |s.buf| == 3 && |s.buf[1].node| + 1 == |c.nodes|
    requires s.buf[0].number == 5 && s.buf[1].number == 7 == f.trig && s.buf[2].number == 3
    ensures FitsStep(c, s, f) && !CleanStep(c, s, f)
  {
    FillSecond(c, s, f);
    var buf := s.buf[1 := Add(s.buf[1], f)];
    SafeIsAgreement(buf, 1, 0);
    assert !Agrees(buf, 1, 0);
  }

  /**
   Such runs exist: node 1 delivers 5 and 7, node 2 delivers 3 and 7, node 3 delivers 7.
   The flush of 7 leaves 5 in the buffer, and the next common trigger sends 5 again.
   */
  lemma CodeCanResend() returns (c: Config, frags: seq<Fragment>)
    ensures c.rule == AsWritten && NoRepeat(c.nodes) && Increasing(c.nodes, frags) && Fits(c, frags)
    ensures !Distinct(Run(c, frags).sent)
  {
    c := Config([1, 2, 3], 1024, AsWritten);
    var s := Opening(c);
    frags := OpeningFragments() + [Fragment(3, 7, [])];
    AppendStep(c, OpeningFragments(), Fragment(3, 7, []));
    UncleanSecond(c, s, Fragment(3, 7, []));
    OpeningIncreasing();
    var k, top := UncleanResends(c, frags);
    frags := Closed(c, frags, k, top);
  }

  lemma OpeningIncreasing()
    ensures Increasing([1, 2, 3], OpeningFragments() + [Fragment(3, 7, [])])
  {
  }

  function OpeningFragments(): seq<Fragment> {
    [Fragment(1, 5, []), Fragment(1, 7, []), Fragment(2, 3, []), Fragment(2, 7, [])]
  }

  lemma Opening(c: Config) returns (s: State)
    requires |c.nodes| == 3 && c.maxDepth == 1024
    ensures s == Run(c, OpeningFragments()) && Fits(c, OpeningFragments())
    ensures |s.buf| == 3 && |s.buf[1].node| == 2
    ensures s.buf[0].number == 5 && s.buf[1].number == 7 && s.buf[2].number == 3
  {
    var all := OpeningFragments();
    assert all[..0] == [] && all[..1] == [] + [all[0]] && all[..2] == all[..1] + [all[1]];
    assert all[..3] == all[..2] + [all[2]] && all == all[..3] + [all[3]];
    s := EMPTY;
    AppendStep(c, [], all[0]);
    QueueNew(c, s, all[0]);
    s := State(s.buf + [Fresh(all[0])], s.sent);
    AppendStep(c, all[..1], all[1]);
    QueueNew(c, s, all[1]);
    s := State(s.buf + [Fresh(all[1])], s.sent);
    AppendStep(c, all[..2], all[2]);
    QueueNew(c, s, all[2]);
    s := State(s.buf + [Fresh(all[2])], s.sent);
    AppendStep(c, all[..3], all[3]);
    FillSecond(c, s, all[3]);
    s := State([s.buf[0], Add(s.buf[1], all[3]), s.buf[2]], s.sent);
  }
}
