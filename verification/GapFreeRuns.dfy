/**
 Runs in which every node delivers its triggers without a gap, in order and from the
 same start, interleaved in any way. The output is then fully determined.
 */
module GapFreeRuns {
  import opened Numbers
  import opened Events
  import opened EraseRules
  import opened Conservation

  predicate NoRepeat(s: seq<nat>) {
    forall a, b :: 0 <= a < b < |s| ==> s[a] != s[b]
  }

  function Members(s: seq<nat>): set<nat> {
    set x | x in s
  }

  lemma {:induction false} NoRepeatSize(s: seq<nat>)
    requires NoRepeat(s)
    ensures |Members(s)| == |s|
  {
    if s != [] {
      var k := |s| - 1;
      NoRepeatSize(s[..k]);
      assert Members(s) == Members(s[..k]) + {s[k]};
    }
  }

  /** |a| distinct members of an equally long b without repeats are all of b. */
  lemma Pigeonhole(a: seq<nat>, b: seq<nat>)
    requires NoRepeat(a) && |a| >= |b| && forall x :: x in a ==> x in b
    ensures forall x :: x in b ==> x in a
    ensures NoRepeat(b) ==> |a| == |b|
  {
    NoRepeatSize(a);
    DistinctAtMost(b);
    assert Members(a) <= Members(b);
    if Members(a) != Members(b) {
      Smaller(Members(a), Members(b));
    } else {
      forall x | x in b ensures x in a { assert x in Members(b); }
    }
    if NoRepeat(b) {
      NoRepeatSize(b);
    }
  }

  lemma {:induction false} DistinctAtMost(s: seq<nat>)
    ensures |Members(s)| <= |s|
  {
    if s != [] {
      var k := |s| - 1;
      DistinctAtMost(s[..k]);
      assert Members(s) == Members(s[..k]) + {s[k]};
    }
  }

  lemma Smaller(a: set<nat>, b: set<nat>)
    requires a < b
    ensures |a| < |b|
  {
    assert b == a + (b - a);
    assert b - a != {};
  }

  /** How many fragments node n has delivered. */
  function Count(frags: seq<Fragment>, n: nat): nat {
    if frags == [] then 0
    else Count(frags[..|frags| - 1], n) + if frags[|frags| - 1].node == n then 1 else 0
  }

  /** The count of the slowest node. */
  function Slowest(nodes: seq<nat>, frags: seq<Fragment>): nat
    requires nodes != []
  {
    var last := Count(frags, nodes[|nodes| - 1]);
    if |nodes| == 1 then last
    else Min(Slowest(nodes[..|nodes| - 1], frags), last)
  }

  /** The count of the fastest node. */
  function Fastest(nodes: seq<nat>, frags: seq<Fragment>): nat
    requires nodes != []
  {
    var last := Count(frags, nodes[|nodes| - 1]);
    if |nodes| == 1 then last
    else
      var rest := Fastest(nodes[..|nodes| - 1], frags);
      if rest >= last then rest else last
  }

  /** Every node's count lies between these two, and both are reached. */
  predicate Extremes(nodes: seq<nat>, frags: seq<Fragment>, slow: nat, fast: nat) {
    slow in nodes && fast in nodes
    && forall n :: n in nodes ==> Count(frags, slow) <= Count(frags, n) <= Count(frags, fast)
  }

  lemma {:induction false} ExtremesExist(nodes: seq<nat>, frags: seq<Fragment>) returns (slow: nat, fast: nat)
    requires nodes != []
    ensures Extremes(nodes, frags, slow, fast)
    ensures Slowest(nodes, frags) == Count(frags, slow) && Fastest(nodes, frags) == Count(frags, fast)
  {
    var k := |nodes| - 1;
    slow, fast := nodes[k], nodes[k];
    if k > 0 {
      var s, f := ExtremesExist(nodes[..k], frags);
      if Count(frags, s) <= Count(frags, slow) { slow := s; }
      if Count(frags, f) >= Count(frags, fast) { fast := f; }
      assert forall n :: n in nodes ==> n in nodes[..k] || n == nodes[k];
    }
  }

  lemma ExtremesAre(nodes: seq<nat>, frags: seq<Fragment>, slow: nat, fast: nat)
    requires Extremes(nodes, frags, slow, fast)
    ensures Slowest(nodes, frags) == Count(frags, slow) && Fastest(nodes, frags) == Count(frags, fast)
  {
    var s, f := ExtremesExist(nodes, frags);
  }

  /** The k-th fragment of each configured node carries trigger start + k. */
  predicate GapFree(nodes: seq<nat>, start: nat, frags: seq<Fragment>) {
    frags == [] ||
    var front, f := frags[..|frags| - 1], frags[|frags| - 1];
    GapFree(nodes, start, front) && f.node in nodes && f.trig == start + Count(front, f.node)
  }

  function Skew(nodes: seq<nat>, frags: seq<Fragment>): int
    requires nodes != []
  {
    Fastest(nodes, frags) - Slowest(nodes, frags)
  }

  /** The nodes never drift further apart than the depth limit. */
  predicate WithinSkew(c: Config, frags: seq<Fragment>)
    requires c.nodes != []
  {
    Skew(c.nodes, frags) <= c.maxDepth && (frags == [] || WithinSkew(c, frags[..|frags| - 1]))
  }

  /** Each piece of the event arrived as it is. */
  predicate Authentic(e: Event, frags: seq<Fragment>) {
    |e.node| == |e.data|
    && forall j :: 0 <= j < |e.node| ==> Fragment(e.node[j], e.number, e.data[j]) in frags
  }

  /** The event of the t-th trigger holds exactly the nodes that are past it. */
  ghost predicate HoldsPast(nodes: seq<nat>, frags: seq<Fragment>, e: Event, t: nat) {
    NoRepeat(e.node) && Authentic(e, frags)
    && (forall n :: n in e.node <==> n in nodes && Count(frags, n) > t)
  }

  /** One fragment from every configured node. */
  ghost predicate Complete(nodes: seq<nat>, e: Event) {
    NoRepeat(e.node) && |e.node| == |nodes| && forall n :: n in e.node <==> n in nodes
  }

  ghost predicate SentInOrder(nodes: seq<nat>, start: nat, frags: seq<Fragment>, sent: seq<Event>) {
    forall k :: 0 <= k < |sent| ==>
      sent[k].number == start + k && Complete(nodes, sent[k]) && Authentic(sent[k], frags)
  }

  /** The buffered triggers follow on from lo, one entry each. */
  ghost predicate BufferedFrom(nodes: seq<nat>, start: nat, frags: seq<Fragment>, buf: seq<Event>, lo: nat) {
    forall k :: 0 <= k < |buf| ==>
      buf[k].number == start + lo + k && HoldsPast(nodes, frags, buf[k], lo + k)
  }

  /** The whole state, in terms of how far the slowest and the fastest node have come. */
  ghost predicate Tracks(nodes: seq<nat>, start: nat, frags: seq<Fragment>, s: State, lo: nat, hi: nat) {
    |s.sent| == lo && lo + |s.buf| == hi
    && SentInOrder(nodes, start, frags, s.sent)
    && BufferedFrom(nodes, start, frags, s.buf, lo)
  }

  lemma CountNext(frags: seq<Fragment>, f: Fragment, n: nat)
    ensures Count(frags + [f], n) == Count(frags, n) + if f.node == n then 1 else 0
  {
  }

  lemma SentGrows(nodes: seq<nat>, start: nat, frags: seq<Fragment>, f: Fragment, sent: seq<Event>)
    requires SentInOrder(nodes, start, frags, sent)
    ensures SentInOrder(nodes, start, frags + [f], sent)
  {
  }

  lemma BufferFills(nodes: seq<nat>, start: nat, frags: seq<Fragment>, f: Fragment, buf: seq<Event>, lo: nat, i: nat)
    requires BufferedFrom(nodes, start, frags, buf, lo) && f.node in nodes && i < |buf|
    requires Count(frags, f.node) == lo + i && f.trig == start + lo + i
    ensures BufferedFrom(nodes, start, frags + [f], buf[i := Add(buf[i], f)], lo)
  {
  }

  lemma FindsKnown(buf: seq<Event>, i: nat, from: nat)
    requires i < |buf| && forall k :: 0 <= k < |buf| ==> buf[k].number == from + k
    ensures Find(buf, from + i) == i
  {
    var j := Find(buf, from + i);
    assert buf[i].number == from + i;
  }

  /** A new highest trigger: the fastest node moves on. */
  lemma NewTrigger(c: Config, start: nat, frags: seq<Fragment>, f: Fragment, s: State, lo: nat)
    requires |c.nodes| != 1 && f.node in c.nodes
    requires f.trig == start + Count(frags, f.node)
    requires Tracks(c.nodes, start, frags, s, lo, Count(frags, f.node))
    requires forall n :: n in c.nodes ==> Count(frags, n) <= Count(frags, f.node)
    requires Count(frags, f.node) < lo + c.maxDepth
    ensures Tracks(c.nodes, start, frags + [f], Receive(c, s, f), lo, Count(frags, f.node) + 1)
    ensures CleanStep(c, s, f)
  {
  }

  /** In a filled buffer an entry is full exactly when every node is past its trigger. */
  lemma FullEntry(nodes: seq<nat>, frags: seq<Fragment>, e: Event, t: nat)
    requires NoRepeat(nodes) && HoldsPast(nodes, frags, e, t)
    ensures |e.node| >= |nodes| <==> forall n :: n in nodes ==> Count(frags, n) > t
    ensures |e.node| >= |nodes| ==> Complete(nodes, e)
  {
    if |e.node| >= |nodes| {
      Pigeonhole(e.node, nodes);
    } else {
      var n := Missing(nodes, e.node);
    }
  }

  lemma ReceiveFills(c: Config, s: State, f: Fragment, i: nat)
    requires i < |s.buf| && Find(s.buf, f.trig) == i && |s.buf[i].node| + 1 < |c.nodes|
    ensures Receive(c, s, f) == State(s.buf[i := Add(s.buf[i], f)], s.sent)
    ensures CleanStep(c, s, f)
  {
  }

  /** While another node is at or below the trigger, the entry lacks it as well. */
  lemma NotFull(nodes: seq<nat>, frags: seq<Fragment>, f: Fragment, e: Event, other: nat)
    requires NoRepeat(nodes) && f.node in nodes && other in nodes && other != f.node
    requires HoldsPast(nodes, frags, e, Count(frags, f.node))
    requires Count(frags, other) <= Count(frags, f.node)
    ensures |e.node| + 1 < |nodes|
  {
    var with := e.node + [f.node];
    assert other !in with && NoRepeat(with);
    NoRepeatSize(with);
    DistinctAtMost(nodes);
    assert Members(with) <= Members(nodes) && other in Members(nodes) && other !in Members(with);
    Smaller(Members(with), Members(nodes));
  }

  /** A trigger already buffered, and another node is still to come: the entry fills. */
  lemma Filling(c: Config, start: nat, frags: seq<Fragment>, f: Fragment, s: State, lo: nat, hi: nat, other: nat)
    requires NoRepeat(c.nodes) && f.node in c.nodes && f.trig == start + Count(frags, f.node)
    requires Tracks(c.nodes, start, frags, s, lo, hi) && lo <= Count(frags, f.node) < hi
    requires other in c.nodes && other != f.node && Count(frags, other) <= Count(frags, f.node)
    ensures Tracks(c.nodes, start, frags + [f], Receive(c, s, f), lo, hi)
    ensures CleanStep(c, s, f)
  {
    var i := Count(frags, f.node) - lo;
    FindsKnown(s.buf, i, start + lo);
    NotFull(c.nodes, frags, f, s.buf[i], other);
    BufferFills(c.nodes, start, frags, f, s.buf, lo, i);
    SentGrows(c.nodes, start, frags, f, s.sent);
    ReceiveFills(c, s, f, i);
  }

  /** All other nodes are past the trigger: it is the head, and it is sent. */
  lemma Completing(c: Config, start: nat, frags: seq<Fragment>, f: Fragment, s: State, lo: nat, hi: nat)
    requires NoRepeat(c.nodes) && f.node in c.nodes && f.trig == start + lo
    requires Tracks(c.nodes, start, frags, s, lo, hi) && Count(frags, f.node) == lo < hi
    requires forall n :: n in c.nodes && n != f.node ==> Count(frags, n) > lo
    ensures Tracks(c.nodes, start, frags + [f], Receive(c, s, f), lo + 1, hi)
    ensures CleanStep(c, s, f)
  {
    FindsKnown(s.buf, 0, start + lo);
    BufferFills(c.nodes, start, frags, f, s.buf, lo, 0);
    SentGrows(c.nodes, start, frags, f, s.sent);
    var buf := s.buf[0 := Add(s.buf[0], f)];
    forall n | n in c.nodes ensures Count(frags + [f], n) > lo {
      CountNext(frags, f, n);
    }
    assert BufferedFrom(c.nodes, start, frags + [f], buf, lo);
    HeadGoes(c.nodes, start, frags + [f], buf, s.sent, lo);
    HeadFlush(c.rule, buf);
  }

  lemma HeadGoes(nodes: seq<nat>, start: nat, frags: seq<Fragment>, buf: seq<Event>, sent: seq<Event>, lo: nat)
    requires buf != [] && NoRepeat(nodes) && |sent| == lo
    requires SentInOrder(nodes, start, frags, sent) && BufferedFrom(nodes, start, frags, buf, lo)
    requires forall n :: n in nodes ==> Count(frags, n) > lo
    ensures |buf[0].node| >= |nodes|
    ensures SentInOrder(nodes, start, frags, sent + [buf[0]])
    ensures BufferedFrom(nodes, start, frags, buf[1..], lo + 1)
  {
    FullEntry(nodes, frags, buf[0], lo);
    forall k | 0 <= k < |buf[1..]|
      ensures buf[1..][k].number == start + (lo + 1) + k
              && HoldsPast(nodes, frags, buf[1..][k], lo + 1 + k)
    {
      assert buf[1..][k] == buf[k + 1];
    }
  }

  lemma Missing(nodes: seq<nat>, have: seq<nat>) returns (n: nat)
    requires NoRepeat(nodes) && |have| < |nodes|
    ensures n in nodes && n !in have
  {
    NoRepeatSize(nodes);
    DistinctAtMost(have);
    if forall n :: n in nodes ==> n in have {
      assert Members(nodes) <= Members(have);
      if Members(nodes) != Members(have) {
        Smaller(Members(nodes), Members(have));
      }
      assert false;
    }
    n :| n in nodes && n !in have;
  }

  /** One more fragment of a gap-free run, with the new extremes. */
  lemma Advance(c: Config, start: nat, frags: seq<Fragment>, f: Fragment, s: State, slow: nat, fast: nat,
                all: seq<Fragment>, next: State)
      returns (slow': nat, fast': nat)
    requires all == frags + [f] && next == Receive(c, s, f)
    requires |c.nodes| >= 2 && NoRepeat(c.nodes) && Extremes(c.nodes, frags, slow, fast)
    requires Tracks(c.nodes, start, frags, s, Count(frags, slow), Count(frags, fast))
    requires f.node in c.nodes && f.trig == start + Count(frags, f.node)
    requires Skew(c.nodes, all) <= c.maxDepth
    ensures Extremes(c.nodes, all, slow', fast')
    ensures Tracks(c.nodes, start, all, next, Count(all, slow'), Count(all, fast'))
    ensures CleanStep(c, s, f)
  {
    var lo, hi, t := Count(frags, slow), Count(frags, fast), Count(frags, f.node);
    slow', fast' := NextExtremes(c.nodes, frags, f, slow, fast);
    ExtremesAre(c.nodes, frags + [f], slow', fast');
    CountNext(frags, f, slow');
    CountNext(frags, f, fast');
    if t == hi {
      NewTrigger(c, start, frags, f, s, lo);
    } else if other :| other in c.nodes && other != f.node && Count(frags, other) <= t {
      Filling(c, start, frags, f, s, lo, hi, other);
    } else {
      Completing(c, start, frags, f, s, lo, hi);
    }
  }

  /** The slowest count moves only with a unique slowest node, the fastest with a fastest. */
  lemma NextExtremes(nodes: seq<nat>, frags: seq<Fragment>, f: Fragment, slow: nat, fast: nat)
      returns (slow': nat, fast': nat)
    requires |nodes| >= 2 && NoRepeat(nodes) && Extremes(nodes, frags, slow, fast) && f.node in nodes
    ensures Extremes(nodes, frags + [f], slow', fast')
    ensures var t := Count(frags, f.node);
            Count(frags + [f], fast') == (if t == Count(frags, fast) then t + 1 else Count(frags, fast))
    ensures Count(frags, f.node) == Count(frags, fast) ==>
              Count(frags + [f], slow') == Count(frags, slow)
    ensures var t := Count(frags, f.node);
            Count(frags + [f], slow') ==
            if forall n :: n in nodes && n != f.node ==> Count(frags, n) > t then t + 1
            else Count(frags, slow)
  {
    var t := Count(frags, f.node);
    forall n ensures Count(frags + [f], n) == Count(frags, n) + if f.node == n then 1 else 0 {
      CountNext(frags, f, n);
    }
    fast' := if t == Count(frags, fast) then f.node else fast;
    slow' := slow;
    if slow == f.node {
      if other :| other in nodes && other != f.node && Count(frags, other) <= t {
        slow' := other;
      }
    }
    var other := if nodes[0] != f.node then nodes[0] else nodes[1];
    assert other in nodes;
  }

  /** How the theorem reads off the functions: lo and hi are the slowest and fastest count. */
  ghost predicate GapFreeState(c: Config, start: nat, frags: seq<Fragment>, s: State)
    requires c.nodes != []
  {
    Tracks(c.nodes, start, frags, s, Slowest(c.nodes, frags), Fastest(c.nodes, frags))
  }

  /**
   After any gap-free interleaving within the depth limit the output is exactly the
   triggers all nodes have passed, consecutive, in order, each with one fragment of every
   node; and the buffer is as long as the skew between the fastest and slowest node.
   */
  lemma {:induction false} GapFreeRun(c: Config, start: nat, frags: seq<Fragment>)
    requires |c.nodes| >= 2 && NoRepeat(c.nodes)
    requires GapFree(c.nodes, start, frags) && WithinSkew(c, frags)
    ensures GapFreeState(c, start, frags, Run(c, frags))
    ensures Clean(c, frags)
  {
    if frags == [] {
      var slow, fast := ExtremesExist(c.nodes, frags);
    } else {
      var k := |frags| - 1;
      var front, f := frags[..k], frags[k];
      GapFreeRun(c, start, front);
      var slow, fast := ExtremesExist(c.nodes, front);
      LastStep(c, frags);
      slow, fast := Advance(c, start, front, f, Run(c, front), slow, fast, frags, Run(c, frags));
      ExtremesAre(c.nodes, frags, slow, fast);
    }
  }
}
