/**
 Fragments, events and one receiving step of the local event builder, written as
 functions. The class in EventBuilder.dfy runs the same step in place.
 */
module Events {
  import opened Bytes
  import opened Numbers

  /** One message of a producer: node id, trigger number, payload. */
  datatype Fragment = Fragment(node: nat, trig: nat, data: seq<Byte>)

  /** struct ebevent: the parallel vectors node and data grow together. */
  datatype Event = Event(number: nat, node: seq<nat>, data: seq<seq<Byte>>)

  /**
   AsWritten is the erase loop of the code, which looks up m_events[i] again after
   each erase. AsCommented deletes exactly what was sent, as the comment above it says.
   */
  datatype EraseRule = AsWritten | AsCommented

  datatype Config = Config(nodes: seq<nat>, maxDepth: nat, rule: EraseRule)

  /** m_events, and the events handed to send_data so far. */
  datatype State = State(buf: seq<Event>, sent: seq<Event>)

  const EMPTY := State([], [])

  function Add(e: Event, f: Fragment): Event {
    Event(e.number, e.node + [f.node], e.data + [f.data])
  }

  function Fresh(f: Fragment): Event {
    Event(f.trig, [f.node], [f.data])
  }

  /** Index of the first event with this number, or |buf|. */
  function Find(buf: seq<Event>, trig: nat): (i: nat)
    ensures i <= |buf|
    ensures i < |buf| ==> buf[i].number == trig
    ensures forall k :: 0 <= k < i ==> buf[k].number != trig
  {
    if buf == [] then 0
    else if buf[0].number == trig then 0
    else
      var j := Find(buf[1..], trig);
      assert forall k :: 1 <= k < j + 1 ==> buf[k] == buf[1..][k - 1];
      j + 1
  }

  /** The events of buf numbered n or lower, in buffer order. */
  function Upto(buf: seq<Event>, n: nat): seq<Event> {
    if buf == [] then []
    else
      var last := buf[|buf| - 1];
      if last.number <= n then Upto(buf[..|buf| - 1], n) + [last] else Upto(buf[..|buf| - 1], n)
  }

  /** The events of buf numbered above n, in buffer order. */
  function Above(buf: seq<Event>, n: nat): seq<Event> {
    if buf == [] then []
    else
      var last := buf[|buf| - 1];
      if last.number <= n then Above(buf[..|buf| - 1], n) else Above(buf[..|buf| - 1], n) + [last]
  }

  /** What the send loop hands over when event i is complete. */
  function Flushed(buf: seq<Event>, i: nat): seq<Event>
    requires i < |buf|
  {
    Upto(buf[..i + 1], buf[i].number)
  }

  /**
   The number found in slot i of the vector. Once the vector is shorter than that the
   slot is a destroyed one: erase never clears it, and it keeps the number of the event
   that was last in the vector before the loop.
   */
  function SlotNumber(cur: seq<Event>, i: nat, vacated: nat): nat {
    if i < |cur| then cur[i].number else vacated
  }

  /**
   The erase loop, as written, with the vector split at its index: front ends with the
   event the loop looks at, tail is what the loop has left behind it.
   */
  function EraseLoop(front: seq<Event>, tail: seq<Event>, i: nat, vacated: nat): seq<Event>
    decreases |front|
  {
    if front == [] then tail
    else
      var k := |front| - 1;
      if front[k].number <= SlotNumber(front + tail, i, vacated) then
        EraseLoop(front[..k], tail, i, vacated)
      else
        EraseLoop(front[..k], [front[k]] + tail, i, vacated)
  }

  /** m_events after event i was completed and flushed. */
  function Erased(rule: EraseRule, buf: seq<Event>, i: nat): seq<Event>
    requires i < |buf|
  {
    match rule
    case AsWritten => EraseLoop(buf[..i + 1], buf[i + 1..], i, buf[|buf| - 1].number)
    case AsCommented => Above(buf[..i + 1], buf[i].number) + buf[i + 1..]
  }

  /** The completed event fills its entry, then it and its elders are sent and erased. */
  function Matched(c: Config, s: State, f: Fragment, i: nat): State
    requires i < |s.buf|
  {
    var buf := s.buf[i := Add(s.buf[i], f)];
    if |buf[i].node| >= |c.nodes| then
      State(Erased(c.rule, buf, i), s.sent + Flushed(buf, i))
    else
      State(buf, s.sent)
  }

  /** A trigger number not in the buffer: queue it, or bypass the queue for one node. */
  function Queued(c: Config, s: State, f: Fragment): State {
    if |c.nodes| == 1 then State(s.buf, s.sent + [Fresh(f)])
    else State(s.buf + [Fresh(f)], s.sent)
  }

  /** The head leaves a buffer that has outgrown the depth limit. */
  function Evicted(c: Config, s: State): State {
    if |s.buf| > c.maxDepth then State(s.buf[1..], s.sent + [s.buf[0]]) else s
  }

  /** One fragment through the body of the receive loop. */
  function Receive(c: Config, s: State, f: Fragment): State {
    var i := Find(s.buf, f.trig);
    if i < |s.buf| then Matched(c, s, f, i) else Evicted(c, Queued(c, s, f))
  }

  /** Event i is completed by fragment f. */
  predicate Completes(c: Config, s: State, f: Fragment) {
    var i := Find(s.buf, f.trig);
    i < |s.buf| && |s.buf[i].node| + 1 >= |c.nodes|
  }

  /** A whole run: fragments in order of arrival. */
  function Run(c: Config, frags: seq<Fragment>): State {
    if frags == [] then EMPTY
    else Receive(c, Run(c, frags[..|frags| - 1]), frags[|frags| - 1])
  }

  /** Event numbers are pairwise different. */
  predicate Distinct(buf: seq<Event>) {
    forall a, b :: 0 <= a < b < |buf| ==> buf[a].number != buf[b].number
  }

  lemma {:induction false} UptoMembers(buf: seq<Event>, n: nat)
    ensures forall e :: e in Upto(buf, n) <==> e in buf && e.number <= n
    ensures forall e :: e in Above(buf, n) <==> e in buf && e.number > n
  {
    if buf != [] {
      var k := |buf| - 1;
      UptoMembers(buf[..k], n);
      assert buf == buf[..k] + [buf[k]];
      assert forall e :: e in buf <==> e in buf[..k] || e == buf[k];
    }
  }

  lemma DistinctAppend(s: seq<Event>, x: Event)
    requires Distinct(s) && forall e :: e in s ==> e.number != x.number
    ensures Distinct(s + [x])
  {
  }

  lemma {:induction false} FilterDistinct(buf: seq<Event>, n: nat)
    requires Distinct(buf)
    ensures Distinct(Upto(buf, n)) && Distinct(Above(buf, n))
    ensures |Upto(buf, n)| + |Above(buf, n)| == |buf|
  {
    if buf != [] {
      var k := |buf| - 1;
      var front := buf[..k];
      FilterDistinct(front, n);
      UptoMembers(front, n);
      assert forall e :: e in front ==> e.number != buf[k].number;
      if buf[k].number <= n {
        DistinctAppend(Upto(front, n), buf[k]);
      } else {
        DistinctAppend(Above(front, n), buf[k]);
      }
    }
  }

  /** The loop leaves the tail alone; what it keeps of the front stays in order. */
  lemma {:induction false} EraseLoopKeepsTail(front: seq<Event>, tail: seq<Event>, i: nat, vacated: nat)
      returns (kept: seq<Event>)
    ensures EraseLoop(front, tail, i, vacated) == kept + tail
    ensures |kept| <= |front| && (forall e :: e in kept ==> e in front)
    ensures Distinct(front) ==> Distinct(kept)
    decreases |front|
  {
    kept := [];
    if front != [] {
      var k := |front| - 1;
      if front[k].number <= SlotNumber(front + tail, i, vacated) {
        kept := EraseLoopKeepsTail(front[..k], tail, i, vacated);
      } else {
        kept := EraseLoopKeepsTail(front[..k], [front[k]] + tail, i, vacated);
        assert kept + ([front[k]] + tail) == (kept + [front[k]]) + tail;
        if Distinct(front) {
          DistinctAppend(kept, front[k]);
        }
        kept := kept + [front[k]];
      }
    }
  }

  /** The completed event itself always goes, and nothing is added. */
  lemma ErasedThins(rule: EraseRule, buf: seq<Event>, i: nat) returns (kept: seq<Event>)
    requires i < |buf| && Distinct(buf)
    ensures Erased(rule, buf, i) == kept + buf[i + 1..] && |kept| <= i && Distinct(kept)
    ensures forall e :: e in kept ==> e in buf[..i]
  {
    var n, front := buf[i].number, buf[..i];
    assert buf[..i + 1] == front + [buf[i]];
    match rule {
      case AsWritten =>
        assert (buf[..i + 1] + buf[i + 1..])[i] == buf[i];
        assert buf[..i + 1][..i] == front;
        kept := EraseLoopKeepsTail(front, buf[i + 1..], i, buf[|buf| - 1].number);
      case AsCommented =>
        UptoMembers(front, n);
        FilterDistinct(front, n);
        assert buf[..i + 1][..i] == front;
        kept := Above(front, n);
    }
  }

  /** Dropping events keeps the numbers distinct. */
  lemma ErasedDistinct(rule: EraseRule, buf: seq<Event>, i: nat)
    requires i < |buf| && Distinct(buf)
    ensures var r := Erased(rule, buf, i);
            Distinct(r) && |r| < |buf| && forall e :: e in r ==> e in buf && e.number != buf[i].number
  {
    var kept := ErasedThins(rule, buf, i);
    var tail := buf[i + 1..];
    forall e | e in kept + tail ensures e in buf && e.number != buf[i].number {
      assert e in kept ==> e in buf[..i];
    }
    forall a, b | 0 <= a < b < |kept + tail|
      ensures (kept + tail)[a].number != (kept + tail)[b].number
    {
      if a < |kept| <= b {
        assert kept[a] in buf[..i];
        assert tail[b - |kept|] in buf[i + 1..];
      }
    }
  }

  /** No step makes two entries of one number. */
  lemma ReceiveDistinct(c: Config, s: State, f: Fragment)
    requires Distinct(s.buf)
    ensures Distinct(Receive(c, s, f).buf)
  {
    var i := Find(s.buf, f.trig);
    if i < |s.buf| {
      var buf := s.buf[i := Add(s.buf[i], f)];
      ErasedDistinct(c.rule, buf, i);
    }
  }
}
