/** DTeb as an object: m_nodes, m_max_event_depth, m_events, and what send_data was given. */
module EventBuilders {
  import opened Bytes
  import opened Events

  class EventBuilder {
    const nodes: seq<nat>
    var maxDepth: nat
    var events: seq<Event>
    var sent: seq<Event>

    ghost function Cfg(): Config reads this {
      Config(nodes, maxDepth, AsWritten)
    }

    ghost function Contents(): State reads this {
      State(events, sent)
    }

    ghost predicate Valid() reads this {
      Distinct(events)
    }

    constructor (ids: seq<nat>)
      ensures Valid() && nodes == ids && maxDepth == 1024 && Contents() == EMPTY
    {
      nodes, maxDepth, events, sent := ids, 1024, [], [];
    }

    method SetMaxEventDepth(depth: nat)
      modifies this`maxDepth
      ensures maxDepth == depth
    {
      maxDepth := depth;
    }

    method SendData(e: Event)
      modifies this`sent
      ensures sent == old(sent) + [e]
    {
      sent := sent + [e];
    }

    /** The first inner loop of a completion: ascending, sends event i and its elders. */
    method SendOlder(i: nat)
      requires i < |events|
      modifies this`sent
      ensures sent == old(sent) + Flushed(events, i)
    {
      var j := 0;
      assert events[..0] == [];
      while j <= i
        invariant 0 <= j <= i + 1
        invariant sent == old(sent) + Upto(events[..j], events[i].number)
      {
        assert events[..j + 1][..j] == events[..j];
        if events[j].number <= events[i].number {
          SendData(events[j]);
        }
        j := j + 1;
      }
    }

    /** The number read through m_events[i] while the vector is being thinned. */
    method NumberInSlot(i: nat, vacated: nat) returns (n: nat)
      ensures n == SlotNumber(events, i, vacated)
    {
      if i < |events| {
        n := events[i].number;
      } else {
        n := vacated;
      }
    }

    /** The second inner loop: descending, erases by the number now found in slot i. */
    method EraseOlder(i: nat)
      requires i < |events|
      modifies this`events
      ensures events == Erased(AsWritten, old(events), i)
    {
      var vacated := events[|events| - 1].number;
      var j: int := i;
      while j >= 0
        invariant -1 <= j <= i && j < |events|
        invariant EraseLoop(events[..j + 1], events[j + 1..], i, vacated)
                  == Erased(AsWritten, old(events), i)
        decreases j
      {
        ghost var front, tail := events[..j + 1], events[j + 1..];
        assert events == front + tail && front[j] == events[j] && front[..j] == events[..j];
        var reference := NumberInSlot(i, vacated);
        if events[j].number <= reference {
          events := events[..j] + events[j + 1..];
          assert events[..j] == front[..j] && events[j..] == tail;
        } else {
          assert events[j..] == [front[j]] + tail;
        }
        j := j - 1;
      }
      assert events[..0] == [] && events[0..] == events;
    }

    /** A trigger number that is not in the buffer. */
    method Enqueue(f: Fragment)
      modifies this`events, this`sent
      ensures Contents() == Evicted(Cfg(), Queued(Cfg(), old(Contents()), f))
    {
      var ev := Event(f.trig, [f.node], [f.data]);
      if |nodes| == 1 {
        SendData(ev);
      } else {
        events := events + [ev];
      }
      if |events| > maxDepth {
        SendData(events[0]);
        events := events[1..];
      }
    }

    /** One turn of the receive loop. */
    method Receive(f: Fragment)
      requires Valid()
      modifies this`events, this`sent
      ensures Valid()
      ensures Contents() == Events.Receive(Cfg(), old(Contents()), f)
    {
      ghost var buf, at := events, Find(events, f.trig);
      var isNew, i := true, 0;
      while i < |events|
        invariant 0 <= i && sent == old(sent)
        invariant isNew ==> events == buf && i <= at
        invariant !isNew ==> at < i && at < |buf| && events == buf[at := Add(buf[at], f)]
        invariant !isNew ==> |events[at].node| < |nodes|
        decreases |events| - i
      {
        if f.trig == events[i].number {
          assert isNew && i == at;
          isNew := false;
          events := events[i := Add(events[i], f)];
          if |events[i].node| >= |nodes| {
            ReceiveDistinct(Cfg(), old(Contents()), f);
            SendOlder(i);
            EraseOlder(i);
            return;
          }
        }
        i := i + 1;
      }
      ReceiveDistinct(Cfg(), old(Contents()), f);
      if isNew {
        Enqueue(f);
      }
    }
  }

  /** A whole run on the object is the run on values. */
  method ReceiveAll(builder: EventBuilder, frags: seq<Fragment>)
    requires builder.Valid() && builder.Contents() == EMPTY
    modifies builder`events, builder`sent
    ensures builder.Valid() && builder.Contents() == Run(builder.Cfg(), frags)
  {
    var k := 0;
    assert frags[..0] == [];
    while k < |frags|
      invariant 0 <= k <= |frags| && builder.Valid()
      invariant builder.Contents() == Run(builder.Cfg(), frags[..k])
    {
      assert frags[..k + 1][..k] == frags[..k];
      builder.Receive(frags[k]);
      k := k + 1;
    }
    assert frags[..k] == frags;
  }
}
