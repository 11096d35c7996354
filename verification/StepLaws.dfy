/**
 What one fragment does, branch by branch: which entry it joins and where, which events go out
 and in what order, and which stay.
 */
module StepLaws {
  import opened Events
  import opened EraseRules

  /** The first event of this number is at i. */
  ghost predicate FirstAt(buf: seq<Event>, trig: nat, i: nat) {
    i < |buf| && buf[i].number == trig && forall k :: 0 <= k < i ==> buf[k].number != trig
  }

  lemma FirstIsFound(buf: seq<Event>, trig: nat, i: nat)
    requires FirstAt(buf, trig, i)
    ensures Find(buf, trig) == i
  {
  }

  /** A known trigger, and more nodes to come: node and data join the entry at its end. */
  lemma JoinsAtEnd(c: Config, s: State, f: Fragment, i: nat)
    requires FirstAt(s.buf, f.trig, i) && |s.buf[i].node| + 1 < |c.nodes|
    ensures Receive(c, s, f)
            == State(s.buf[i := Event(f.trig, s.buf[i].node + [f.node], s.buf[i].data + [f.data])], s.sent)
  {
    FirstIsFound(s.buf, f.trig, i);
  }

  /** A new trigger in a buffer at its limit: it is queued at the end, and the head leaves. */
  lemma FullBufferSendsHead(c: Config, s: State, f: Fragment)
    requires |c.nodes| != 1 && |s.buf| >= c.maxDepth
    requires forall k :: 0 <= k < |s.buf| ==> s.buf[k].number != f.trig
    ensures var e := Event(f.trig, [f.node], [f.data]);
            Receive(c, s, f)
            == if s.buf == [] then State([], s.sent + [e]) else State(s.buf[1..] + [e], s.sent + [s.buf[0]])
  {
    var e := Event(f.trig, [f.node], [f.data]);
    assert s.buf != [] ==> (s.buf + [e])[1..] == s.buf[1..] + [e];
  }

  /** A new trigger in a buffer with room: it is queued at the end, and nothing leaves. */
  lemma RoomKeepsAll(c: Config, s: State, f: Fragment)
    requires |c.nodes| != 1 && |s.buf| < c.maxDepth
    requires forall k :: 0 <= k < |s.buf| ==> s.buf[k].number != f.trig
    ensures Receive(c, s, f) == State(s.buf + [Event(f.trig, [f.node], [f.data])], s.sent)
  {
  }

  /** s is t with some of its elements left out. */
  predicate Sub(s: seq<Event>, t: seq<Event>) {
    if t == [] then s == []
    else
      Sub(s, t[..|t| - 1]) || (s != [] && s[|s| - 1] == t[|t| - 1] && Sub(s[..|s| - 1], t[..|t| - 1]))
  }

  lemma {:induction false} NoneIsSub(t: seq<Event>)
    ensures Sub([], t)
  {
    if t != [] {
      NoneIsSub(t[..|t| - 1]);
    }
  }

  lemma SubSame(s: seq<Event>, t: seq<Event>, x: Event)
    requires Sub(s, t)
    ensures Sub(s, t + [x]) && Sub(s + [x], t + [x])
  {
    assert (t + [x])[..|t|] == t && (s + [x])[..|s|] == s;
  }

  lemma {:induction false} FiltersAreSub(buf: seq<Event>, n: nat)
    ensures Sub(Upto(buf, n), buf) && Sub(Above(buf, n), buf)
  {
    if buf != [] {
      var k := |buf| - 1;
      FiltersAreSub(buf[..k], n);
      SubSame(Upto(buf[..k], n), buf[..k], buf[k]);
      SubSame(Above(buf[..k], n), buf[..k], buf[k]);
      assert buf[..k] + [buf[k]] == buf;
    }
  }

  lemma {:induction false} SubThenAll(s: seq<Event>, t: seq<Event>, tail: seq<Event>)
    requires Sub(s, t)
    ensures Sub(s + tail, t + tail)
    decreases |tail|
  {
    if tail == [] {
      assert s + tail == s && t + tail == t;
    } else {
      var k := |tail| - 1;
      SubThenAll(s, t, tail[..k]);
      SubSame(s + tail[..k], t + tail[..k], tail[k]);
      assert s + tail == s + tail[..k] + [tail[k]] && t + tail == t + tail[..k] + [tail[k]];
    }
  }

  /** The loop thins the front and reorders nothing. */
  lemma {:induction false} LoopThins(front: seq<Event>, tail: seq<Event>, i: nat, vacated: nat) returns (kept: seq<Event>)
    ensures EraseLoop(front, tail, i, vacated) == kept + tail && Sub(kept, front)
    decreases |front|
  {
    kept := [];
    if front != [] {
      var k := |front| - 1;
      assert front == front[..k] + [front[k]];
      if front[k].number <= SlotNumber(front + tail, i, vacated) {
        kept := LoopThins(front[..k], tail, i, vacated);
        SubSame(kept, front[..k], front[k]);
      } else {
        kept := LoopThins(front[..k], [front[k]] + tail, i, vacated);
        SubSame(kept, front[..k], front[k]);
        assert kept + ([front[k]] + tail) == kept + [front[k]] + tail;
        kept := kept + [front[k]];
      }
    }
  }

  /** The events that go out with the completed one are all of those before it and numbered no higher. */
  ghost predicate GoWith(out: seq<Event>, buf: seq<Event>, i: nat)
    requires i < |buf|
  {
    Sub(out, buf[..i]) && forall e :: e in out <==> e in buf[..i] && e.number <= buf[i].number
  }

  /** The event completed by this fragment. */
  function Filled(s: State, f: Fragment, i: nat): Event
    requires i < |s.buf|
  {
    Event(f.trig, s.buf[i].node + [f.node], s.buf[i].data + [f.data])
  }

  /**
   A completion: what goes out, in buffer order, are the earlier events that are numbered no higher,
   and last the completed one. What stays keeps its order, and so does all behind.
   */
  lemma Completion(c: Config, s: State, f: Fragment, i: nat) returns (out: seq<Event>, kept: seq<Event>)
    requires FirstAt(s.buf, f.trig, i) && |s.buf[i].node| + 1 >= |c.nodes|
    ensures Receive(c, s, f) == State(kept + s.buf[i + 1..], s.sent + out + [Filled(s, f, i)])
    ensures GoWith(out, s.buf, i) && Sub(kept, s.buf[..i])
    ensures c.rule == AsCommented ==> forall e :: e in kept <==> e in s.buf[..i] && e.number > f.trig
  {
    FirstIsFound(s.buf, f.trig, i);
    var buf := s.buf[i := Filled(s, f, i)];
    assert buf[..i] == s.buf[..i] && buf[i + 1..] == s.buf[i + 1..];
    out := Upto(buf[..i], f.trig);
    FirstTurn(buf, i);
    FiltersAreSub(buf[..i], f.trig);
    UptoMembers(buf[..i], f.trig);
    if c.rule == AsWritten {
      kept := LoopThins(buf[..i], buf[i + 1..], i, buf[|buf| - 1].number);
    } else {
      kept := Above(buf[..i], f.trig);
    }
    assert s.sent + (out + [buf[i]]) == s.sent + out + [Filled(s, f, i)];
  }

  /** The loop down to a lower index, with what it has left behind it by then. */
  lemma {:induction false} LoopDownTo(front: seq<Event>, tail: seq<Event>, i: nat, vacated: nat, m: nat)
      returns (rest: seq<Event>)
    requires m <= |front|
    ensures EraseLoop(front, tail, i, vacated) == EraseLoop(front[..m], rest + tail, i, vacated)
    ensures Sub(rest, front[m..])
    decreases |front|
  {
    rest := [];
    if m == |front| {
      assert front[..m] == front && front[m..] == [] && rest + tail == tail;
    } else {
      var k := |front| - 1;
      assert front[..k][..m] == front[..m] && front[m..] == front[..k][m..] + [front[k]];
      if front[k].number <= SlotNumber(front + tail, i, vacated) {
        rest := LoopDownTo(front[..k], tail, i, vacated, m);
        SubSame(rest, front[..k][m..], front[k]);
      } else {
        rest := LoopDownTo(front[..k], [front[k]] + tail, i, vacated, m);
        SubSame(rest, front[..k][m..], front[k]);
        assert rest + ([front[k]] + tail) == rest + [front[k]] + tail;
        rest := rest + [front[k]];
      }
    }
  }

  /**
   The erase loop as written, event by event: the buffer it leaves is what it keeps of the first
   j + 1 and what it keeps of the others, rest. Event j stays exactly if it is numbered above the
   event that slot i held at its turn: entry i - j - 1 of rest, or the last slot of the old buffer.
   */
  lemma WrittenDecides(buf: seq<Event>, i: nat, j: nat) returns (kept: seq<Event>, rest: seq<Event>)
    requires j < i < |buf|
    ensures var stays := buf[j].number > if i - j - 1 < |rest| then rest[i - j - 1].number else buf[|buf| - 1].number;
            Erased(AsWritten, buf, i) == kept + (if stays then [buf[j]] else []) + rest
    ensures Sub(kept, buf[..j]) && Sub(rest, buf[j + 1..i] + buf[i + 1..])
  {
    var v, tail := buf[|buf| - 1].number, buf[i + 1..];
    FirstTurn(buf, i);
    var mid := LoopDownTo(buf[..i], tail, i, v, j + 1);
    rest := mid + tail;
    assert buf[..i][..j + 1] == buf[..j + 1] && buf[..i][j + 1..] == buf[j + 1..i];
    SubThenAll(mid, buf[j + 1..i], tail);
    assert buf[..j + 1] == buf[..j] + [buf[j]];
    SlotAt(buf[..j + 1], rest, i, v);
    kept := LastTurn(buf[..j], buf[j], rest, i, v);
  }

  lemma SlotAt(front: seq<Event>, rest: seq<Event>, i: nat, vacated: nat)
    requires |front| <= i
    ensures SlotNumber(front + rest, i, vacated)
            == if i - |front| < |rest| then rest[i - |front|].number else vacated
  {
  }

  lemma LastTurn(front: seq<Event>, x: Event, rest: seq<Event>, i: nat, vacated: nat) returns (kept: seq<Event>)
    ensures var stays := x.number > SlotNumber(front + [x] + rest, i, vacated);
            EraseLoop(front + [x], rest, i, vacated) == kept + (if stays then [x] else []) + rest
    ensures Sub(kept, front)
  {
    assert (front + [x])[..|front|] == front;
    if x.number <= SlotNumber(front + [x] + rest, i, vacated) {
      kept := LoopThins(front, rest, i, vacated);
      assert kept + [] + rest == kept + rest;
    } else {
      kept := LoopThins(front, [x] + rest, i, vacated);
      assert kept + ([x] + rest) == kept + [x] + rest;
    }
  }
}
