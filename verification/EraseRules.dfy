/**
 The erase loop of the event builder against the comment above it. The loop compares
 with m_events[i] after that event is gone, so it can keep an event that was sent or
 drop one that was not. This module says exactly when it does neither.
 */
module EraseRules {
  import opened Numbers
  import opened Events

  lemma {:induction false} FilterConcat(a: seq<Event>, b: seq<Event>, n: nat)
    ensures Above(a + b, n) == Above(a, n) + Above(b, n)
    ensures Upto(a + b, n) == Upto(a, n) + Upto(b, n)
  {
    if b == [] {
      assert a + b == a;
    } else {
      var k := |b| - 1;
      FilterConcat(a, b[..k], n);
      assert (a + b)[..|a + b| - 1] == a + b[..k];
    }
  }

  lemma {:induction false} FilterSizes(buf: seq<Event>, n: nat)
    ensures |Upto(buf, n)| + |Above(buf, n)| == |buf|
  {
    if buf != [] {
      FilterSizes(buf[..|buf| - 1], n);
    }
  }

  /** All of buf is numbered n or lower. */
  lemma {:induction false} FilterAll(buf: seq<Event>, n: nat)
    requires forall k :: 0 <= k < |buf| ==> buf[k].number <= n
    ensures Upto(buf, n) == buf && Above(buf, n) == []
  {
    if buf != [] {
      var front, last := buf[..|buf| - 1], buf[|buf| - 1];
      FilterAll(front, n);
      assert Upto(buf, n) == front + [last] == buf;
    }
  }

  /**
   The number the loop compares event j with, read off the buffer before the loop:
   i + 1, plus one for each lower-numbered event between j and i, or the last slot.
   */
  function Reference(buf: seq<Event>, i: nat, j: nat): nat
    requires j < i < |buf|
  {
    buf[Min(i + 1 + |Upto(buf[j + 1..i], buf[i].number)|, |buf| - 1)].number
  }

  predicate Agrees(buf: seq<Event>, i: nat, j: nat)
    requires j < i < |buf|
  {
    buf[j].number <= buf[i].number <==> buf[j].number <= Reference(buf, i, j)
  }

  /** The moved reference decides every earlier event as the completed event would. */
  predicate SlotsAgree(buf: seq<Event>, i: nat)
    requires i < |buf|
  {
    forall j :: 0 <= j < i ==> Agrees(buf, i, j)
  }

  /** What lies behind the loop once it is done with j..i, if the slots there agreed. */
  function Kept(buf: seq<Event>, i: nat, j: nat): seq<Event>
    requires j <= i < |buf|
  {
    Above(buf[j..i], buf[i].number) + buf[i + 1..]
  }

  lemma ReferenceIsRead(buf: seq<Event>, i: nat, j: nat)
    requires j < i < |buf|
    ensures SlotNumber(buf[..j + 1] + Kept(buf, i, j + 1), i, buf[|buf| - 1].number)
            == Reference(buf, i, j)
  {
    var n := buf[i].number;
    var gone := |Upto(buf[j + 1..i], n)|;
    FilterSizes(buf[j + 1..i], n);
    var cur := buf[..j + 1] + Kept(buf, i, j + 1);
    assert |cur| == |buf| - 1 - gone;
    if i < |cur| {
      assert cur[i] == Kept(buf, i, j + 1)[i - j - 1] == buf[i + 1..][gone];
    }
  }

  lemma KeptNext(buf: seq<Event>, i: nat, j: nat)
    requires j < i < |buf|
    ensures Kept(buf, i, j)
            == if buf[j].number <= buf[i].number then Kept(buf, i, j + 1)
               else [buf[j]] + Kept(buf, i, j + 1)
  {
    var n := buf[i].number;
    assert buf[j..i] == [buf[j]] + buf[j + 1..i];
    FilterConcat([buf[j]], buf[j + 1..i], n);
    assert [buf[j]][..0] == [];
  }

  /** A turn of the loop at a slot that agrees. */
  lemma AgreeingTurn(buf: seq<Event>, i: nat, j: nat)
    requires j < i < |buf| && Agrees(buf, i, j)
    ensures EraseLoop(buf[..j + 1], Kept(buf, i, j + 1), i, buf[|buf| - 1].number)
            == EraseLoop(buf[..j], Kept(buf, i, j), i, buf[|buf| - 1].number)
  {
    ReferenceIsRead(buf, i, j);
    KeptNext(buf, i, j);
    assert buf[..j + 1][..j] == buf[..j];
  }

  /** Where all slots agree the loop keeps what the comment says. */
  lemma {:induction false} AgreeBelow(buf: seq<Event>, i: nat, j: nat)
    requires j <= i < |buf|
    requires forall m :: 0 <= m < j ==> Agrees(buf, i, m)
    ensures EraseLoop(buf[..j], Kept(buf, i, j), i, buf[|buf| - 1].number) == Kept(buf, i, 0)
  {
    if j > 0 {
      assert Agrees(buf, i, j - 1);
      AgreeingTurn(buf, i, j - 1);
      AgreeBelow(buf, i, j - 1);
    }
  }

  lemma KeptMembers(buf: seq<Event>, i: nat, j: nat, e: Event)
    requires j <= i < |buf|
    ensures e in Kept(buf, i, j) <==>
            (e in buf[j..i] && e.number > buf[i].number) || e in buf[i + 1..]
  {
    UptoMembers(buf[j..i], buf[i].number);
  }

  lemma KeptWhole(buf: seq<Event>, i: nat, j: nat)
    requires j < i < |buf| && Distinct(buf)
    ensures buf[j] !in Kept(buf, i, j + 1)
    ensures buf[j] in Kept(buf, i, 0) <==> buf[j].number > buf[i].number
  {
    KeptMembers(buf, i, j + 1, buf[j]);
    KeptMembers(buf, i, 0, buf[j]);
    assert buf[0..i][j] == buf[j];
  }

  /** A slot that disagrees leaves a sent event behind, or loses one that was not sent. */
  lemma DisagreeAt(buf: seq<Event>, i: nat, j: nat)
    requires j < i < |buf| && Distinct(buf) && !Agrees(buf, i, j)
    ensures var r := EraseLoop(buf[..j + 1], Kept(buf, i, j + 1), i, buf[|buf| - 1].number);
            buf[j] in r <==> buf[j].number <= buf[i].number
    ensures buf[j] in Kept(buf, i, 0) <==> buf[j].number > buf[i].number
  {
    var v, tail := buf[|buf| - 1].number, Kept(buf, i, j + 1);
    ReferenceIsRead(buf, i, j);
    KeptWhole(buf, i, j);
    assert buf[..j + 1][..j] == buf[..j];
    if buf[j].number <= buf[i].number {
      var kept := EraseLoopKeepsTail(buf[..j], [buf[j]] + tail, i, v);
      InMiddle(kept, buf[j], tail);
    } else {
      var kept := EraseLoopKeepsTail(buf[..j], tail, i, v);
      assert buf[j] !in buf[..j];
    }
  }

  lemma InMiddle(a: seq<Event>, x: Event, b: seq<Event>)
    ensures x in a + ([x] + b)
  {
  }

  /** The last slot to disagree decides the fate of its event. */
  lemma {:induction false} DisagreeBelow(buf: seq<Event>, i: nat, j: nat) returns (m: nat)
    requires j <= i < |buf| && Distinct(buf)
    requires exists m :: 0 <= m < j && !Agrees(buf, i, m)
    ensures m < j && !Agrees(buf, i, m)
    ensures var r := EraseLoop(buf[..j], Kept(buf, i, j), i, buf[|buf| - 1].number);
            (buf[m] in r <==> buf[m].number <= buf[i].number)
            && (buf[m] in Kept(buf, i, 0) <==> buf[m].number > buf[i].number)
  {
    m := j - 1;
    if Agrees(buf, i, m) {
      AgreeingTurn(buf, i, m);
      m := DisagreeBelow(buf, i, m);
    } else {
      DisagreeAt(buf, i, m);
    }
  }

  /** The first turn of the loop erases the completed event, whatever it compares with. */
  lemma FirstTurn(buf: seq<Event>, i: nat)
    requires i < |buf|
    ensures Erased(AsWritten, buf, i) == EraseLoop(buf[..i], buf[i + 1..], i, buf[|buf| - 1].number)
    ensures Erased(AsCommented, buf, i) == Above(buf[..i], buf[i].number) + buf[i + 1..]
    ensures Flushed(buf, i) == Upto(buf[..i], buf[i].number) + [buf[i]]
  {
    assert buf[..i + 1] + buf[i + 1..] == buf;
    assert buf[..i + 1][..i] == buf[..i];
  }

  /** A flush whose slots disagree keeps a sent event, or drops one that was not sent. */
  lemma WrittenErrs(buf: seq<Event>, i: nat) returns (m: nat)
    requires i < |buf| && Distinct(buf) && !SlotsAgree(buf, i)
    ensures m < i && !Agrees(buf, i, m)
    ensures buf[m] in Flushed(buf, i) <==> buf[m].number <= buf[i].number
    ensures buf[m] in Erased(AsWritten, buf, i) <==> buf[m] in Flushed(buf, i)
    ensures buf[m] in Erased(AsCommented, buf, i) <==> buf[m] !in Flushed(buf, i)
  {
    FirstTurn(buf, i);
    assert buf[i..i] == [] && buf[0..i] == buf[..i];
    assert Kept(buf, i, i) == buf[i + 1..];
    m := DisagreeBelow(buf, i, i);
    assert buf[..i][m] == buf[m];
    UptoMembers(buf[..i], buf[i].number);
  }

  /**
   The written loop deletes exactly what was sent if and only if the slots agree: the
   condition is on the buffer as it stands before the loop.
   */
  lemma WrittenMeetsComment(buf: seq<Event>, i: nat)
    requires i < |buf| && Distinct(buf)
    ensures Erased(AsWritten, buf, i) == Erased(AsCommented, buf, i) <==> SlotsAgree(buf, i)
  {
    FirstTurn(buf, i);
    assert buf[i..i] == [] && buf[0..i] == buf[..i];
    assert Kept(buf, i, i) == buf[i + 1..];
    if SlotsAgree(buf, i) {
      AgreeBelow(buf, i, i);
    } else {
      var m := WrittenErrs(buf, i);
    }
  }

  /** The completed event is at the head: the loop has nothing to look up again. */
  lemma HeadFlush(rule: EraseRule, buf: seq<Event>)
    requires buf != []
    ensures Flushed(buf, 0) == [buf[0]] && Erased(rule, buf, 0) == buf[1..]
  {
    FirstTurn(buf, 0);
    assert buf[..0] == [];
  }

  /** Every event before i is lower-numbered: a completion in a run of increasing senders. */
  predicate Precede(buf: seq<Event>, i: nat)
    requires i < |buf|
  {
    forall j :: 0 <= j < i ==> buf[j].number < buf[i].number
  }

  /** Then the flush is the prefix, and the comment's rule leaves exactly the suffix. */
  lemma PrefixFlush(buf: seq<Event>, i: nat)
    requires i < |buf| && Precede(buf, i)
    ensures Flushed(buf, i) == buf[..i + 1]
    ensures Erased(AsCommented, buf, i) == buf[i + 1..]
  {
    FilterAll(buf[..i + 1], buf[i].number);
  }

  /** Event j is no higher than the event 2i - j, counted to the end of the buffer. */
  predicate SafeAt(buf: seq<Event>, i: nat, j: nat)
    requires j < i < |buf|
  {
    buf[j].number <= buf[Min(2 * i - j, |buf| - 1)].number
  }

  predicate FlushSafe(buf: seq<Event>, i: nat)
    requires i < |buf|
  {
    forall j :: 0 <= j < i ==> SafeAt(buf, i, j)
  }

  /** Under Precede, all the events between j and i are gone by the time of j's turn. */
  lemma AllBetween(buf: seq<Event>, i: nat, j: nat)
    requires j < i < |buf| && Precede(buf, i)
    ensures |Upto(buf[j + 1..i], buf[i].number)| == i - j - 1
  {
    var between := buf[j + 1..i];
    forall k | 0 <= k < |between| ensures between[k].number <= buf[i].number {
      assert between[k] == buf[j + 1 + k];
    }
    FilterAll(between, buf[i].number);
  }

  lemma SafeIsAgreement(buf: seq<Event>, i: nat, j: nat)
    requires j < i < |buf| && Precede(buf, i)
    ensures Agrees(buf, i, j) <==> SafeAt(buf, i, j)
  {
    AllBetween(buf, i, j);
  }

  /** And the written loop leaves that suffix if and only if the flush is safe. */
  lemma WrittenPrefixFlush(buf: seq<Event>, i: nat)
    requires i < |buf| && Distinct(buf) && Precede(buf, i)
    ensures SlotsAgree(buf, i) <==> FlushSafe(buf, i)
    ensures Erased(AsWritten, buf, i) == buf[i + 1..] <==> FlushSafe(buf, i)
  {
    forall j | 0 <= j < i
      ensures Agrees(buf, i, j) <==> SafeAt(buf, i, j)
    {
      SafeIsAgreement(buf, i, j);
    }
    PrefixFlush(buf, i);
    WrittenMeetsComment(buf, i);
  }

  predicate Ascending(buf: seq<Event>) {
    forall a, b :: 0 <= a < b < |buf| ==> buf[a].number < buf[b].number
  }

  /** A strictly ascending buffer: 0..i go out in order and i + 1.. stays, as written. */
  lemma AscendingFlush(rule: EraseRule, buf: seq<Event>, i: nat)
    requires i < |buf| && Ascending(buf)
    ensures Flushed(buf, i) == buf[..i + 1] && Ascending(Flushed(buf, i))
    ensures Erased(rule, buf, i) == buf[i + 1..]
  {
    PrefixFlush(buf, i);
    forall j | 0 <= j < i ensures SafeAt(buf, i, j) {
    }
    WrittenPrefixFlush(buf, i);
  }

  /** [5, 7, 3] with 7 complete: 5 and 7 are sent, and the written loop keeps 5. */
  lemma WrittenKeepsASentEvent()
    ensures exists buf: seq<Event>, i: nat ::
              i < |buf| && Distinct(buf) && buf[0] in Flushed(buf, i)
              && buf[0] in Erased(AsWritten, buf, i)
  {
    var five, seven, three := Event(5, [1], [[]]), Event(7, [1, 2, 3], [[], [], []]), Event(3, [2], [[]]);
    var buf := [five, seven, three];
    PrefixFlush(buf, 1);
    assert buf[..2][0] == five;
    FirstTurn(buf, 1);
    assert buf[..1] == [five] && buf[2..] == [three];
    assert ([five] + [three])[1] == three;
    assert [five][..0] == [];
    assert EraseLoop([five], [three], 1, 3) == EraseLoop([], [five] + [three], 1, 3);
    assert Erased(AsWritten, buf, 1)[0] == five == buf[0];
  }
}
