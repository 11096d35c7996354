/**
 What the thread controller promises over every run: nothing is joined or deleted twice, a count
 of zero means that all posted threads are gone, no deadlock, and exactly when ~ThreadController
 comes to an end.
 */
module ReaperRuns {
  import opened ThreadReaper

  /** Joins, deletes and joins of the reapers happen at most once, whatever the interleaving. */
  lemma NothingTwice(n: nat, steps: seq<Step>, i: nat)
    requires Possible(Initial(n), steps) && i < |Run(Initial(n), steps).members|
    ensures var m := Run(Initial(n), steps).members[i];
            m.joins <= 1 && m.deletes <= 1 && m.reaperJoins <= 1
            && (m.deletes == 1 ==> m.joins == 1 && m.worker == Exited)
  {
    InitialOk(n);
    RunOk(Initial(n), steps);
    assert MemberOk(Run(Initial(n), steps).members[i]);
  }

  /** The thread was joined once, then deleted once, and its reaper has taken it off the count. */
  predicate Collected(m: Member) {
    m.joins == 1 && m.deletes == 1 && m.reaper != Decrement
  }

  /** numrunning() == 0 with no post under way: exactly when every posted thread is collected. */
  lemma ZeroMeansReaped(n: nat, steps: seq<Step>)
    requires Possible(Initial(n), steps) && NoneInFlight(Run(Initial(n), steps))
    ensures var s := Run(Initial(n), steps);
            s.running == 0 <==>
            forall i :: 0 <= i < |s.members| ==> s.members[i].post == Idle || Collected(s.members[i])
  {
    InitialOk(n);
    RunOk(Initial(n), steps);
    var s := Run(Initial(n), steps);
    ZeroLoad(s.members);
    forall i | 0 <= i < |s.members|
      ensures Rank(s.members[i].reaper) > Rank(Decrement) <==> Collected(s.members[i])
    {
      assert MemberOk(s.members[i]);
    }
  }

  lemma Then(s: State, steps: seq<Step>, t: State, step: Step) returns (more: seq<Step>, u: State)
    requires Possible(s, steps) && Run(s, steps) == t && Enabled(t, step)
    ensures more == steps + [step] && u == Apply(t, step) && Possible(s, more) && Run(s, more) == u
  {
    more, u := steps + [step], Apply(t, step);
    RunAppend(s, steps, [step]);
    assert [step][1..] == [];
  }

  lemma {:induction false} RunAppend(s: State, a: seq<Step>, b: seq<Step>)
    requires Possible(s, a) && Possible(Run(s, a), b)
    ensures Possible(s, a + b) && Run(s, a + b) == Run(Run(s, a), b)
    decreases |a|
  {
    if a == [] {
      assert a + b == b;
    } else {
      assert (a + b)[1..] == a[1..] + b;
      RunAppend(Apply(s, a[0]), a[1..], b);
    }
  }

  const POSTED := IDLE.(post := Counted, worker := Running)
  const LEFT := IDLE.(post := InFlight, worker := Exited, id := true, reaper := AtLock)

  /** One thread runs; the other has finished before its post got to count it. */
  lemma TwoPosted() returns (steps: seq<Step>)
    ensures Possible(Initial(2), steps)
    ensures Run(Initial(2), steps) == State([POSTED, LEFT], 1, NOBODY, NOBODY, Alive)
  {
    var s, t := Initial(2), Initial(2);
    steps, t := Then(s, [], t, Start(0, true));
    steps, t := Then(s, steps, t, Count(0));
    steps, t := Then(s, steps, t, Start(1, true));
    steps, t := Then(s, steps, t, Finish(1, true));
    steps, t := Then(s, steps, t, Store(1));
    steps, t := Then(s, steps, t, Exit(1));
  }

  /** While a post is under way the count can be zero although a posted thread still runs. */
  lemma PostHidesRunning() returns (steps: seq<Step>)
    ensures Possible(Initial(2), steps)
    ensures var s := Run(Initial(2), steps);
            |s.members| == 2 && s.running == 0 && s.members[0].post == Counted && s.members[0].worker == Running
  {
    steps := TwoPosted();
    var s, t := Initial(2), Run(Initial(2), steps);
    steps, t := Then(s, steps, t, Reap(1));
    steps, t := Then(s, steps, t, Reap(1));
    steps, t := Then(s, steps, t, Reap(1));
    steps, t := Then(s, steps, t, Reap(1));
    steps, t := Then(s, steps, t, Reap(1));
    steps, t := Then(s, steps, t, Reap(1));
  }

  /** The reaper overtakes done(): it reads m_delthreadid before that is stored. */
  lemma ReaperOvertakes() returns (steps: seq<Step>)
    ensures Possible(Initial(1), steps)
    ensures Run(Initial(1), steps) ==
              State([IDLE.(post := Counted, worker := Exited, id := true, reaper := JoinWorker)], 1, NOBODY, 0, Alive)
  {
    var s, t := Initial(1), Initial(1);
    steps, t := Then(s, [], t, Start(0, true));
    steps, t := Then(s, steps, t, Count(0));
    steps, t := Then(s, steps, t, Finish(0, true));
    steps, t := Then(s, steps, t, Reap(0));
    steps, t := Then(s, steps, t, Reap(0));
    steps, t := Then(s, steps, t, Reap(0));
    steps, t := Then(s, steps, t, Store(0));
    steps, t := Then(s, steps, t, Exit(0));
  }

  const REAPED := IDLE.(post := Counted, worker := Exited, id := true, joins := 1, deletes := 1)

  /** It goes on to the end of delthread, and gives up the mutex. */
  lemma OvertakerLeaves() returns (steps: seq<Step>)
    ensures Possible(Initial(1), steps)
    ensures Run(Initial(1), steps) == State([REAPED.(reaper := Leaving)], 0, NOBODY, NOBODY, Alive)
  {
    steps := ReaperOvertakes();
    var s, t := Initial(1), Run(Initial(1), steps);
    steps, t := Then(s, steps, t, Reap(0));
    steps, t := Then(s, steps, t, Reap(0));
    steps, t := Then(s, steps, t, Reap(0));
    steps, t := Then(s, steps, t, Reap(0));
  }

  /** Such a reaper records 0, and nobody ever joins it. */
  lemma LateStoreIsNotJoined() returns (steps: seq<Step>)
    ensures Possible(Initial(1), steps)
    ensures var s := Run(Initial(1), steps);
            |s.members| == 1 && s.destructor == Done && Collected(s.members[0]) && s.members[0].reaper == Gone
            && s.members[0].reaperJoins == 0
  {
    steps := OvertakerLeaves();
    var s, t := Initial(1), Run(Initial(1), steps);
    steps, t := Then(s, steps, t, Reap(0));
    assert t == State([REAPED.(reaper := Gone)], 0, NOBODY, NOBODY, Alive);
    steps, t := Then(s, steps, t, Destroy);
    steps, t := Then(s, steps, t, Poll);
    steps, t := Then(s, steps, t, JoinLast);
  }

  /** After the destructor: all collected, and joined are exactly the reapers that had an id to record. */
  lemma DestructorCollects(n: nat, steps: seq<Step>, i: nat)
    requires Possible(Initial(n), steps) && Run(Initial(n), steps).destructor == Done
    requires i < |Run(Initial(n), steps).members|
    ensures var m := Run(Initial(n), steps).members[i];
            (m.post == Idle || Collected(m)) && (m.reaperJoins == 1 <==> m.recorded)
  {
    InitialOk(n);
    RunOk(Initial(n), steps);
    assert MemberOk(Run(Initial(n), steps).members[i]) && Linked(Run(Initial(n), steps), i);
  }

  /** The steps of threads that are already posted. */
  predicate Progress(step: Step) {
    step.Count? || step.Finish? || step.Store? || step.Exit? || step.Reap?
  }

  predicate MemberSettled(m: Member) {
    m.post != InFlight && m.worker in {NotStarted, StartFailed, Exited} && m.reaper in {Absent, Gone}
  }

  /** Nothing is left to do for any posted thread. */
  ghost predicate Settled(s: State) {
    forall i :: 0 <= i < |s.members| ==> MemberSettled(s.members[i])
  }

  predicate CanMove(s: State, step: Step) {
    Progress(step) && Enabled(s, step)
  }

  /** A worker never waits: it can always take its next step. */
  lemma WorkerMoves(s: State, i: nat) returns (step: Step)
    requires i < |s.members| && s.members[i].worker !in {NotStarted, StartFailed, Exited}
    ensures CanMove(s, step)
  {
    var w := s.members[i].worker;
    step := if w == Running then Finish(i, true) else if w.Storing? then Store(i) else Exit(i);
  }

  /** The holder of the mutex waits, if at all, for a reaper that has left it or for a worker. */
  lemma HolderMoves(s: State) returns (step: Step)
    requires Ok(s) && s.holder != NOBODY
    ensures CanMove(s, step)
  {
    var h := s.holder;
    assert Linked(s, h) && MemberOk(s.members[h]);
    if CanReap(s, h) {
      step := Reap(h);
    } else if s.members[h].reaper == JoinWorker {
      step := WorkerMoves(s, h);
    } else {
      var last := s.threadid;
      assert s.members[h].reaper == JoinPrevious && Linked(s, last) && MemberOk(s.members[last]);
      step := Reap(last);
    }
  }

  /** No deadlock: while a posted thread is not settled, some thread can move. */
  lemma NoDeadlock(s: State, i: nat) returns (step: Step)
    requires Ok(s) && i < |s.members| && !MemberSettled(s.members[i])
    ensures CanMove(s, step)
  {
    var m := s.members[i];
    assert MemberOk(m) && Linked(s, i);
    if m.worker !in {NotStarted, StartFailed, Exited} {
      step := WorkerMoves(s, i);
    } else if s.holder != NOBODY {
      step := HolderMoves(s);
    } else {
      step := if m.post == InFlight then Count(i) else Reap(i);
    }
  }

  /** Steps that the threads of a member can still take. */
  function Left(m: Member): nat {
    (if m.post == InFlight then 1 else 0)
    + (match m.worker case Running => 11 case Storing(_) => 2 case Exiting => 1 case _ => 0)
    + (if m.reaper == Absent then 0 else Rank(Gone) - Rank(m.reaper))
  }

  function TotalLeft(members: seq<Member>): nat {
    if members == [] then 0 else TotalLeft(members[..|members| - 1]) + Left(members[|members| - 1])
  }

  lemma {:induction false} PutLeft(members: seq<Member>, i: nat, m: Member)
    requires i < |members|
    ensures TotalLeft(members[i := m]) == TotalLeft(members) - Left(members[i]) + Left(m)
  {
    var n := |members| - 1;
    if i < n {
      PutLeft(members[..n], i, m);
      assert members[i := m][..n] == members[..n][i := m];
    } else {
      assert members[i := m][..n] == members[..n];
    }
  }

  lemma JoinPreviousUsesUp(s: State, i: nat)
    requires i < |s.members| && CanReap(s, i) && s.members[i].reaper == JoinPrevious
    ensures TotalLeft(Reaped(s, i).members) < TotalLeft(s.members)
  {
    var t := JoinedLast(s);
    if s.threadid != NOBODY {
      PutLeft(s.members, s.threadid, t.members[s.threadid]);
    }
    PutLeft(t.members, i, t.members[i].(reaper := Record));
  }

  lemma ReapUsesUp(s: State, i: nat)
    requires i < |s.members| && CanReap(s, i)
    ensures TotalLeft(Reaped(s, i).members) < TotalLeft(s.members)
  {
    if s.members[i].reaper == JoinPrevious {
      JoinPreviousUsesUp(s, i);
    } else {
      PutLeft(s.members, i, Reaped(s, i).members[i]);
    }
  }

  lemma MoveUsesUp(s: State, step: Step)
    requires CanMove(s, step) && (step.Finish? ==> s.members[step.i].reaper == Absent)
    ensures TotalLeft(Apply(s, step).members) < TotalLeft(s.members)
  {
    if step.Reap? {
      ReapUsesUp(s, step.i);
    } else {
      PutLeft(s.members, step.i, Apply(s, step).members[step.i]);
    }
  }

  /** Left alone, the posted threads stop after a bounded number of steps, in any order. */
  lemma {:induction false} MovesEnd(s: State, steps: seq<Step>)
    requires Ok(s) && Possible(s, steps) && forall k :: 0 <= k < |steps| ==> Progress(steps[k])
    ensures Ok(Run(s, steps)) && |steps| + TotalLeft(Run(s, steps).members) <= TotalLeft(s.members)
    decreases |steps|
  {
    if steps != [] {
      assert Progress(steps[0]);
      StepOk(s, steps[0]);
      assert steps[0].Finish? ==> MemberOk(s.members[steps[0].i]);
      MoveUsesUp(s, steps[0]);
      MovesEnd(Apply(s, steps[0]), steps[1..]);
    }
  }

  /** Where all is settled nobody holds the mutex, and the last reaper recorded is gone. */
  lemma SettledIsFree(s: State)
    requires Ok(s) && Settled(s)
    ensures s.holder == NOBODY && CanJoinLast(s)
  {
    if s.holder != NOBODY {
      NotHeld(s, s.holder);
    }
    if s.threadid != NOBODY {
      assert Linked(s, s.threadid) && MemberOk(s.members[s.threadid]) && MemberSettled(s.members[s.threadid]);
    }
  }

  lemma NotHeld(s: State, i: int)
    requires Ok(s) && Settled(s) && 0 <= i < |s.members|
    ensures s.holder != i
  {
    assert Linked(s, i) && MemberSettled(s.members[i]);
  }

  lemma SettledLoad(s: State)
    requires Ok(s) && Settled(s)
    ensures s.running == 0 <==> forall i :: 0 <= i < |s.members| ==>
                                  s.members[i].worker != StartFailed
                                  && (s.members[i].worker == Exited ==> s.members[i].reaper != Absent)
  {
    ZeroLoad(s.members);
    forall i | 0 <= i < |s.members|
      ensures (s.members[i].post == Idle || Rank(s.members[i].reaper) > Rank(Decrement)) <==>
              s.members[i].worker != StartFailed
              && (s.members[i].worker == Exited ==> s.members[i].reaper != Absent)
    {
      assert MemberOk(s.members[i]) && MemberSettled(s.members[i]);
    }
  }

  /**
   Where they stop everything is settled, a poll and the last join can be taken, and the poll of
   ~ThreadController sees a count of zero exactly when no thread failed to start or to create its
   reaper.
   */
  lemma DestructorEnds(s: State)
    requires Ok(s) && forall step :: Progress(step) ==> !Enabled(s, step)
    ensures Settled(s) && s.holder == NOBODY && CanJoinLast(s)
    ensures s.running == 0 <==> forall i :: 0 <= i < |s.members| ==>
                                  s.members[i].worker != StartFailed
                                  && (s.members[i].worker == Exited ==> s.members[i].reaper != Absent)
  {
    forall i | 0 <= i < |s.members| ensures MemberSettled(s.members[i]) {
      if !MemberSettled(s.members[i]) {
        var step := NoDeadlock(s, i);
      }
    }
    SettledIsFree(s);
    SettledLoad(s);
  }

  /** From there the destructor comes to its end in three steps, or polls for ever. */
  lemma DestructorReturns(s: State)
    requires Ok(s) && Settled(s) && s.destructor == Alive
    ensures Enabled(s, Destroy) && Enabled(Apply(s, Destroy), Poll)
    ensures var t := Apply(Apply(s, Destroy), Poll);
            if s.running == 0 then Enabled(t, JoinLast) && Apply(t, JoinLast).destructor == Done
            else t == Apply(s, Destroy)
  {
    SettledIsFree(s);
    assert forall i :: 0 <= i < |s.members| ==> MemberSettled(s.members[i]);
  }
}
