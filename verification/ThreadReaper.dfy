/**
 kol::ThreadController: threads posted to it are joined and deleted by reaper threads that they
 create themselves, one reaper at a time, each joining the one before. The steps of all threads
 interleave; a Thread's start is one step.
 */
module ThreadReaper {

  datatype Post = Idle | InFlight | Counted

  /** A posted thread; done() first creates the reaper, then stores its id. */
  datatype Worker = NotStarted | StartFailed | Running | Storing(created: bool) | Exiting | Exited

  /** The reaper of one thread, by what delthread does next. */
  datatype Reaper =
    Absent | AtLock | JoinPrevious | Record | JoinWorker | Delete | Decrement | Unlock | Leaving | Gone

  /**
   One Thread object: its post, its worker, whether m_delthreadid is set, its reaper, whether
   that reaper recorded itself in the controller, and how often each was joined or deleted.
   */
  datatype Member = Member(post: Post, worker: Worker, id: bool, reaper: Reaper, recorded: bool,
                           joins: nat, deletes: nat, reaperJoins: nat)

  const NOBODY := -1

  datatype Destructor = Alive | Polling | Joining | Done

  /** m_running, m_threadid and the mutex of the controller; members are indices. */
  datatype State = State(members: seq<Member>, running: int, threadid: int, holder: int, destructor: Destructor)

  datatype Step =
    Start(i: nat, ok: bool) | Count(i: nat) | Finish(i: nat, ok: bool) | Store(i: nat) | Exit(i: nat)
  | Reap(i: nat) | Destroy | Poll | JoinLast

  const IDLE := Member(Idle, NotStarted, false, Absent, false, 0, 0, 0)

  function Initial(n: nat): State {
    State(seq(n, _ => IDLE), 0, NOBODY, NOBODY, Alive)
  }

  function Rank(r: Reaper): nat {
    match r
    case Absent => 0 case AtLock => 1 case JoinPrevious => 2 case Record => 3 case JoinWorker => 4
    case Delete => 5 case Decrement => 6 case Unlock => 7 case Leaving => 8 case Gone => 9
  }

  predicate Holds(r: Reaper) { 2 <= Rank(r) <= 7 }

  /** pthread_join on m_threadid returns once that reaper is gone; on 0 it is skipped. */
  predicate CanJoinLast(s: State) {
    s.threadid == NOBODY || (0 <= s.threadid < |s.members| && s.members[s.threadid].reaper == Gone)
  }

  /** A reaper's next step can be taken. */
  predicate CanReap(s: State, i: nat)
    requires i < |s.members|
  {
    match s.members[i].reaper
    case Absent => false
    case AtLock => s.holder == NOBODY
    case JoinPrevious => CanJoinLast(s)
    case JoinWorker => s.members[i].worker == Exited
    case Gone => false
    case _ => true
  }

  /** What the threads may do, and what the owner may: it destroys with no post under way. */
  predicate Enabled(s: State, step: Step) {
    match step
    case Start(i, ok) => i < |s.members| && s.members[i].post == Idle && s.destructor == Alive
    case Count(i) => i < |s.members| && s.members[i].post == InFlight && s.holder == NOBODY
    case Finish(i, ok) => i < |s.members| && s.members[i].worker == Running
    case Store(i) => i < |s.members| && s.members[i].worker.Storing?
    case Exit(i) => i < |s.members| && s.members[i].worker == Exiting
    case Reap(i) => i < |s.members| && CanReap(s, i)
    case Destroy => s.destructor == Alive && NoneInFlight(s)
    case Poll => s.destructor == Polling && s.holder == NOBODY
    case JoinLast => s.destructor == Joining && CanJoinLast(s)
  }

  predicate NoneInFlight(s: State) {
    forall i :: 0 <= i < |s.members| ==> s.members[i].post != InFlight
  }

  function Put(s: State, i: nat, m: Member): State
    requires i < |s.members|
  {
    s.(members := s.members[i := m])
  }

  /** join() and closeid(): whoever m_threadid names is joined, and forgotten. */
  function JoinedLast(s: State): State {
    if 0 <= s.threadid < |s.members| then
      var last := s.members[s.threadid];
      Put(s, s.threadid, last.(reaperJoins := last.reaperJoins + 1)).(threadid := NOBODY)
    else s
  }

  function Reaped(s: State, i: nat): State
    requires i < |s.members|
  {
    var m := s.members[i];
    match m.reaper
    case AtLock => Put(s, i, m.(reaper := JoinPrevious)).(holder := i)
    case JoinPrevious =>
      var t := JoinedLast(s);
      Put(t, i, t.members[i].(reaper := Record))
    case Record => Put(s, i, m.(reaper := JoinWorker, recorded := m.id)).(threadid := if m.id then i else NOBODY)
    case JoinWorker => Put(s, i, m.(reaper := Delete, joins := m.joins + 1))
    case Delete => Put(s, i, m.(reaper := Decrement, deletes := m.deletes + 1))
    case Decrement => Put(s, i, m.(reaper := Unlock)).(running := s.running - 1)
    case Unlock => Put(s, i, m.(reaper := Leaving)).(holder := NOBODY)
    case Leaving => Put(s, i, m.(reaper := Gone))
    case _ => s
  }

  function Apply(s: State, step: Step): State
    requires Enabled(s, step)
  {
    match step
    case Start(i, ok) => Put(s, i, s.members[i].(post := InFlight, worker := if ok then Running else StartFailed))
    case Count(i) => Put(s, i, s.members[i].(post := Counted)).(running := s.running + 1)
    case Finish(i, ok) =>
      var m := s.members[i].(worker := Storing(ok));
      Put(s, i, if ok then m.(reaper := AtLock) else m)
    case Store(i) => Put(s, i, s.members[i].(worker := Exiting, id := s.members[i].worker.created))
    case Exit(i) => Put(s, i, s.members[i].(worker := Exited))
    case Reap(i) => Reaped(s, i)
    case Destroy => s.(destructor := Polling)
    case Poll => if s.running == 0 then s.(destructor := Joining) else s
    case JoinLast => JoinedLast(s).(destructor := Done)
  }

  predicate Possible(s: State, steps: seq<Step>)
    decreases |steps|
  {
    steps == [] || (Enabled(s, steps[0]) && Possible(Apply(s, steps[0]), steps[1..]))
  }

  function Run(s: State, steps: seq<Step>): State
    requires Possible(s, steps)
    decreases |steps|
  {
    if steps == [] then s else Run(Apply(s, steps[0]), steps[1..])
  }

  /** What holds of each member at all times. */
  predicate MemberOk(m: Member) {
    (m.post == Idle <==> m.worker == NotStarted)
    && (m.reaper != Absent ==> m.worker in {Storing(true), Exiting, Exited})
    && (m.worker == Storing(true) || m.id ==> m.reaper != Absent)
    && (m.worker in {Exiting, Exited} && m.reaper != Absent ==> m.id)
    && m.joins == (if Rank(m.reaper) > Rank(JoinWorker) then 1 else 0)
    && m.deletes == (if Rank(m.reaper) > Rank(Delete) then 1 else 0)
    && (Rank(m.reaper) > Rank(JoinWorker) ==> m.worker == Exited)
    && (m.recorded ==> Rank(m.reaper) > Rank(Record))
    && m.reaperJoins <= 1
    && (m.reaperJoins == 1 ==> m.recorded && m.reaper == Gone)
  }

  /** m_threadid names the one reaper that recorded itself and has not been joined yet. */
  predicate Linked(s: State, i: int)
    requires 0 <= i < |s.members|
  {
    var m := s.members[i];
    (s.holder == i <==> Holds(m.reaper))
    && (s.threadid == i <==> m.recorded && m.reaperJoins == 0)
    && (m.reaper == Record ==> s.threadid == NOBODY)
    && (Rank(JoinWorker) <= Rank(m.reaper) <= Rank(Unlock) ==> s.threadid == i || (!m.recorded && s.threadid == NOBODY))
  }

  /** Posted and not yet taken off the count. */
  function Load(m: Member): int {
    (if m.post == Counted then 1 else 0) - (if Rank(m.reaper) > Rank(Decrement) then 1 else 0)
  }

  function TotalLoad(members: seq<Member>): int {
    if members == [] then 0 else TotalLoad(members[..|members| - 1]) + Load(members[|members| - 1])
  }

  ghost predicate Ok(s: State) {
    && -1 <= s.threadid < |s.members| && -1 <= s.holder < |s.members|
    && (forall i :: 0 <= i < |s.members| ==> MemberOk(s.members[i]) && Linked(s, i))
    && s.running == TotalLoad(s.members)
    && (s.destructor != Alive ==> NoneInFlight(s))
    && (s.destructor in {Joining, Done} ==> Quiet(s.members))
    && (s.destructor == Done ==> s.threadid == NOBODY)
  }

  /** Every posted thread has been reaped, and its reaper has given up the mutex. */
  ghost predicate Quiet(members: seq<Member>) {
    forall i :: 0 <= i < |members| ==> members[i].post == Idle || Rank(members[i].reaper) >= Rank(Leaving)
  }

  lemma {:induction false} PutLoad(members: seq<Member>, i: nat, m: Member)
    requires i < |members|
    ensures TotalLoad(members[i := m]) == TotalLoad(members) - Load(members[i]) + Load(m)
  {
    var n := |members| - 1;
    if i < n {
      PutLoad(members[..n], i, m);
      assert members[i := m][..n] == members[..n][i := m];
    } else {
      assert members[i := m][..n] == members[..n];
    }
  }

  /** With no post under way a count of zero means that each posted thread is off the count. */
  lemma {:induction false} ZeroLoad(members: seq<Member>)
    requires forall i :: 0 <= i < |members| ==> MemberOk(members[i]) && members[i].post != InFlight
    ensures TotalLoad(members) >= 0
    ensures TotalLoad(members) == 0 <==>
            forall i :: 0 <= i < |members| ==> members[i].post == Idle || Rank(members[i].reaper) > Rank(Decrement)
  {
    if members != [] {
      var n := |members| - 1;
      assert MemberOk(members[n]);
      ZeroLoad(members[..n]);
      assert forall i :: 0 <= i < n ==> members[..n][i] == members[i];
    }
  }

  lemma {:induction false} IdleLoad(n: nat)
    ensures TotalLoad(seq(n, _ => IDLE)) == 0
  {
    if n > 0 {
      assert seq(n, _ => IDLE)[..n - 1] == seq(n - 1, _ => IDLE);
      IdleLoad(n - 1);
    }
  }

  lemma InitialOk(n: nat)
    ensures Ok(Initial(n))
  {
    IdleLoad(n);
  }

  /** A step of one member that leaves mutex, m_threadid and its own links alone. */
  lemma MemberStep(s: State, i: nat, m: Member, running: int)
    requires Ok(s) && i < |s.members| && MemberOk(m)
    requires Holds(m.reaper) == Holds(s.members[i].reaper)
    requires m.recorded == s.members[i].recorded && m.reaperJoins == s.members[i].reaperJoins
    requires m.reaper == Record ==> s.members[i].reaper == Record
    requires Rank(JoinWorker) <= Rank(m.reaper) <= Rank(Unlock) ==> Rank(JoinWorker) <= Rank(s.members[i].reaper) <= Rank(Unlock)
    requires running == s.running - Load(s.members[i]) + Load(m)
    requires s.destructor != Alive ==> m.post != InFlight
    requires s.destructor in {Joining, Done} ==> m.post == Idle || Rank(m.reaper) >= Rank(Leaving)
    ensures Ok(Put(s, i, m).(running := running))
  {
    PutLoad(s.members, i, m);
    var t := Put(s, i, m).(running := running);
    forall j | 0 <= j < |t.members| ensures MemberOk(t.members[j]) && Linked(t, j) {
      assert Linked(s, j) && MemberOk(s.members[j]);
    }
  }

  lemma WorkerStep(s: State, step: Step)
    requires Ok(s) && Enabled(s, step) && (step.Start? || step.Count? || step.Finish? || step.Store? || step.Exit?)
    ensures Ok(Apply(s, step))
  {
    var m := s.members[step.i];
    var t := Apply(s, step);
    assert MemberOk(m);
    MemberStep(s, step.i, t.members[step.i], t.running);
    assert t == Put(s, step.i, t.members[step.i]).(running := t.running);
  }

  /** A reaper that takes or gives up the mutex. */
  lemma MutexStep(s: State, i: nat, m: Member, holder: int)
    requires Ok(s) && i < |s.members| && MemberOk(m) && Load(m) == Load(s.members[i])
    requires m.recorded == s.members[i].recorded && m.reaperJoins == s.members[i].reaperJoins
    requires m.post == s.members[i].post && Rank(s.members[i].reaper) <= Rank(m.reaper)
    requires (m.reaper == JoinPrevious && holder == i && s.holder == NOBODY)
             || (m.reaper == Leaving && holder == NOBODY && s.holder == i)
    ensures Ok(Put(s, i, m).(holder := holder))
  {
    PutLoad(s.members, i, m);
    var t := Put(s, i, m).(holder := holder);
    forall j | 0 <= j < |t.members| ensures MemberOk(t.members[j]) && Linked(t, j) {
      assert MemberOk(s.members[j]);
      MutexLinks(s, i, m, holder, j);
    }
  }

  lemma MutexLinks(s: State, i: nat, m: Member, holder: int, j: nat)
    requires i < |s.members| && j < |s.members| && Linked(s, i) && Linked(s, j)
    requires m.recorded == s.members[i].recorded && m.reaperJoins == s.members[i].reaperJoins
    requires (m.reaper == JoinPrevious && holder == i && s.holder == NOBODY)
             || (m.reaper == Leaving && holder == NOBODY && s.holder == i)
    ensures Linked(Put(s, i, m).(holder := holder), j)
  {
  }

  lemma RecordStep(s: State, i: nat, m: Member, threadid: int)
    requires Ok(s) && i < |s.members| && s.members[i].reaper == Record
    requires m == s.members[i].(reaper := JoinWorker, recorded := s.members[i].id)
    requires threadid == if m.id then i else NOBODY
    ensures Ok(Put(s, i, m).(threadid := threadid))
  {
    var t := Put(s, i, m).(threadid := threadid);
    PutLoad(s.members, i, m);
    assert MemberOk(s.members[i]) && Linked(s, i);
    forall j | 0 <= j < |t.members| ensures MemberOk(t.members[j]) && Linked(t, j) {
      assert Linked(s, j) && MemberOk(s.members[j]);
    }
  }

  /** Joining the recorded reaper keeps everything, and leaves none recorded. */
  lemma JoinLastOk(s: State)
    requires Ok(s) && CanJoinLast(s)
    requires forall i :: 0 <= i < |s.members| ==> !(Rank(Record) <= Rank(s.members[i].reaper) <= Rank(Unlock))
    ensures Ok(JoinedLast(s)) && JoinedLast(s).threadid == NOBODY
  {
    var t := JoinedLast(s);
    if s.threadid != NOBODY {
      var last := s.members[s.threadid];
      assert MemberOk(last) && Linked(s, s.threadid);
      PutLoad(s.members, s.threadid, t.members[s.threadid]);
    }
    forall j | 0 <= j < |t.members| ensures MemberOk(t.members[j]) && Linked(t, j) {
      assert Linked(s, j) && MemberOk(s.members[j]);
    }
  }

  lemma JoinPreviousStep(s: State, i: nat)
    requires Ok(s) && i < |s.members| && CanReap(s, i) && s.members[i].reaper == JoinPrevious
    ensures Ok(Reaped(s, i))
  {
    forall j | 0 <= j < |s.members| ensures !(Rank(Record) <= Rank(s.members[j].reaper) <= Rank(Unlock)) {
      assert Linked(s, j) && Linked(s, i);
    }
    JoinLastOk(s);
    NextRecord(JoinedLast(s), i);
  }

  lemma NextRecord(s: State, i: nat)
    requires Ok(s) && i < |s.members| && s.members[i].reaper == JoinPrevious && s.threadid == NOBODY
    ensures Ok(Put(s, i, s.members[i].(reaper := Record)))
  {
    var m := s.members[i].(reaper := Record);
    var t := Put(s, i, m);
    PutLoad(s.members, i, m);
    assert MemberOk(s.members[i]) && Linked(s, i);
    forall j | 0 <= j < |t.members| ensures MemberOk(t.members[j]) && Linked(t, j) {
      assert Linked(s, j) && MemberOk(s.members[j]);
    }
  }

  /** Steps of a reaper that change nothing but its own member and the count. */
  lemma PlainReap(s: State, i: nat, m: Member, running: int)
    requires Ok(s) && i < |s.members| && CanReap(s, i) && s.members[i].reaper in {JoinWorker, Delete, Decrement, Leaving}
    requires m == Reaped(s, i).members[i] && running == Reaped(s, i).running
    ensures Ok(Put(s, i, m).(running := running))
  {
    assert MemberOk(s.members[i]);
    MemberStep(s, i, m, running);
  }

  lemma ReaperStep(s: State, i: nat)
    requires Ok(s) && i < |s.members| && CanReap(s, i)
    ensures Ok(Reaped(s, i))
  {
    var m := s.members[i];
    assert MemberOk(m) && Linked(s, i);
    if m.reaper == AtLock {
      MutexStep(s, i, m.(reaper := JoinPrevious), i);
    } else if m.reaper == Unlock {
      MutexStep(s, i, m.(reaper := Leaving), NOBODY);
    } else if m.reaper == Record {
      RecordStep(s, i, m.(reaper := JoinWorker, recorded := m.id), if m.id then i else NOBODY);
    } else if m.reaper == JoinPrevious {
      JoinPreviousStep(s, i);
    } else {
      var t := Reaped(s, i);
      PlainReap(s, i, t.members[i], t.running);
      assert t == Put(s, i, t.members[i]).(running := t.running);
    }
  }

  lemma OwnerMoves(s: State, destructor: Destructor)
    requires Ok(s) && (destructor != Alive ==> NoneInFlight(s)) && (destructor in {Joining, Done} ==> Quiet(s.members))
    requires destructor == Done ==> s.threadid == NOBODY
    ensures Ok(s.(destructor := destructor))
  {
  }

  lemma PollStep(s: State)
    requires Ok(s) && s.holder == NOBODY && s.running == 0 && NoneInFlight(s)
    ensures Quiet(s.members)
  {
    ZeroLoad(s.members);
    forall i | 0 <= i < |s.members| ensures s.members[i].post == Idle || Rank(s.members[i].reaper) >= Rank(Leaving) {
      assert Linked(s, i);
    }
  }

  lemma OwnerStep(s: State, step: Step)
    requires Ok(s) && Enabled(s, step) && (step.Destroy? || step.Poll? || step.JoinLast?)
    ensures Ok(Apply(s, step))
  {
    if step.Destroy? {
      OwnerMoves(s, Polling);
    } else if step.JoinLast? {
      forall i | 0 <= i < |s.members| ensures !(Rank(Record) <= Rank(s.members[i].reaper) <= Rank(Unlock)) {
        assert MemberOk(s.members[i]);
      }
      JoinLastOk(s);
      OwnerMoves(JoinedLast(s), Done);
    } else if s.running == 0 {
      PollStep(s);
      OwnerMoves(s, Joining);
    }
  }

  lemma StepOk(s: State, step: Step)
    requires Ok(s) && Enabled(s, step)
    ensures Ok(Apply(s, step))
  {
    match step
    case Reap(i) => ReaperStep(s, i);
    case Destroy => OwnerStep(s, step);
    case Poll => OwnerStep(s, step);
    case JoinLast => OwnerStep(s, step);
    case _ => WorkerStep(s, step);
  }

  lemma {:induction false} RunOk(s: State, steps: seq<Step>)
    requires Ok(s) && Possible(s, steps)
    ensures Ok(Run(s, steps))
    decreases |steps|
  {
    if steps != [] {
      StepOk(s, steps[0]);
      RunOk(Apply(s, steps[0]), steps[1..]);
    }
  }
}
