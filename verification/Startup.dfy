/**
 The start-up barrier: N task threads running DAQTask::state_machine against main(), which
 starts them, clears their done flags, waits for each, and only then leaves SM_INIT.
 */
module Startup {
  import opened Pipeline

  /** Where a task is in its loop; each constructor is the point before the named action. */
  datatype TaskPc =
    | Unborn | ReadsState | ReadsDone | InInit | InitReturned | Sleeping
    | InHandler | ReadsExit | Exited

  /** finished and inits record the past: st_init has returned, and how often it was entered. */
  datatype Task = Task(pc: TaskPc, done: bool, finished: bool, inits: nat, cleared: bool)

  /** main(): how many tasks it has started, cleared and seen done; then the run states. */
  datatype MainPc =
    | Starting(n: nat) | Clearing(n: nat) | SettingInit | Polling(n: nat)
    | SettingIdle | SettingRunning | Commanding | Over

  datatype World = World(run: RunState, main: MainPc, tasks: seq<Task>)

  datatype Move = Main(good: bool) | Command(run: RunState) | Task(i: nat)

  function Initially(n: nat): World {
    World(INIT, Starting(0), seq(n, _ => Task.Task(Unborn, false, false, 0, false)))
  }

  /** One action of main(). Polling a task that is not done leaves everything as it is. */
  function MainMoves(w: World, good: bool): World {
    var n := |w.tasks|;
    match w.main
    case Starting(k) =>
      if k < n then w.(main := Starting(k + 1), tasks := w.tasks[k := w.tasks[k].(pc := ReadsState)])
      else w.(main := Clearing(0))
    case Clearing(k) =>
      if k < n then
        w.(main := Clearing(k + 1), tasks := w.tasks[k := w.tasks[k].(done := false, cleared := true)])
      else w.(main := SettingInit)
    case SettingInit => w.(main := Polling(0), run := INIT)
    case Polling(k) =>
      if k < n then if w.tasks[k].done then w.(main := Polling(k + 1)) else w
      else if good then w.(main := SettingIdle)
      else w.(main := Over, run := EXIT)
    case SettingIdle => w.(main := SettingRunning, run := IDLE)
    case SettingRunning => w.(main := Commanding, run := RUNNING)
    case Commanding => w.(main := Over, run := EXIT)
    case Over => w
  }

  /** One action of a task's loop; the state it acts on was read in an earlier action. */
  function TaskMoves(t: Task, run: RunState): Task {
    match t.pc
    case Unborn => t
    case ReadsState =>
      t.(pc := match run case INIT => ReadsDone case EXIT => ReadsExit case _ => InHandler)
    case ReadsDone => if t.done then t.(pc := Sleeping) else t.(pc := InInit, inits := t.inits + 1)
    case InInit => t.(pc := InitReturned, finished := true)
    case InitReturned => t.(pc := ReadsExit, done := true)
    case Sleeping => t.(pc := ReadsExit, done := true)
    case InHandler => t.(pc := ReadsExit)
    case ReadsExit => t.(pc := if run == EXIT then Exited else ReadsState)
    case Exited => t
  }

  /** Commands may set any run state but SM_INIT: re-initialisation is not part of this model. */
  function After(w: World, move: Move): World {
    match move
    case Main(good) => MainMoves(w, good)
    case Command(run) => if w.main == Commanding && run != INIT then w.(run := run) else w
    case Task(i) =>
      if i < |w.tasks| then w.(tasks := w.tasks[i := TaskMoves(w.tasks[i], w.run)]) else w
  }

  function Outcome(n: nat, moves: seq<Move>): World {
    if moves == [] then Initially(n)
    else After(Outcome(n, moves[..|moves| - 1]), moves[|moves| - 1])
  }

  /** The done flag is down while st_init runs, and up only after it has run. */
  predicate TaskOk(t: Task) {
    (t.pc.InInit? || t.pc.InitReturned? ==> !t.done)
    && (t.done || t.pc.InitReturned? || t.pc.Sleeping? ==> t.finished)
    && t.inits + (if !t.done && !t.pc.InInit? && !t.pc.InitReturned? then 1 else 0)
       <= 1 + (if t.cleared then 1 else 0)
    && (!t.cleared ==> t.inits == if Begun(t) then 1 else 0)
  }

  /** st_init has been entered, and its end is seen or still to come. */
  predicate Begun(t: Task) {
    t.done || t.pc.InInit? || t.pc.InitReturned? || t.pc.Sleeping?
  }

  /** How many tasks main() has already seen done. */
  function Polled(w: World): nat {
    match w.main
    case Starting(_) => 0
    case Clearing(_) => 0
    case SettingInit => 0
    case Polling(k) => k
    case _ => |w.tasks|
  }

  /** How many tasks main() has already cleared. */
  function ClearedUpTo(w: World): nat {
    match w.main
    case Starting(_) => 0
    case Clearing(k) => k
    case _ => |w.tasks|
  }

  predicate WorldOk(n: nat, w: World) {
    |w.tasks| == n && Polled(w) <= n && ClearedUpTo(w) <= n
    && (forall i :: 0 <= i < n ==> TaskOk(w.tasks[i]))
    && (forall i :: 0 <= i < Polled(w) ==> w.tasks[i].done)
    && (forall i :: ClearedUpTo(w) <= i < n ==> !w.tasks[i].cleared)
    && (forall i :: 0 <= i < n && w.main.Starting? && w.main.n <= i ==> w.tasks[i].pc.Unborn?)
    && (w.run != INIT ==> w.main.SettingRunning? || w.main.Commanding? || w.main.Over?)
  }

  lemma TaskKeeps(t: Task, run: RunState)
    requires TaskOk(t)
    ensures TaskOk(TaskMoves(t, run)) && TaskMoves(t, run).cleared == t.cleared
    ensures t.done ==> TaskMoves(t, run).done
  {
  }

  lemma MoveKeeps(n: nat, w: World, move: Move)
    requires WorldOk(n, w)
    ensures WorldOk(n, After(w, move))
  {
    if move.Task? && move.i < n {
      TaskKeeps(w.tasks[move.i], w.run);
    }
  }

  lemma {:induction false} AlwaysOk(n: nat, moves: seq<Move>)
    ensures WorldOk(n, Outcome(n, moves))
  {
    if moves != [] {
      AlwaysOk(n, moves[..|moves| - 1]);
      MoveKeeps(n, Outcome(n, moves[..|moves| - 1]), moves[|moves| - 1]);
    }
  }

  /**
   Under every interleaving, once the state has left SM_INIT no task is inside st_init,
   and every task has finished it.
   */
  lemma Barrier(n: nat, moves: seq<Move>, i: nat)
    requires i < n && Outcome(n, moves).run != INIT
    ensures var w := Outcome(n, moves);
            |w.tasks| == n && w.tasks[i].finished && w.tasks[i].done
            && !w.tasks[i].pc.InInit? && !w.tasks[i].pc.InitReturned?
  {
    AlwaysOk(n, moves);
    assert TaskOk(Outcome(n, moves).tasks[i]);
  }

  /** Clearing the flags after the start can make st_init run a second time, never a third. */
  lemma AtMostTwoInits(n: nat, moves: seq<Move>, i: nat)
    requires i < n
    ensures |Outcome(n, moves).tasks| == n && Outcome(n, moves).tasks[i].inits <= 2
  {
    AlwaysOk(n, moves);
    assert TaskOk(Outcome(n, moves).tasks[i]);
  }

  /** A task that has been entered n times since, or will be once more. */
  predicate Bound(t: Task, n: nat) {
    t.cleared && t.inits + (if Begun(t) then 0 else 1) == n
  }

  /** After main() has cleared task i it is past that for good. */
  predicate PastClearing(w: World, i: nat) {
    !w.main.Starting? && (w.main.Clearing? ==> w.main.n > i)
  }

  predicate Settled(w: World, n: nat, i: nat, inits: nat) {
    i < n == |w.tasks| && Bound(w.tasks[i], inits) && PastClearing(w, i)
  }

  lemma StaysSettled(w: World, move: Move, next: World, n: nat, i: nat, inits: nat)
    requires Settled(w, n, i, inits) && next == After(w, move)
    ensures Settled(next, n, i, inits)
  {
  }

  lemma {:induction false} SettledAlong(n: nat, moves: seq<Move>, k: nat, i: nat, inits: nat)
    requires k <= |moves| && Settled(Outcome(n, moves[..k]), n, i, inits)
    ensures Settled(Outcome(n, moves), n, i, inits)
    decreases |moves|
  {
    var last := |moves| - 1;
    if k <= last {
      assert moves[..last][..k] == moves[..k];
      SettledAlong(n, moves[..last], k, i, inits);
      StaysSettled(Outcome(n, moves[..last]), moves[last], Outcome(n, moves), n, i, inits);
    } else {
      assert moves[..k] == moves;
    }
  }

  /**
   How often: once the state has left SM_INIT, a task has run st_init twice if main() found it
   done when it cleared its flag, and not on its way to set the flag again; otherwise once.
   */
  lemma InitsExactly(n: nat, moves: seq<Move>, k: nat, i: nat)
    requires k < |moves| && i < n && moves[k].Main? && Outcome(n, moves[..k]).main == Clearing(i)
    requires Outcome(n, moves).run != INIT
    ensures |Outcome(n, moves[..k]).tasks| == |Outcome(n, moves).tasks| == n
    ensures var found := Outcome(n, moves[..k]).tasks[i];
            Outcome(n, moves).tasks[i].inits == if found.done && !found.pc.Sleeping? then 2 else 1
  {
    var w := Outcome(n, moves[..k]);
    AlwaysOk(n, moves[..k]);
    assert TaskOk(w.tasks[i]);
    assert moves[..k + 1][..k] == moves[..k];
    var found := w.tasks[i];
    SettledAlong(n, moves, k + 1, i, if found.done && !found.pc.Sleeping? then 2 else 1);
    Barrier(n, moves, i);
  }

  lemma Play(n: nat, moves: seq<Move>, w: World, x: Move) returns (more: seq<Move>, next: World)
    requires w == Outcome(n, moves)
    ensures next == After(w, x) == Outcome(n, more)
  {
    more, next := moves + [x], After(w, x);
    assert more[..|more| - 1] == moves;
  }

  /** And it does: a task that initialises before the flags are cleared does so again. */
  lemma TwoInitsHappen() returns (moves: seq<Move>)
    ensures |Outcome(1, moves).tasks| == 1 && Outcome(1, moves).tasks[0].inits == 2
  {
    var w;
    moves, w := OneInit();
    var m, t := Main(true), Move.Task(0);
    moves, w := Play(1, moves, w, m);
    moves, w := Play(1, moves, w, m);
    moves, w := Play(1, moves, w, t);
    moves, w := Play(1, moves, w, t);
    moves, w := Play(1, moves, w, t);
  }

  lemma OneInit() returns (moves: seq<Move>, w: World)
    ensures w == Outcome(1, moves)
    ensures w == World(INIT, Starting(1), [Task.Task(ReadsExit, true, true, 1, false)])
  {
    var t := Move.Task(0);
    w := Initially(1);
    moves, w := Play(1, [], w, Main(true));
    moves, w := Play(1, moves, w, t);
    moves, w := Play(1, moves, w, t);
    moves, w := Play(1, moves, w, t);
    moves, w := Play(1, moves, w, t);
  }

  /** The world after more moves. */
  function Onward(w: World, moves: seq<Move>): World
    decreases |moves|
  {
    if moves == [] then w else Onward(After(w, moves[0]), moves[1..])
  }

  lemma {:induction false} OutcomeOnward(n: nat, moves: seq<Move>, more: seq<Move>)
    ensures Outcome(n, moves + more) == Onward(Outcome(n, moves), more)
    decreases |more|
  {
    if more == [] {
      assert moves + more == moves;
    } else {
      var first := moves + [more[0]];
      assert first[..|moves|] == moves && first + more[1..] == moves + more;
      OutcomeOnward(n, first, more[1..]);
    }
  }

  /** main()'s moves among these. */
  function OfMain(moves: seq<Move>): seq<Move> {
    if moves == [] then [] else (if moves[0].Main? then [moves[0]] else []) + OfMain(moves[1..])
  }

  lemma {:induction false} WithoutMain(w: World, moves: seq<Move>)
    requires OfMain(moves) == [] && w.main != Commanding
    ensures Onward(w, moves).main == w.main && Onward(w, moves).run == w.run
    ensures |Onward(w, moves).tasks| == |w.tasks|
    decreases |moves|
  {
    if moves != [] {
      assert !moves[0].Main?;
      WithoutMain(After(w, moves[0]), moves[1..]);
    }
  }

  predicate NoCommand(moves: seq<Move>) {
    moves == [] || (!moves[0].Command? && NoCommand(moves[1..]))
  }

  /** SM_EXIT is the end: no move of main(), of a task, or of a controller changes it. */
  lemma {:induction false} StaysOver(w: World, moves: seq<Move>)
    requires w.main == Over && w.run == EXIT
    ensures Onward(w, moves).main == Over && Onward(w, moves).run == EXIT
    decreases |moves|
  {
    if moves != [] {
      StaysOver(After(w, moves[0]), moves[1..]);
    }
  }

  /** When the last task has been seen done: good goes to SM_IDLE and on to SM_RUNNING, bad to SM_EXIT for ever. */
  lemma {:induction false} InitDecides(w: World, moves: seq<Move>)
    requires w.main == Polling(|w.tasks|) && w.run == INIT && OfMain(moves) != []
    ensures OfMain(moves)[0] == Main(true) && |OfMain(moves)| == 1 ==>
              Onward(w, moves).main == SettingIdle && Onward(w, moves).run == INIT
    ensures OfMain(moves)[0] == Main(true) && |OfMain(moves)| == 2 ==>
              Onward(w, moves).main == SettingRunning && Onward(w, moves).run == IDLE
    ensures OfMain(moves)[0] == Main(true) && |OfMain(moves)| == 3 && NoCommand(moves) ==>
              Onward(w, moves).main == Commanding && Onward(w, moves).run == RUNNING
    ensures OfMain(moves)[0] == Main(false) ==> Onward(w, moves).main == Over && Onward(w, moves).run == EXIT
    decreases |moves|
  {
    var t := After(w, moves[0]);
    if !moves[0].Main? {
      InitDecides(t, moves[1..]);
    } else if moves[0].good {
      GoesIdle(t, moves[1..]);
    } else {
      StaysOver(t, moves[1..]);
    }
  }

  lemma {:induction false} GoesIdle(w: World, moves: seq<Move>)
    requires w.main == SettingIdle && w.run == INIT
    ensures OfMain(moves) == [] ==> Onward(w, moves).main == SettingIdle && Onward(w, moves).run == INIT
    ensures |OfMain(moves)| == 1 ==> Onward(w, moves).main == SettingRunning && Onward(w, moves).run == IDLE
    ensures |OfMain(moves)| == 2 && NoCommand(moves) ==> Onward(w, moves).main == Commanding && Onward(w, moves).run == RUNNING
    decreases |moves|
  {
    if moves != [] {
      if moves[0].Main? {
        GoesRunning(After(w, moves[0]), moves[1..]);
      } else {
        GoesIdle(After(w, moves[0]), moves[1..]);
      }
    }
  }

  lemma {:induction false} GoesRunning(w: World, moves: seq<Move>)
    requires w.main == SettingRunning && w.run == IDLE
    ensures OfMain(moves) == [] ==> Onward(w, moves).main == SettingRunning && Onward(w, moves).run == IDLE
    ensures |OfMain(moves)| == 1 && NoCommand(moves) ==> Onward(w, moves).main == Commanding && Onward(w, moves).run == RUNNING
    decreases |moves|
  {
    if moves != [] {
      if moves[0].Main? {
        StaysRunning(After(w, moves[0]), moves[1..]);
      } else {
        GoesRunning(After(w, moves[0]), moves[1..]);
      }
    }
  }

  lemma {:induction false} StaysRunning(w: World, moves: seq<Move>)
    requires w.main == Commanding && w.run == RUNNING
    ensures OfMain(moves) == [] && NoCommand(moves) ==> Onward(w, moves).main == Commanding && Onward(w, moves).run == RUNNING
    decreases |moves|
  {
    if moves != [] && moves[0].Task? {
      StaysRunning(After(w, moves[0]), moves[1..]);
    }
  }

  /** The last of the commands that are followed, or the state as it was. */
  function Commanded(run: RunState, moves: seq<Move>): RunState
    decreases |moves|
  {
    if moves == [] then run
    else Commanded(if moves[0].Command? && moves[0].run != INIT then moves[0].run else run, moves[1..])
  }

  /** In the command loop the run state is what was last commanded. */
  lemma {:induction false} FollowsCommands(w: World, moves: seq<Move>)
    requires w.main == Commanding && OfMain(moves) == []
    ensures Onward(w, moves).main == Commanding && Onward(w, moves).run == Commanded(w.run, moves)
    decreases |moves|
  {
    if moves != [] {
      assert !moves[0].Main?;
      FollowsCommands(After(w, moves[0]), moves[1..]);
    }
  }

  /** When the loop ends the state goes to SM_EXIT, and stays. */
  lemma {:induction false} CommandsEnd(w: World, moves: seq<Move>)
    requires w.main == Commanding && OfMain(moves) != []
    ensures Onward(w, moves).main == Over && Onward(w, moves).run == EXIT
    decreases |moves|
  {
    if moves[0].Main? {
      StaysOver(After(w, moves[0]), moves[1..]);
    } else {
      CommandsEnd(After(w, moves[0]), moves[1..]);
    }
  }

  /** Before main() leaves SM_INIT no task is in a handler or gone, and each that was started is there. */
  predicate Waiting(w: World) {
    forall i :: 0 <= i < |w.tasks| ==>
      !w.tasks[i].pc.InHandler? && !w.tasks[i].pc.Exited?
      && ((w.main.Starting? && i >= w.main.n) || !w.tasks[i].pc.Unborn?)
  }

  predicate Early(w: World) {
    w.main.Starting? || w.main.Clearing? || w.main.SettingInit? || w.main.Polling? || w.main.SettingIdle?
  }

  lemma WaitsOn(n: nat, w: World, move: Move)
    requires WorldOk(n, w) && (Early(w) ==> Waiting(w))
    ensures Early(After(w, move)) ==> Waiting(After(w, move))
  {
    assert Early(After(w, move)) ==> Early(w) && w.run == INIT;
  }

  lemma {:induction false} WaitsAtFirst(n: nat, moves: seq<Move>)
    ensures Early(Outcome(n, moves)) ==> Waiting(Outcome(n, moves))
  {
    if moves != [] {
      WaitsAtFirst(n, moves[..|moves| - 1]);
      AlwaysOk(n, moves[..|moves| - 1]);
      WaitsOn(n, Outcome(n, moves[..|moves| - 1]), moves[|moves| - 1]);
    }
  }

  /** How many actions a task needs to be done while the state is SM_INIT. */
  function TaskLeft(t: Task): nat {
    if t.done then 0
    else
      match t.pc
      case ReadsExit => 5
      case ReadsState => 4
      case ReadsDone => 3
      case InInit => 2
      case _ => 1
  }

  /** What main() has before it, and the task that it waits for. */
  function Ahead(w: World): nat {
    var n := |w.tasks|;
    match w.main
    case Starting(k) => 10 * (2 * n + 8 + if k < n then n - k else 0)
    case Clearing(k) => 10 * (n + 7 + if k < n then n - k else 0)
    case SettingInit => 10 * (n + 6)
    case Polling(k) => if k < n then 10 * (n - k + 5) + TaskLeft(w.tasks[k]) else 50
    case SettingIdle => 40
    case SettingRunning => 30
    case Commanding => 0
    case Over => 0
  }

  /** Until SM_RUNNING, main() or the task it waits for has a move that brings it nearer. */
  lemma NextMove(n: nat, w: World) returns (move: Move)
    requires WorldOk(n, w) && !w.main.Commanding? && !w.main.Over? && (Early(w) ==> Waiting(w))
    ensures move == Main(true) || move.Task?
    ensures Ahead(After(w, move)) < Ahead(w)
  {
    move := if w.main.Polling? && w.main.n < n && !w.tasks[w.main.n].done then Move.Task(w.main.n) else Main(true);
  }

  /** So from every reachable world before that, SM_RUNNING can be reached. */
  lemma {:induction false} ComesUp(n: nat, moves: seq<Move>) returns (more: seq<Move>)
    requires !Outcome(n, moves).main.Commanding? && !Outcome(n, moves).main.Over?
    ensures Outcome(n, moves + more).run == RUNNING && Outcome(n, moves + more).main == Commanding
    decreases Ahead(Outcome(n, moves))
  {
    var w := Outcome(n, moves);
    AlwaysOk(n, moves);
    WaitsAtFirst(n, moves);
    var move := NextMove(n, w);
    var first := moves + [move];
    assert first[..|moves|] == moves;
    if After(w, move).main.Commanding? {
      more := [move];
    } else {
      more := ComesUp(n, first);
      assert first + more == moves + ([move] + more);
      more := [move] + more;
    }
  }

  /** A task on its own, k actions on, while the run state stays as it is. */
  function Alone(t: Task, run: RunState, k: nat): Task
    decreases k
  {
    if k == 0 then t else Alone(TaskMoves(t, run), run, k - 1)
  }

  /** How many actions a started task is from a handler, or on SM_EXIT from its end. */
  function Distance(t: Task, run: RunState): (k: nat)
    ensures k <= 5 && (run == EXIT ==> k <= 4)
  {
    match t.pc
    case InHandler => if run == EXIT then 2 else 0
    case ReadsState => if run == EXIT then 2 else 1
    case ReadsExit => if run == EXIT then 1 else 2
    case InitReturned => if run == EXIT then 2 else 3
    case Sleeping => if run == EXIT then 2 else 3
    case InInit => if run == EXIT then 3 else 4
    case ReadsDone => (if run == EXIT then 3 else 4) + if t.done then 0 else 1
    case _ => 0
  }

  /** A started task comes to a handler if the state stays so, and on SM_EXIT to its end. */
  lemma {:induction false} TaskFollows(t: Task, run: RunState, k: nat)
    requires !t.pc.Unborn? && run != INIT && k == Distance(t, run) && (t.pc.Exited? ==> run == EXIT)
    ensures Alone(t, run, k).pc == if run == EXIT then Exited else InHandler
    decreases k
  {
    if k > 0 {
      TaskFollows(TaskMoves(t, run), run, k - 1);
    }
  }
}
