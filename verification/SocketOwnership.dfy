/**
 kol::Socket: every descriptor has one owner. Copies duplicate, assignment and create close what
 they replace, and destruction closes what is left.
 */
module SocketOwnership {

  const INVALID := -1

  /** The process's open descriptors, and how many closes hit none of them. */
  datatype Kernel = Kernel(open: set<int>, strays: nat)

  /** The system's answer to socket, dup or accept: a failure, or a descriptor not in use. */
  predicate Answers(k: Kernel, answer: int) {
    answer == INVALID || (0 <= answer && answer !in k.open)
  }

  function Opened(k: Kernel, answer: int): Kernel {
    if answer == INVALID then k else k.(open := k.open + {answer})
  }

  /** CloseSocket: close(2) on a descriptor that is not open does nothing but fail. */
  function Closed(k: Kernel, sd: int): Kernel {
    if sd == INVALID then k
    else if sd in k.open then k.(open := k.open - {sd})
    else k.(strays := k.strays + 1)
  }

  /** dup and accept fail on a descriptor that is not open. */
  function From(k: Kernel, sd: int, answer: int): int {
    if sd in k.open then answer else INVALID
  }

  class System {
    var kernel: Kernel

    constructor ()
      ensures kernel == Kernel({}, 0)
    {
      kernel := Kernel({}, 0);
    }

    method Open(answer: int) returns (sd: int)
      modifies this
      ensures kernel == Opened(old(kernel), answer) && sd == answer
    {
      sd := answer;
      if sd != INVALID {
        kernel := kernel.(open := kernel.open + {sd});
      }
    }

    method Dup(s: int, answer: int) returns (t: int)
      modifies this
      ensures t == From(old(kernel), s, answer) && kernel == Opened(old(kernel), t)
    {
      t := if s in kernel.open then answer else INVALID;
      t := Open(t);
    }

    method Close(s: int)
      modifies this
      ensures kernel == Closed(old(kernel), s)
    {
      if s == INVALID {
        return;
      }
      if s in kernel.open {
        kernel := kernel.(open := kernel.open - {s});
      } else {
        kernel := kernel.(strays := kernel.strays + 1);
      }
    }
  }

  class Socket {
    var sd: int

    constructor (descriptor: int)
      ensures sd == descriptor
    {
      sd := descriptor;
    }

    /** Socket(domain, type, protocol), which throws if there is no descriptor to be had. */
    constructor Make(system: System, answer: int)
      modifies system
      ensures sd == answer && system.kernel == Opened(old(system.kernel), answer)
    {
      new;
      sd := system.Open(answer);
    }

    /** The copy constructor, which throws if duplication fails. */
    constructor Copy(system: System, from: Socket, answer: int)
      requires INVALID !in system.kernel.open
      modifies system
      ensures sd == From(old(system.kernel), from.sd, answer)
      ensures system.kernel == Opened(old(system.kernel), sd)
    {
      sd := INVALID;
      new;
      if from.sd != INVALID {
        sd := system.Dup(from.sd, answer);
      }
    }

    method Close(system: System)
      modifies this, system
      ensures sd == INVALID && system.kernel == Closed(old(system.kernel), old(sd))
    {
      if sd != INVALID {
        system.Close(sd);
        sd := INVALID;
      }
    }

    method Assign(system: System, from: Socket, answer: int)
      requires INVALID !in system.kernel.open
      modifies this, system
      ensures from == this ==> sd == old(sd) && system.kernel == old(system.kernel)
      ensures from != this ==>
                var k := Closed(old(system.kernel), old(sd));
                sd == From(k, from.sd, answer) && system.kernel == Opened(k, sd)
    {
      if from == this {
        return;
      }
      Close(system);
      if from.sd != INVALID {
        sd := system.Dup(from.sd, answer);
      }
    }

    /** create: throws, without a descriptor, if there is none to be had. */
    method Create(system: System, answer: int)
      modifies this, system
      ensures sd == answer && system.kernel == Opened(Closed(old(system.kernel), old(sd)), answer)
    {
      if sd != INVALID {
        system.Close(sd);
      }
      sd := system.Open(answer);
    }

    /**
     accept: throws if the connection fails. The Socket made from the new descriptor is returned
     by value: it becomes the result itself, or is copied to it and destroyed.
     */
    method Accept(system: System, answer: int, elided: bool, copyAnswer: int) returns (s: Socket)
      requires INVALID !in system.kernel.open && Answers(system.kernel, answer)
      modifies system
      ensures fresh(s) && unchanged(this)
      ensures (system.kernel, s.sd) == Accepted(old(system.kernel), sd, answer, elided, copyAnswer)
    {
      var conn := system.Dup(sd, answer);
      s := new Socket(conn);
      if conn != INVALID && !elided {
        var temporary := s;
        s := new Socket.Copy(system, temporary, copyAnswer);
        temporary.Close(system);
      }
    }
  }

  function Accepted(k: Kernel, sd: int, answer: int, elided: bool, copyAnswer: int): (Kernel, int) {
    var conn := From(k, sd, answer);
    var k1 := Opened(k, conn);
    if conn == INVALID || elided then (k1, conn)
    else
      var copy := From(k1, conn, copyAnswer);
      (Closed(Opened(k1, copy), conn), copy)
  }

  /** The live Socket objects of a program, by name, and what they own. */
  datatype World = World(kernel: Kernel, live: map<nat, int>)

  datatype Op =
    Default(x: nat) | Make(x: nat, answer: int) | Copy(x: nat, y: nat, answer: int)
  | Assign(x: nat, y: nat, answer: int) | Create(x: nat, answer: int) | Close(x: nat) | Destroy(x: nat)
  | Accept(x: nat, y: nat, answer: int, elided: bool, copyAnswer: int)

  /** Objects are constructed once and used while they live; the system answers with unused descriptors. */
  predicate Legal(w: World, op: Op) {
    match op
    case Default(x) => x !in w.live
    case Make(x, answer) => x !in w.live && Answers(w.kernel, answer)
    case Copy(x, y, answer) => x !in w.live && y in w.live && Answers(w.kernel, answer)
    case Assign(x, y, answer) => x in w.live && y in w.live && Answers(Closed(w.kernel, w.live[x]), answer)
    case Create(x, answer) => x in w.live && Answers(Closed(w.kernel, w.live[x]), answer)
    case Close(x) => x in w.live
    case Destroy(x) => x in w.live
    case Accept(x, y, answer, elided, copyAnswer) =>
      x !in w.live && y in w.live && Answers(w.kernel, answer)
      && Answers(Opened(w.kernel, From(w.kernel, w.live[y], answer)), copyAnswer)
  }

  /** A constructor or accept that has no descriptor throws, and leaves no object. */
  function Born(w: World, kernel: Kernel, x: nat, sd: int, throws: bool): World {
    World(kernel, if throws then w.live else w.live[x := sd])
  }

  function Exec(w: World, op: Op): World
    requires Legal(w, op)
  {
    match op
    case Default(x) => Born(w, w.kernel, x, INVALID, false)
    case Make(x, answer) => Born(w, Opened(w.kernel, answer), x, answer, answer == INVALID)
    case Copy(x, y, answer) =>
      var sd := From(w.kernel, w.live[y], answer);
      Born(w, Opened(w.kernel, sd), x, sd, sd == INVALID && w.live[y] != INVALID)
    case Assign(x, y, answer) =>
      if x == y then w
      else
        var k := Closed(w.kernel, w.live[x]);
        var sd := From(k, w.live[y], answer);
        World(Opened(k, sd), w.live[x := sd])
    case Create(x, answer) => World(Opened(Closed(w.kernel, w.live[x]), answer), w.live[x := answer])
    case Close(x) => World(Closed(w.kernel, w.live[x]), w.live[x := INVALID])
    case Destroy(x) => World(Closed(w.kernel, w.live[x]), w.live - {x})
    case Accept(x, y, answer, elided, copyAnswer) =>
      var (kernel, sd) := Accepted(w.kernel, w.live[y], answer, elided, copyAnswer);
      Born(w, kernel, x, sd, sd == INVALID)
  }

  predicate LegalRun(w: World, ops: seq<Op>)
    decreases |ops|
  {
    ops == [] || (Legal(w, ops[0]) && LegalRun(Exec(w, ops[0]), ops[1..]))
  }

  function Run(w: World, ops: seq<Op>): World
    requires LegalRun(w, ops)
    decreases |ops|
  {
    if ops == [] then w else Run(Exec(w, ops[0]), ops[1..])
  }

  const START := World(Kernel({}, 0), map[])

  /** Each open descriptor has exactly one owner, and no close has missed. */
  ghost predicate Owned(w: World) {
    && w.kernel.strays == 0 && INVALID !in w.kernel.open
    && (forall x :: x in w.live && w.live[x] != INVALID ==> w.live[x] in w.kernel.open)
    && (forall x, y :: x in w.live && y in w.live && w.live[x] == w.live[y] != INVALID ==> x == y)
    && (forall sd :: sd in w.kernel.open ==> Owner(w, sd))
  }

  ghost predicate Owner(w: World, sd: int) {
    exists x :: x in w.live && w.live[x] == sd
  }

  lemma Release(w: World, x: nat)
    requires Owned(w) && x in w.live
    ensures Owned(World(Closed(w.kernel, w.live[x]), w.live[x := INVALID]))
  {
    var t := World(Closed(w.kernel, w.live[x]), w.live[x := INVALID]);
    forall sd | sd in t.kernel.open ensures Owner(t, sd) {
      assert Owner(w, sd);
      var y :| y in w.live && w.live[y] == sd;
      assert y in t.live && t.live[y] == sd;
    }
  }

  lemma Acquire(w: World, x: nat, sd: int)
    requires Owned(w) && Answers(w.kernel, sd) && (x in w.live ==> w.live[x] == INVALID)
    ensures Owned(World(Opened(w.kernel, sd), w.live[x := sd]))
  {
    var t := World(Opened(w.kernel, sd), w.live[x := sd]);
    forall d | d in t.kernel.open ensures Owner(t, d) {
      if d == sd {
        assert x in t.live && t.live[x] == d;
      } else {
        assert Owner(w, d);
        var y :| y in w.live && w.live[y] == d;
        assert y in t.live && t.live[y] == d;
      }
    }
  }

  lemma Discard(w: World, x: nat)
    requires Owned(w) && x in w.live && w.live[x] == INVALID
    ensures Owned(w.(live := w.live - {x}))
  {
    var t := w.(live := w.live - {x});
    forall sd | sd in t.kernel.open ensures Owner(t, sd) {
      assert Owner(w, sd);
      var y :| y in w.live && w.live[y] == sd;
      assert y in t.live && t.live[y] == sd;
    }
  }

  /** A result that is copied and destroyed leaves one new descriptor, as an elided one does. */
  lemma AcceptedOnce(k: Kernel, sd: int, answer: int, elided: bool, copyAnswer: int)
    requires INVALID !in k.open && Answers(k, answer) && Answers(Opened(k, From(k, sd, answer)), copyAnswer)
    ensures var (kernel, s) := Accepted(k, sd, answer, elided, copyAnswer);
            Answers(k, s) && kernel == Opened(k, s)
  {
  }

  lemma ExecOwned(w: World, op: Op)
    requires Owned(w) && Legal(w, op)
    ensures Owned(Exec(w, op))
  {
    match op
    case Default(x) => Acquire(w, x, INVALID);
    case Make(x, answer) => Acquire(w, x, answer);
    case Copy(x, y, answer) => Acquire(w, x, From(w.kernel, w.live[y], answer));
    case Close(x) => Release(w, x);
    case Destroy(x) =>
      Release(w, x);
      Discard(World(Closed(w.kernel, w.live[x]), w.live[x := INVALID]), x);
      assert w.live[x := INVALID] - {x} == w.live - {x};
    case Create(x, answer) =>
      Release(w, x);
      Acquire(World(Closed(w.kernel, w.live[x]), w.live[x := INVALID]), x, answer);
      assert w.live[x := INVALID][x := answer] == w.live[x := answer];
    case Assign(x, y, answer) =>
      if x != y {
        Release(w, x);
        var k := Closed(w.kernel, w.live[x]);
        var sd := From(k, w.live[y], answer);
        Acquire(World(k, w.live[x := INVALID]), x, sd);
        assert w.live[x := INVALID][x := sd] == w.live[x := sd];
      }
    case Accept(x, y, answer, elided, copyAnswer) =>
      AcceptedOnce(w.kernel, w.live[y], answer, elided, copyAnswer);
      var (kernel, sd) := Accepted(w.kernel, w.live[y], answer, elided, copyAnswer);
      Acquire(w, x, sd);
  }

  /** What an object is given when the system has a descriptor for it, and what it gives back. */
  lemma Gains(w: World, op: Op)
    requires Owned(w) && Legal(w, op)
    ensures op.Default? ==> Exec(w, op) == World(w.kernel, w.live[op.x := -1])
    ensures op.Make? && op.answer != -1 ==> Holds(w, Exec(w, op), op.x, {}, op.answer)
    ensures op.Copy? && op.answer != -1 && w.live[op.y] != -1 ==> Holds(w, Exec(w, op), op.x, {}, op.answer)
    ensures op.Assign? && op.x != op.y && op.answer != -1 && w.live[op.y] != -1 ==>
              Holds(w, Exec(w, op), op.x, {w.live[op.x]}, op.answer)
    ensures op.Create? && op.answer != -1 ==> Holds(w, Exec(w, op), op.x, {w.live[op.x]}, op.answer)
    ensures op.Accept? && op.answer != -1 && w.live[op.y] != -1 && (op.elided || op.copyAnswer != -1) ==>
              Holds(w, Exec(w, op), op.x, {}, if op.elided then op.answer else op.copyAnswer)
  {
  }

  /** The object of that name holds the new descriptor, the old ones given are closed, and nothing else changes. */
  predicate Holds(w: World, t: World, x: nat, gone: set<int>, sd: int) {
    t.live == w.live[x := sd] && t.kernel.open == w.kernel.open - gone + {sd} && t.kernel.strays == w.kernel.strays
  }

  /** Without an answer, or from an object that is closed: what each operation leaves. */
  lemma Loses(w: World, op: Op)
    requires Owned(w) && Legal(w, op)
    ensures op.Make? && op.answer == -1 ==> Exec(w, op) == w
    ensures op.Copy? && w.live[op.y] == -1 ==> Exec(w, op) == World(w.kernel, w.live[op.x := -1])
    ensures op.Copy? && w.live[op.y] != -1 && op.answer == -1 ==> Exec(w, op) == w
    ensures op.Accept? && (w.live[op.y] == -1 || op.answer == -1 || (!op.elided && op.copyAnswer == -1)) ==> Exec(w, op) == w
    ensures op.Assign? && op.x == op.y ==> Exec(w, op) == w
    ensures op.Assign? && op.x != op.y && (w.live[op.y] == -1 || op.answer == -1) ==> Closes(w, Exec(w, op), op.x)
    ensures op.Create? && op.answer == -1 ==> Closes(w, Exec(w, op), op.x)
    ensures op.Close? ==> Closes(w, Exec(w, op), op.x)
    ensures op.Destroy? ==> Closes(w, Exec(w, op).(live := Exec(w, op).live[op.x := -1]), op.x) && op.x !in Exec(w, op).live
  {
    if op.Accept? && w.live[op.y] != -1 && op.answer != -1 && !op.elided && op.copyAnswer == -1 {
      assert w.kernel.open + {op.answer} - {op.answer} == w.kernel.open;
    }
    if op.Destroy? {
      assert (w.live - {op.x})[op.x := -1] == w.live[op.x := -1];
    }
  }

  /** The object holds nothing, its descriptor is closed, and nothing else changes. */
  predicate Closes(w: World, t: World, x: nat)
    requires x in w.live
  {
    t.live == w.live[x := -1] && t.kernel.open == w.kernel.open - {w.live[x]} && t.kernel.strays == w.kernel.strays
  }

  /** Over any run of Socket operations, whatever the system answers: one owner each, no stray close. */
  lemma {:induction false} RunOwned(w: World, ops: seq<Op>)
    requires Owned(w) && LegalRun(w, ops)
    ensures Owned(Run(w, ops))
    decreases |ops|
  {
    if ops != [] {
      ExecOwned(w, ops[0]);
      RunOwned(Exec(w, ops[0]), ops[1..]);
    }
  }

  lemma OpenHasOwner(w: World, sd: int)
    requires Owned(w) && sd in w.kernel.open
    ensures w.live != map[]
  {
  }

  /** Once every Socket is destroyed, every descriptor has been closed, each exactly once. */
  lemma NothingLeaks(ops: seq<Op>)
    requires LegalRun(START, ops) && Run(START, ops).live == map[]
    ensures Run(START, ops).kernel == Kernel({}, 0)
  {
    RunOwned(START, ops);
    var w := Run(START, ops);
    forall sd ensures sd !in w.kernel.open {
      if sd in w.kernel.open {
        OpenHasOwner(w, sd);
      }
    }
  }

  /** Copying and assigning duplicate: two live Sockets never share a descriptor. */
  lemma CopiesAreApart(ops: seq<Op>, x: nat, y: nat)
    requires LegalRun(START, ops) && x != y && x in Run(START, ops).live && y in Run(START, ops).live
    ensures var live := Run(START, ops).live; live[x] == live[y] ==> live[x] == INVALID
  {
    RunOwned(START, ops);
  }

  /** A program's Socket objects, by name. */
  class Program {
    const system: System
    var sockets: map<nat, Socket>

    ghost predicate Valid()
      reads this, system
    {
      && INVALID !in system.kernel.open
      && forall x, y :: x in sockets && y in sockets && sockets[x] == sockets[y] ==> x == y
    }

    ghost function View(): World
      reads this, system, sockets.Values
    {
      World(system.kernel, map x | x in sockets :: sockets[x].sd)
    }

    constructor ()
      ensures Valid() && View() == START && fresh(system)
    {
      system := new System();
      sockets := map[];
    }

    /** A new object goes under its name, unless its constructor threw. */
    method Keep(x: nat, s: Socket, throws: bool)
      requires Valid() && x !in sockets && s !in sockets.Values
      modifies this`sockets
      ensures Valid() && View() == Born(old(View()), system.kernel, x, s.sd, throws)
    {
      if !throws {
        sockets := sockets[x := s];
      }
    }

    /** A Socket on its own. */
    method Construct(op: Op)
      requires Valid() && Legal(View(), op) && (op.Default? || op.Make?)
      modifies this, system
      ensures Valid() && View() == Exec(old(View()), op)
    {
      if op.Default? {
        var s := new Socket(INVALID);
        Keep(op.x, s, false);
      } else {
        var s := new Socket.Make(system, op.answer);
        Keep(op.x, s, s.sd == INVALID);
      }
    }

    /** A copy of a Socket. */
    method Duplicate(op: Op)
      requires Valid() && Legal(View(), op) && op.Copy?
      modifies this, system
      ensures Valid() && View() == Exec(old(View()), op)
    {
      var from := sockets[op.y];
      var s := new Socket.Copy(system, from, op.answer);
      Keep(op.x, s, s.sd == INVALID && from.sd != INVALID);
    }

    /** A Socket for a connection to another. */
    method Answer(op: Op)
      requires Valid() && Legal(View(), op) && op.Accept?
      modifies this, system
      ensures Valid() && View() == Exec(old(View()), op)
    {
      var s := sockets[op.y].Accept(system, op.answer, op.elided, op.copyAnswer);
      Keep(op.x, s, s.sd == INVALID);
    }

    /** The operations on objects that are already there. */
    method Use(op: Op)
      requires Valid() && Legal(View(), op) && (op.Assign? || op.Create? || op.Close? || op.Destroy?)
      modifies this, system, sockets.Values
      ensures Valid() && View() == Exec(old(View()), op)
    {
      var s := sockets[op.x];
      if op.Assign? {
        s.Assign(system, sockets[op.y], op.answer);
      } else if op.Create? {
        s.Create(system, op.answer);
      } else {
        s.Close(system);
        if op.Destroy? {
          sockets := sockets - {op.x};
        }
      }
    }
  }
}
