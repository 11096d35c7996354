/** What every run of the event builder keeps: the buffer's shape, and every fragment. */
module Conservation {
  import opened Events
  import opened EraseRules

  /** An entry of the buffer waits for at least one and has at least one node. */
  predicate Waiting(c: Config, e: Event) {
    |e.node| == |e.data| && 1 <= |e.node| < |c.nodes|
  }

  predicate BufferOk(c: Config, buf: seq<Event>) {
    Distinct(buf) && |buf| <= c.maxDepth && forall e :: e in buf ==> Waiting(c, e)
  }

  lemma ReceiveKeepsBuffer(c: Config, s: State, f: Fragment)
    requires |c.nodes| >= 2 && BufferOk(c, s.buf)
    ensures BufferOk(c, Receive(c, s, f).buf)
  {
    ReceiveDistinct(c, s, f);
    var i := Find(s.buf, f.trig);
    if i < |s.buf| {
      var buf := s.buf[i := Add(s.buf[i], f)];
      assert s.buf[i] in s.buf;
      assert forall e :: e in buf ==> e in s.buf || e == buf[i];
      if |buf[i].node| >= |c.nodes| {
        ErasedDistinct(c.rule, buf, i);
      }
    }
  }

  /**
   In every run with two or more nodes the entries have different numbers, each has one
   data block per node id and fewer nodes than configured, and the depth limit holds.
   */
  lemma {:induction false} BufferInvariant(c: Config, frags: seq<Fragment>)
    requires |c.nodes| >= 2
    ensures BufferOk(c, Run(c, frags).buf)
  {
    if frags != [] {
      var k := |frags| - 1;
      BufferInvariant(c, frags[..k]);
      ReceiveKeepsBuffer(c, Run(c, frags[..k]), frags[k]);
    }
  }

  /** Hence one number is matched by one entry: a scan stops meaningfully at the first. */
  lemma OneMatch(c: Config, frags: seq<Fragment>, trig: nat, a: nat, b: nat)
    requires |c.nodes| >= 2
    requires a < |Run(c, frags).buf| && b < |Run(c, frags).buf|
    requires Run(c, frags).buf[a].number == trig == Run(c, frags).buf[b].number
    ensures a == b == Find(Run(c, frags).buf, trig)
  {
    BufferInvariant(c, frags);
  }

  /** How often fragment x is one of the pieces of event e. */
  function Copies(e: Event, x: Fragment): nat
    decreases |e.node|
  {
    if e.node == [] || e.data == [] then 0
    else
      var n, d := |e.node| - 1, |e.data| - 1;
      Copies(Event(e.number, e.node[..n], e.data[..d]), x)
        + if Fragment(e.node[n], e.number, e.data[d]) == x then 1 else 0
  }

  function AllCopies(es: seq<Event>, x: Fragment): nat {
    if es == [] then 0
    else AllCopies(es[..|es| - 1], x) + Copies(es[|es| - 1], x)
  }

  lemma CopiesAdd(e: Event, f: Fragment, x: Fragment)
    requires f.trig == e.number
    ensures Copies(Add(e, f), x) == Copies(e, x) + if f == x then 1 else 0
  {
  }

  lemma CopiesFresh(f: Fragment, x: Fragment)
    ensures Copies(Fresh(f), x) == if f == x then 1 else 0
  {
  }

  lemma {:induction false} CopiesConcat(a: seq<Event>, b: seq<Event>, x: Fragment)
    ensures AllCopies(a + b, x) == AllCopies(a, x) + AllCopies(b, x)
  {
    if b == [] {
      assert a + b == a;
    } else {
      var k := |b| - 1;
      CopiesConcat(a, b[..k], x);
      assert (a + b)[..|a + b| - 1] == a + b[..k];
    }
  }

  lemma CopiesAppend(a: seq<Event>, e: Event, x: Fragment)
    ensures AllCopies(a + [e], x) == AllCopies(a, x) + Copies(e, x)
  {
  }

  lemma CopiesSplit(es: seq<Event>, i: nat, x: Fragment)
    requires i < |es|
    ensures AllCopies(es, x) == AllCopies(es[..i], x) + Copies(es[i], x) + AllCopies(es[i + 1..], x)
  {
    CopiesAppend(es[..i], es[i], x);
    CopiesConcat(es[..i] + [es[i]], es[i + 1..], x);
    assert es == es[..i] + [es[i]] + es[i + 1..];
  }

  lemma {:induction false} FilterCopies(es: seq<Event>, n: nat, x: Fragment)
    ensures AllCopies(Upto(es, n), x) + AllCopies(Above(es, n), x) == AllCopies(es, x)
  {
    if es != [] {
      var k := |es| - 1;
      FilterCopies(es[..k], n, x);
      if es[k].number <= n {
        CopiesAppend(Upto(es[..k], n), es[k], x);
        assert Above(es, n) == Above(es[..k], n);
      } else {
        CopiesAppend(Above(es[..k], n), es[k], x);
        assert Upto(es, n) == Upto(es[..k], n);
      }
    }
  }

  /** Copies of x in what was sent and in what is buffered. */
  function Held(s: State, x: Fragment): nat {
    AllCopies(s.sent, x) + AllCopies(s.buf, x)
  }

  lemma FlushConserves(buf: seq<Event>, i: nat, x: Fragment)
    requires i < |buf|
    ensures AllCopies(Flushed(buf, i), x) + AllCopies(Erased(AsCommented, buf, i), x)
            == AllCopies(buf, x)
  {
    FilterCopies(buf[..i + 1], buf[i].number, x);
    CopiesConcat(Above(buf[..i + 1], buf[i].number), buf[i + 1..], x);
    CopiesConcat(buf[..i + 1], buf[i + 1..], x);
    assert buf[..i + 1] + buf[i + 1..] == buf;
  }

  lemma MatchConserves(c: Config, s: State, f: Fragment, i: nat, x: Fragment)
    requires i < |s.buf| && s.buf[i].number == f.trig
    ensures var buf := s.buf[i := Add(s.buf[i], f)];
            AllCopies(buf, x) == AllCopies(s.buf, x) + if f == x then 1 else 0
  {
    var buf := s.buf[i := Add(s.buf[i], f)];
    CopiesAdd(s.buf[i], f, x);
    CopiesSplit(s.buf, i, x);
    CopiesSplit(buf, i, x);
    assert buf[..i] == s.buf[..i] && buf[i + 1..] == s.buf[i + 1..];
  }

  lemma QueueConserves(c: Config, s: State, f: Fragment, x: Fragment)
    ensures Held(Queued(c, s, f), x) == Held(s, x) + if f == x then 1 else 0
  {
    CopiesFresh(f, x);
    CopiesAppend(s.sent, Fresh(f), x);
    CopiesAppend(s.buf, Fresh(f), x);
  }

  lemma EvictConserves(c: Config, s: State, x: Fragment)
    ensures Held(Evicted(c, s), x) == Held(s, x)
  {
    if |s.buf| > c.maxDepth {
      CopiesSplit(s.buf, 0, x);
      assert AllCopies(s.buf[..0], x) == 0;
      CopiesAppend(s.sent, s.buf[0], x);
    }
  }

  /** A step adds exactly its fragment, if its completion erases what the comment says. */
  lemma StepConserves(c: Config, s: State, f: Fragment, x: Fragment)
    requires Completes(c, s, f) ==>
               var i := Find(s.buf, f.trig);
               var buf := s.buf[i := Add(s.buf[i], f)];
               Erased(c.rule, buf, i) == Erased(AsCommented, buf, i)
    ensures Held(Receive(c, s, f), x) == Held(s, x) + if f == x then 1 else 0
  {
    var i := Find(s.buf, f.trig);
    if i < |s.buf| {
      var buf := s.buf[i := Add(s.buf[i], f)];
      MatchConserves(c, s, f, i, x);
      if |buf[i].node| >= |c.nodes| {
        FlushConserves(buf, i, x);
        CopiesConcat(s.sent, Flushed(buf, i), x);
      }
    } else {
      QueueConserves(c, s, f, x);
      EvictConserves(c, Queued(c, s, f), x);
    }
  }

  /** A nonempty run is its front, and one step. */
  lemma LastStep(c: Config, frags: seq<Fragment>)
    requires frags != []
    ensures var front, f := frags[..|frags| - 1], frags[|frags| - 1];
            frags == front + [f] && Run(c, frags) == Receive(c, Run(c, front), f)
  {
  }

  lemma CountLast(frags: seq<Fragment>, x: Fragment)
    requires frags != []
    ensures multiset(frags)[x] ==
            multiset(frags[..|frags| - 1])[x] + if frags[|frags| - 1] == x then 1 else 0
  {
    assert frags == frags[..|frags| - 1] + [frags[|frags| - 1]];
  }

  /** With the comment's rule every run keeps every fragment, whatever arrives. */
  lemma {:induction false} RunConserves(c: Config, frags: seq<Fragment>, x: Fragment)
    requires c.rule == AsCommented
    ensures Held(Run(c, frags), x) == multiset(frags)[x]
  {
    if frags != [] {
      var k := |frags| - 1;
      RunConserves(c, frags[..k], x);
      StepConserves(c, Run(c, frags[..k]), frags[k], x);
      CountLast(frags, x);
    }
  }

  /** The completion caused by the last fragment leaves slots that agree. */
  predicate CleanStep(c: Config, s: State, f: Fragment) {
    Completes(c, s, f) ==>
      var i := Find(s.buf, f.trig);
      SlotsAgree(s.buf[i := Add(s.buf[i], f)], i)
  }

  /** Every completion of the run does. */
  predicate Clean(c: Config, frags: seq<Fragment>) {
    frags == [] ||
    (Clean(c, frags[..|frags| - 1])
     && CleanStep(c, Run(c, frags[..|frags| - 1]), frags[|frags| - 1]))
  }

  lemma {:induction false} RunDistinct(c: Config, frags: seq<Fragment>)
    ensures Distinct(Run(c, frags).buf)
  {
    if frags != [] {
      var k := |frags| - 1;
      RunDistinct(c, frags[..k]);
      ReceiveDistinct(c, Run(c, frags[..k]), frags[k]);
    }
  }

  lemma {:induction false} CleanPrefix(c: Config, frags: seq<Fragment>, n: nat)
    requires n <= |frags| && Clean(c, frags)
    ensures Clean(c, frags[..n])
  {
    var last := |frags| - 1;
    if n <= last {
      CleanPrefix(c, frags[..last], n);
      assert frags[..last][..n] == frags[..n];
    } else {
      assert frags[..n] == frags;
    }
  }

  /** In a run that is not clean, the first completion that is not. */
  lemma {:induction false} FirstUnclean(c: Config, frags: seq<Fragment>) returns (k: nat)
    requires !Clean(c, frags)
    ensures k < |frags| && Clean(c, frags[..k]) && !CleanStep(c, Run(c, frags[..k]), frags[k])
  {
    k := |frags| - 1;
    if !Clean(c, frags[..k]) {
      var last := k;
      k := FirstUnclean(c, frags[..last]);
      assert frags[..last][..k] == frags[..k];
    }
  }

  /** A clean completion of the code is the completion the comment describes. */
  lemma CleanStepCoincides(c: Config, s: State, f: Fragment)
    requires c.rule == AsWritten && Distinct(s.buf) && CleanStep(c, s, f)
    ensures Receive(c, s, f) == Receive(c.(rule := AsCommented), s, f)
  {
    if Completes(c, s, f) {
      var i := Find(s.buf, f.trig);
      WrittenMeetsComment(s.buf[i := Add(s.buf[i], f)], i);
    }
  }

  /** A clean run of the code is the run the comment describes. */
  lemma {:induction false} CleanRunsCoincide(c: Config, frags: seq<Fragment>)
    requires c.rule == AsWritten && Clean(c, frags)
    ensures Run(c, frags) == Run(c.(rule := AsCommented), frags)
  {
    if frags != [] {
      var k := |frags| - 1;
      CleanRunsCoincide(c, frags[..k]);
      RunDistinct(c, frags[..k]);
      CleanStepCoincides(c, Run(c, frags[..k]), frags[k]);
    }
  }

  /** Among entries of different numbers only the one of x's number can hold x. */
  lemma {:induction false} CopiesByNumber(es: seq<Event>, x: Fragment)
    requires Distinct(es)
    ensures forall e :: e in es && e.number == x.trig ==> AllCopies(es, x) == Copies(e, x)
    ensures (forall e :: e in es ==> e.number != x.trig) ==> AllCopies(es, x) == 0
  {
    if es != [] {
      var k := |es| - 1;
      CopiesByNumber(es[..k], x);
      if es[k].number != x.trig {
        CopiesNeedNumber(es[k], x);
      } else {
        assert forall e :: e in es[..k] ==> e.number != x.trig;
      }
      assert forall e :: e in es <==> e in es[..k] || e == es[k];
    }
  }

  lemma {:induction false} CopiesNeedNumber(e: Event, x: Fragment)
    requires e.number != x.trig
    ensures Copies(e, x) == 0
    decreases |e.node|
  {
    if e.node != [] && e.data != [] {
      CopiesNeedNumber(Event(e.number, e.node[..|e.node| - 1], e.data[..|e.data| - 1]), x);
    }
  }

  lemma CopiesWithin(es: seq<Event>, buf: seq<Event>, e: Event, x: Fragment)
    requires Distinct(es) && Distinct(buf) && e in buf && e.number == x.trig
    requires forall k :: 0 <= k < |es| ==> es[k] in buf
    ensures AllCopies(es, x) == if e in es then Copies(e, x) else 0
  {
    CopiesByNumber(es, x);
    if e !in es {
      forall k | 0 <= k < |es| ensures es[k].number != x.trig {
        assert es[k] in buf && es[k] != e;
      }
      assert forall o :: o in es ==> o.number != x.trig;
    }
  }

  lemma FlushedWithin(buf: seq<Event>, i: nat)
    requires i < |buf| && Distinct(buf)
    ensures Distinct(Flushed(buf, i))
    ensures forall k :: 0 <= k < |Flushed(buf, i)| ==> Flushed(buf, i)[k] in buf
  {
    FilterDistinct(buf[..i + 1], buf[i].number);
    UptoMembers(buf[..i + 1], buf[i].number);
    forall k | 0 <= k < |Flushed(buf, i)| ensures Flushed(buf, i)[k] in buf {
      assert Flushed(buf, i)[k] in buf[..i + 1];
    }
  }

  /** A flush that errs miscounts a fragment of the event it errs on. */
  lemma ErrantFlush(buf: seq<Event>, i: nat) returns (x: Fragment)
    requires i < |buf| && Distinct(buf) && !SlotsAgree(buf, i)
    requires forall j :: 0 <= j < i ==> buf[j].node != [] && buf[j].data != []
    ensures AllCopies(Flushed(buf, i), x) + AllCopies(Erased(AsWritten, buf, i), x)
            != AllCopies(buf, x)
  {
    var m := WrittenErrs(buf, i);
    var e := buf[m];
    x := Fragment(e.node[|e.node| - 1], e.number, e.data[|e.data| - 1]);
    assert Copies(e, x) > 0;
    ErasedDistinct(AsWritten, buf, i);
    FlushedWithin(buf, i);
    CopiesWithin(buf, buf, e, x);
    CopiesWithin(Flushed(buf, i), buf, e, x);
    CopiesWithin(Erased(AsWritten, buf, i), buf, e, x);
  }

  lemma StepErrs(c: Config, s: State, f: Fragment) returns (x: Fragment)
    requires c.rule == AsWritten && BufferOk(c, s.buf) && !CleanStep(c, s, f)
    ensures Held(Receive(c, s, f), x) != Held(s, x) + if f == x then 1 else 0
  {
    var i := Find(s.buf, f.trig);
    var buf := s.buf[i := Add(s.buf[i], f)];
    forall j | 0 <= j < i ensures buf[j].node != [] && buf[j].data != [] {
      assert s.buf[j] in s.buf;
    }
    x := ErrantFlush(buf, i);
    MatchConserves(c, s, f, i, x);
    CopiesConcat(s.sent, Flushed(buf, i), x);
  }

  ghost predicate Conserved(c: Config, frags: seq<Fragment>) {
    forall x :: Held(Run(c, frags), x) == multiset(frags)[x]
  }

  /**
   The code conserves fragments along a whole run if and only if each completion of the
   run leaves slots that agree.
   */
  lemma {:induction false} WrittenConservesIff(c: Config, frags: seq<Fragment>)
    requires c.rule == AsWritten && |c.nodes| >= 2
    ensures Clean(c, frags) <==> forall n :: 0 <= n <= |frags| ==> Conserved(c, frags[..n])
  {
    if Clean(c, frags) {
      forall n, x | 0 <= n <= |frags|
        ensures Held(Run(c, frags[..n]), x) == multiset(frags[..n])[x]
      {
        CleanPrefix(c, frags, n);
        CleanRunsCoincide(c, frags[..n]);
        RunConserves(c.(rule := AsCommented), frags[..n], x);
      }
    } else {
      var k := FirstUnclean(c, frags);
      UncleanMiscounts(c, frags, k);
    }
  }

  lemma UncleanMiscounts(c: Config, frags: seq<Fragment>, k: nat)
    requires c.rule == AsWritten && |c.nodes| >= 2
    requires k < |frags| && !CleanStep(c, Run(c, frags[..k]), frags[k])
    ensures !Conserved(c, frags[..k]) || !Conserved(c, frags[..k + 1])
  {
    var s, next := Run(c, frags[..k]), frags[..k + 1];
    BufferInvariant(c, frags[..k]);
    var x := StepErrs(c, s, frags[k]);
    assert next[..k] == frags[..k];
    CountLast(next, x);
    if Conserved(c, frags[..k]) {
      assert Held(s, x) == multiset(frags[..k])[x];
      assert Held(Run(c, next), x) != multiset(next)[x];
    }
  }
}
