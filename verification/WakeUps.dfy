/**
 * Whether a request that waits will be seen to. A producer that finds no waiter wakes nobody, and a worker that has tried
 * every class goes to wait without looking again, so a request can be left behind between the two.
 */
module WakeUps {
  import opened Options
  import opened Lists
  import opened RequestQueue
  import opened DispatchRuns

  predicate Has(s: State, c: nat)
    requires c < |s.queues|
  {
    s.queues[c].consumer != [] || s.queues[c].producer != []
  }

  /** The worker tries the class before it next goes to wait. */
  predicate Looks(k: Worker, c: nat) {
    match k.phase
    case Idle => true
    case Busy => true
    case Scanning(_, _) => c !in k.tried
    case Holding(_, _, _) => c !in k.tried
    case Waiting => k.syncDone
    case Preparing => false
    case Gone => false
  }

  ghost predicate SomeoneLooks(s: State, c: nat) {
    exists w :: w in s.workers && Looks(s.workers[w], c)
  }

  /** A producer of the class has yet to look for waiters, a wake-up is on its way, or a worker will try the class. */
  ghost predicate Attended(s: State, c: nat) {
    c in s.checks || s.signals != multiset{} || SomeoneLooks(s, c)
  }

  /** No class that holds a request is left alone. */
  ghost predicate KeepsUp(s: State) {
    |s.queues| == N_REQ_QUEUES && forall c :: 0 <= c < N_REQ_QUEUES && Has(s, c) ==> Attended(s, c)
  }

  ghost predicate NobodyElse(s: State, c: nat, w: nat) {
    forall v :: v in s.workers && v != w ==> !Looks(s.workers[v], c)
  }

  /**
   * How a class that holds a request can be left alone: its last producer finds no waiter while every worker is past the
   * class; or a worker that was woken leaves, before or after it is told, and was the only one to look.
   */
  ghost predicate Loses(s: State, step: Step, c: nat)
    requires c < |s.queues|
  {
    Has(s, c) && match step
    case NoWaiter(d) => d == c && s.checks[c] == 1 && s.signals == multiset{} && !SomeoneLooks(s, c)
    case Break(w) =>
      c !in s.checks && s.signals == multiset{} && w in s.workers && s.workers[w].syncDone && NobodyElse(s, c, w)
    case Signal(w) =>
      c !in s.checks && s.signals == multiset{w} && w in s.workers && s.workers[w].phase.Gone? && !SomeoneLooks(s, c)
    case _ => false
  }

  /** A worker between its look at the class and the wait list, or one that has left. */
  predicate PastClass(k: Worker, c: nat) {
    match k.phase
    case Scanning(_, _) => c in k.tried
    case Holding(_, _, _) => c in k.tried
    case Preparing => true
    case Gone => true
    case _ => false
  }

  /**
   * The window in which a producer that finds no waiter leaves its request alone: no other producer of the class and no
   * wake-up is pending, and every worker that has not left is past the class but not yet on the wait list.
   */
  lemma LostInTheWindow(s: State, c: nat)
    requires Inv(s) && c < N_REQ_QUEUES && c in s.checks && s.waiters <= 0
    ensures Loses(s, NoWaiter(c), c) <==>
      Has(s, c) && s.checks[c] == 1 && s.signals == multiset{}
      && forall w :: w in s.workers ==> PastClass(s.workers[w], c)
  {
    hide ScanFits, HolderFits, QueueFits;
    assert s.waitList == [];
    forall w | w in s.workers && s.signals == multiset{}
      ensures PastClass(s.workers[w], c) <==> !Looks(s.workers[w], c)
    {
      assert WaitFits(s, w);
    }
  }

  /** A woken worker that leaves alone is missed when all the others have left, are past the class, or wait unwoken. */
  lemma LostByLeaving(s: State, w: nat, c: nat)
    requires Inv(s) && c < N_REQ_QUEUES && w in s.workers && s.workers[w].phase.Waiting?
    ensures Loses(s, Break(w), c) <==>
      Has(s, c) && c !in s.checks && s.signals == multiset{} && s.workers[w].syncDone
      && forall v :: v in s.workers && v != w ==> PastClass(s.workers[v], c) || v in s.waitList
  {
    hide ScanFits, HolderFits, QueueFits;
    forall v | v in s.workers && s.signals == multiset{}
      ensures PastClass(s.workers[v], c) || v in s.waitList <==> !Looks(s.workers[v], c)
    {
      assert WaitFits(s, v);
    }
  }

  // ------------------------------------------------------------ steps on the queues

  /** A worker that takes a request, or has done with one, looks at every class again. */
  lemma FreshLooker(s: State, step: Step, t: State, c: nat)
    requires Inv(s) && QueueStep(s, step, t) && (step.Take? || step.PopSpliced? || step.Finish? || step.Begin?)
    ensures SomeoneLooks(t, c)
  {
    hide WaitFits, ListFits, HolderFits, Turn, TriedBefore;
    if step.Take? {
      assert QueueFits(s.queues[TriedClass(s.workers[step.w].phase)]);
    }
    if step.PopSpliced? {
      assert ScanFits(s, step.w);
    }
    assert step.w in t.workers && Looks(t.workers[step.w], c);
  }

  lemma SameLookers(s: State, t: State, c: nat)
    requires forall w :: w in s.workers && Looks(s.workers[w], c) ==> w in t.workers && Looks(t.workers[w], c)
    ensures SomeoneLooks(s, c) ==> SomeoneLooks(t, c)
  {
  }

  /** A worker that gives a class up has seen it empty. */
  lemma GivenUpEmpty(s: State, step: Step, t: State)
    requires Inv(s) && QueueStep(s, step, t) && step.GiveUp?
    ensures var c := TriedClass(s.workers[step.w].phase); c < |t.queues| && !Has(t, c)
  {
    hide WaitFits, ListFits, HolderFits, Turn, TriedBefore;
    assert ScanFits(s, step.w);
    assert QueueFits(s.queues[TriedClass(s.workers[step.w].phase)]);
  }

  lemma QueueStepAttends(s: State, step: Step, t: State, c: nat)
    requires Inv(s) && QueueStep(s, step, t) && c < N_REQ_QUEUES && (Has(s, c) ==> Attended(s, c))
    ensures c < |t.queues| && (Has(t, c) ==> Attended(t, c))
  {
    hide WaitFits, ListFits, HolderFits, QueueFits, ScanFits, Turn, TriedBefore;
    if step.Take? || step.PopSpliced? || step.Finish? || step.Begin? {
      FreshLooker(s, step, t, c);
      assert |t.queues| == N_REQ_QUEUES;
    } else if step.GiveUp? {
      GivenUpEmpty(s, step, t);
      if c != TriedClass(s.workers[step.w].phase) {
        SameLookers(s, t, c);
      }
    } else {
      SameLookers(s, t, c);
    }
  }

  // ------------------------------------------------------------ steps on the wait list

  /** A worker about to wait has tried every class. */
  lemma PastEverything(s: State, w: nat, c: nat)
    requires Inv(s) && w in s.workers && s.workers[w].phase.Scanning? && s.workers[w].phase.ix == N_REQ_QUEUES
    requires c < N_REQ_QUEUES
    ensures !Looks(s.workers[w], c)
  {
    assert ScanFits(s, w);
    AllTried(s.workers[w].phase.slot);
  }

  lemma SignalAttends(s: State, step: Step, t: State, c: nat)
    requires Inv(s) && WaitStep(s, step, t) && step.Signal? && c < N_REQ_QUEUES && (Has(s, c) ==> Attended(s, c))
    ensures c < |t.queues|
    ensures (Has(t, c) ==> Attended(t, c)) <==> !Loses(s, step, c)
  {
    hide ListFits, HolderFits, QueueFits, ScanFits, Turn, TriedBefore;
    var w := step.w;
    assert WaitFits(s, w);
    if s.workers[w].phase.Waiting? {
      assert w in t.workers && Looks(t.workers[w], c);
    } else {
      SameLookers(s, t, c);
      SameLookers(t, s, c);
      if s.signals != multiset{w} {
        assert s.signals == (s.signals - multiset{w}) + multiset{w};
      }
    }
  }

  lemma BreakAttends(s: State, step: Step, t: State, c: nat)
    requires Inv(s) && WaitStep(s, step, t) && step.Break? && c < N_REQ_QUEUES && (Has(s, c) ==> Attended(s, c))
    ensures c < |t.queues|
    ensures (Has(t, c) ==> Attended(t, c)) <==> !Loses(s, step, c)
  {
    hide ListFits, HolderFits, QueueFits, ScanFits, Turn, TriedBefore, Without;
    var w := step.w;
    assert WaitFits(s, w);
    assert t.checks == s.checks && t.signals == s.signals && t.queues == s.queues && t.workers.Keys == s.workers.Keys;
    assert !Looks(t.workers[w], c);
    assert forall v :: v in s.workers && v != w ==> t.workers[v] == s.workers[v];
    if !s.workers[w].syncDone {
      SameLookers(s, t, c);
    }
  }

  lemma WaitStepAttends(s: State, step: Step, t: State, c: nat)
    requires Inv(s) && WaitStep(s, step, t) && c < N_REQ_QUEUES && (Has(s, c) ==> Attended(s, c))
    ensures c < |t.queues|
    ensures (Has(t, c) ==> Attended(t, c)) <==> !Loses(s, step, c)
  {
    hide ListFits, HolderFits, QueueFits, ScanFits, WaitFits, Turn, TriedBefore;
    match step
    case Signal(_) => SignalAttends(s, step, t, c);
    case Break(_) => BreakAttends(s, step, t, c);
    case NoWaiter(d) =>
      SameLookers(s, t, c);
      SameLookers(t, s, c);
    case WakeFirst(d) => WakeSignals(s, t);
    case PrepareWait(w) => PastEverything(s, w, c); SameLookers(s, t, c);
    case Join(w) => SameLookers(s, t, c);
    case Resume(w) => assert Looks(t.workers[w], c);
  }

  lemma WakeSignals(s: State, t: State)
    requires Inv(s) && s.waiters > 0 && t == AfterWake(s).(checks := t.checks)
    ensures t.signals != multiset{} && t.queues == s.queues
  {
    assert s.waitList != [] && s.waitList[0] in s.waitList;
    assert s.waitList[0] in t.signals;
  }

  lemma StepAttends(s: State, step: Step, t: State, c: nat)
    requires Inv(s) && Next(s, step, t) && c < N_REQ_QUEUES && (Has(s, c) ==> Attended(s, c))
    ensures c < |t.queues|
    ensures (Has(t, c) ==> Attended(t, c)) <==> !Loses(s, step, c)
  {
    hide QueueStep, WaitStep, Attended, Has;
    if WaitStep(s, step, t) {
      WaitStepAttends(s, step, t, c);
    } else {
      QueueStepAttends(s, step, t, c);
      QueueStepLosesNothing(s, step, t, c);
    }
  }

  lemma QueueStepLosesNothing(s: State, step: Step, t: State, c: nat)
    requires QueueStep(s, step, t) && c < |s.queues|
    ensures !Loses(s, step, c)
  {
  }

  // ------------------------------------------------------------ whole runs

  ghost predicate IsTrace(run: seq<State>, steps: seq<Step>) {
    |run| == |steps| + 1 && Init(run[0]) && forall i :: 0 <= i < |steps| ==> Next(run[i], steps[i], run[i + 1])
  }

  lemma TraceIsRun(run: seq<State>, steps: seq<Step>)
    requires IsTrace(run, steps)
    ensures IsRun(run)
  {
    hide Next, Init;
    forall i | 0 <= i < |run| - 1
      ensures StepsAt(run, i)
    {
      assert Next(run[i], steps[i], run[i + 1]);
    }
  }

  ghost predicate LosesSome(s: State, step: Step) {
    |s.queues| == N_REQ_QUEUES && exists c :: 0 <= c < N_REQ_QUEUES && Loses(s, step, c)
  }

  lemma StepKeepsUp(s: State, step: Step, t: State)
    requires Inv(s) && Next(s, step, t) && KeepsUp(s)
    ensures KeepsUp(t) <==> !LosesSome(s, step)
  {
    hide Next, Attended, Has, Loses, QueueFits, HolderFits, ScanFits, WaitFits, ListFits;
    StepAttends(s, step, t, 0);
    StepKeepsInv(s, step, t);
    forall c | 0 <= c < N_REQ_QUEUES
      ensures c < |t.queues| && ((Has(t, c) ==> Attended(t, c)) <==> !Loses(s, step, c))
    {
      StepAttends(s, step, t, c);
    }
  }

  /** Up to any point of a run, no request was ever left alone exactly when no step so far was one that loses one. */
  lemma {:induction false} NeverLeftAlone(run: seq<State>, steps: seq<Step>, n: nat)
    requires IsTrace(run, steps) && n <= |steps|
    ensures (forall i :: 0 <= i <= n ==> KeepsUp(run[i])) <==> (forall i :: 0 <= i < n ==> !LosesSome(run[i], steps[i]))
    decreases n
  {
    hide Next, Inv, KeepsUp, LosesSome;
    TraceIsRun(run, steps);
    if n == 0 {
      EmptyKeepsUp(run[0]);
    } else {
      NeverLeftAlone(run, steps, n - 1);
      RunKeepsInv(run, n - 1);
      if KeepsUp(run[n - 1]) {
        StepKeepsUp(run[n - 1], steps[n - 1], run[n]);
      }
    }
  }

  lemma EmptyKeepsUp(s: State)
    requires Init(s)
    ensures KeepsUp(s)
  {
  }

  // ------------------------------------------------------------ a request left alone

  const EMPTY := Queue([], 0, [], 0, None, [], [])

  /** One worker, and nothing to do. */
  function Alone(k: Worker): State {
    State([EMPTY, EMPTY, EMPTY, EMPTY], map[0 := k], [], 0, multiset{}, multiset{}, false)
  }

  lemma Extend(run: seq<State>, steps: seq<Step>, step: Step, t: State)
    requires IsTrace(run, steps) && Next(run[|run| - 1], step, t)
    ensures IsTrace(run + [t], steps + [step])
  {
    hide Next, Init;
    var run', steps' := run + [t], steps + [step];
    forall i | 0 <= i < |steps'|
      ensures Next(run'[i], steps'[i], run'[i + 1])
    {
      if i < |steps| {
        assert Next(run[i], steps[i], run[i + 1]);
      }
    }
  }

  /** The worker finds one more class empty. */
  lemma FindEmpty(run: seq<State>, steps: seq<Step>, ix: nat, tried: set<nat>)
    returns (run': seq<State>, steps': seq<Step>, tried': set<nat>)
    requires IsTrace(run, steps) && ix < N_REQ_QUEUES
    requires run[|run| - 1] == Alone(Worker(Scanning(0, ix), 0, false, tried))
    ensures IsTrace(run', steps') && run'[|run'| - 1] == Alone(Worker(Scanning(0, ix + 1), 0, false, tried'))
  {
    var s := run[|run| - 1];
    var c := Turn(0, ix);
    tried' := tried + {c};
    var t := At(OnQueue(s, c, EMPTY.(holder := Some(0))), 0, Holding(0, ix, false));
    var u := Alone(Worker(Scanning(0, ix + 1), 0, false, tried'));
    assert s.queues[c] == EMPTY && t.queues[c] == EMPTY.(holder := Some(0));
    assert t.queues[c := EMPTY] == u.queues;
    assert t.workers[0 := u.workers[0]] == u.workers;
    Extend(run, steps, LockEmpty(0), t);
    Extend(run + [t], steps + [LockEmpty(0)], GiveUp(0), u);
    run', steps' := run + [t] + [u], steps + [LockEmpty(0)] + [GiveUp(0)];
  }

  lemma ScanNothing() returns (run: seq<State>, steps: seq<Step>, tried: set<nat>)
    ensures IsTrace(run, steps) && run[|run| - 1] == Alone(Worker(Scanning(0, N_REQ_QUEUES), 0, false, tried))
  {
    hide Next;
    var s := Alone(Worker(Idle, 0, false, {}));
    var t := Alone(Worker(Scanning(0, 0), 0, false, {}));
    run, steps, tried := [s], [], {};
    assert Next(s, Begin(0, 0), t) by { Begins(); }
    Extend(run, steps, Begin(0, 0), t);
    run, steps := run + [t], steps + [Begin(0, 0)];
    run, steps, tried := FindEmpty(run, steps, 0, tried);
    run, steps, tried := FindEmpty(run, steps, 1, tried);
    run, steps, tried := FindEmpty(run, steps, 2, tried);
    run, steps, tried := FindEmpty(run, steps, 3, tried);
  }

  lemma Begins()
    ensures Next(Alone(Worker(Idle, 0, false, {})), Begin(0, 0), Alone(Worker(Scanning(0, 0), 0, false, {})))
  {
    var s, t := Alone(Worker(Idle, 0, false, {})), Alone(Worker(Scanning(0, 0), 0, false, {}));
    assert s.workers[0 := t.workers[0]] == t.workers;
  }

  /**
   * A worker has tried every class and is about to wait; a request comes, and its producer finds no waiter; the worker
   * waits. The request stays, with nobody on the way to it.
   */
  lemma WakeUpLost() returns (run: seq<State>, steps: seq<Step>)
    ensures IsTrace(run, steps) && var s := run[|run| - 1];
      |s.queues| == N_REQ_QUEUES && Has(s, MOUNT) && !Attended(s, MOUNT) && s.workers.Keys == {0} && s.waitList == [0]
  {
    var tried;
    run, steps, tried := ScanNothing();
    var s := run[|run| - 1];
    var s1 := Alone(Worker(Preparing, 1, false, tried));
    var q := Appended(EMPTY, 7);
    var s2 := OnQueue(s1, MOUNT, q).(checks := multiset{MOUNT});
    var s3 := s2.(checks := multiset{});
    var s4 := At(s3, 0, Waiting).(waitList := [0], waiters := 1);
    assert s.workers[0 := s1.workers[0]] == s1.workers;
    Extend(run, steps, PrepareWait(0), s1);
    assert s1.checks + multiset{MOUNT} == s2.checks;
    Extend(run + [s1], steps + [PrepareWait(0)], Append(MOUNT, 7), s2);
    assert s2.checks - multiset{MOUNT} == s3.checks;
    Extend(run + [s1] + [s2], steps + [PrepareWait(0)] + [Append(MOUNT, 7)], NoWaiter(MOUNT), s3);
    assert s3.waitList + [0] == s4.waitList;
    Extend(run + [s1] + [s2] + [s3], steps + [PrepareWait(0)] + [Append(MOUNT, 7)] + [NoWaiter(MOUNT)], Join(0), s4);
    run := run + [s1] + [s2] + [s3] + [s4];
    steps := steps + [PrepareWait(0)] + [Append(MOUNT, 7)] + [NoWaiter(MOUNT)] + [Join(0)];
  }
}
