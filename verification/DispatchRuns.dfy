/**
 * Every interleaving of the threads that share the request queues and the wait list. Each step is one critical section,
 * so a worker may be found holding a consumer lock, or half way into the wait.
 */
module DispatchRuns {
  import opened Options
  import opened Lists
  import opened RequestQueue

  /** One class: its two lists with their size fields, the holder of the consumer lock, and its history. */
  datatype Queue = Queue(
    producer: seq<nat>, psize: int, consumer: seq<nat>, csize: int, holder: Option<nat>,
    accepted: seq<nat>, served: seq<nat>)

  /** Where a worker is. `spliced` tells whether it has moved the producer list over while holding the lock. */
  datatype Phase =
    | Idle
    | Scanning(slot: nat, ix: nat)
    | Holding(slot: nat, ix: nat, spliced: bool)
    | Busy
    | Preparing
    | Waiting
    | Gone

  /** A worker, its wait entry, and the classes it has tried since it last began to scan. */
  datatype Worker = Worker(phase: Phase, waiters: int, syncDone: bool, tried: set<nat>)

  /**
   * `checks` holds the classes of requests whose producers have yet to look at the wait list, `signals` the entries that
   * wakers took off it and have yet to mark; `fault` is a failed assertion.
   */
  datatype State = State(
    queues: seq<Queue>, workers: map<nat, Worker>, waitList: seq<nat>, waiters: int,
    checks: multiset<nat>, signals: multiset<nat>, fault: bool)

  datatype Step =
    | Append(c: nat, req: nat)
    | WakeFirst(c: nat)
    | NoWaiter(c: nat)
    | Signal(w: nat)
    | Begin(w: nat, slot: nat)
    | Take(w: nat)
    | LockEmpty(w: nat)
    | Splice(w: nat)
    | PopSpliced(w: nat)
    | GiveUp(w: nat)
    | Finish(w: nat)
    | PrepareWait(w: nat)
    | Join(w: nat)
    | Resume(w: nat)
    | Break(w: nat)

  // ------------------------------------------------------------ what the steps do to one queue

  function Appended(q: Queue, req: nat): Queue {
    q.(producer := q.producer + [req], psize := q.psize + 1, accepted := q.accepted + [req])
  }

  function Popped(q: Queue): Queue
    requires q.consumer != []
  {
    q.(consumer := q.consumer[1..], csize := q.csize - 1, holder := None, served := q.served + [q.consumer[0]])
  }

  function Spliced(q: Queue): Queue {
    q.(consumer := q.consumer + q.producer, producer := [], csize := q.psize, psize := 0)
  }

  /** The size fields are the lengths, and what was accepted is what was served, then what waits, in order. */
  ghost predicate QueueFits(q: Queue) {
    q.psize == |q.producer| && q.csize == |q.consumer| && q.accepted == q.served + q.consumer + q.producer
  }

  lemma AppendFits(q: Queue, req: nat)
    requires QueueFits(q)
    ensures QueueFits(Appended(q, req))
  {
    assert q.served + q.consumer + (q.producer + [req]) == (q.served + q.consumer + q.producer) + [req];
  }

  lemma PopFits(q: Queue)
    requires QueueFits(q) && q.consumer != []
    ensures QueueFits(Popped(q))
  {
    assert (q.served + [q.consumer[0]]) + q.consumer[1..] == q.served + q.consumer;
  }

  lemma SpliceFits(q: Queue)
    requires QueueFits(q) && q.consumer == []
    ensures QueueFits(Spliced(q))
  {
    assert q.served + (q.consumer + q.producer) + [] == q.served + q.consumer + q.producer;
  }

  // ------------------------------------------------------------ steps

  function At(s: State, w: nat, phase: Phase): State
    requires w in s.workers
  {
    s.(workers := s.workers[w := s.workers[w].(phase := phase)])
  }

  function OnQueue(s: State, c: nat, q: Queue): State
    requires c < |s.queues|
  {
    s.(queues := s.queues[c := q])
  }

  /** Steps on the queues and their locks. */
  ghost predicate QueueStep(s: State, step: Step, t: State) {
    |s.queues| == N_REQ_QUEUES && match step
    case Append(c, req) =>
      c < N_REQ_QUEUES && t == OnQueue(s, c, Appended(s.queues[c], req)).(checks := s.checks + multiset{c})
    case Begin(w, slot) =>
      w in s.workers && s.workers[w].phase.Idle? && slot < N_REQ_QUEUES
      && t == s.(workers := s.workers[w := s.workers[w].(phase := Scanning(slot, 0), tried := {})])
    case Take(w) =>
      CanTry(s, w) && var c := TriedClass(s.workers[w].phase);
      s.queues[c].holder.None? && s.queues[c].csize > 0
      && t == if s.queues[c].consumer == [] then s.(fault := true) else At(OnQueue(s, c, Popped(s.queues[c])), w, Busy)
    case LockEmpty(w) =>
      CanTry(s, w) && var c := TriedClass(s.workers[w].phase);
      s.queues[c].holder.None? && s.queues[c].csize <= 0
      && t == At(OnQueue(s, c, s.queues[c].(holder := Some(w))), w, Holding(s.workers[w].phase.slot, s.workers[w].phase.ix, false))
    case Splice(w) =>
      Holds(s, w, false) && var c := TriedClass(s.workers[w].phase);
      s.queues[c].psize > 0
      && t == At(OnQueue(s, c, Spliced(s.queues[c])), w, s.workers[w].phase.(spliced := true))
    case PopSpliced(w) =>
      Holds(s, w, true) && var c := TriedClass(s.workers[w].phase);
      t == if s.queues[c].consumer == [] then s.(fault := true) else At(OnQueue(s, c, Popped(s.queues[c])), w, Busy)
    case GiveUp(w) =>
      Holds(s, w, false) && var c := TriedClass(s.workers[w].phase);
      s.queues[c].psize <= 0
      && t == OnQueue(s, c, s.queues[c].(holder := None)).(workers :=
        s.workers[w := s.workers[w].(phase := Scanning(s.workers[w].phase.slot, s.workers[w].phase.ix + 1),
                                     tried := s.workers[w].tried + {c})])
    case Finish(w) => w in s.workers && s.workers[w].phase.Busy? && t == At(s, w, Idle)
    case _ => false
  }

  /** Steps on the wait list and its entries. */
  ghost predicate WaitStep(s: State, step: Step, t: State) {
    match step
    case WakeFirst(c) => c in s.checks && s.waiters > 0 && t == AfterWake(s).(checks := s.checks - multiset{c})
    case NoWaiter(c) => c in s.checks && s.waiters <= 0 && t == s.(checks := s.checks - multiset{c})
    case Signal(w) =>
      w in s.signals && w in s.workers
      && t == s.(signals := s.signals - multiset{w}, workers := s.workers[w := s.workers[w].(syncDone := true)])
    case PrepareWait(w) =>
      w in s.workers && s.workers[w].phase.Scanning? && s.workers[w].phase.ix == N_REQ_QUEUES
      && t == s.(fault := s.fault || s.workers[w].waiters != 0,
                 workers := s.workers[w := s.workers[w].(phase := Preparing, waiters := 1, syncDone := false)])
    case Join(w) =>
      w in s.workers && s.workers[w].phase.Preparing?
      && t == At(s, w, Waiting).(waitList := s.waitList + [w], waiters := s.waiters + 1)
    case Resume(w) =>
      w in s.workers && s.workers[w].phase.Waiting? && s.workers[w].syncDone
      && t == s.(workers := s.workers[w := s.workers[w].(phase := Idle, syncDone := false)])
    case Break(w) => w in s.workers && s.workers[w].phase.Waiting? && t == AfterBreak(s, w)
    case _ => false
  }

  ghost predicate Next(s: State, step: Step, t: State) {
    QueueStep(s, step, t) || WaitStep(s, step, t)
  }

  /** The worker leaves for good, taking its entry off the list if it is still there. */
  function AfterBreak(s: State, w: nat): State
    requires w in s.workers
  {
    if w in s.waitList then
      s.(waitList := Without(s.waitList, w), waiters := s.waiters - 1,
         workers := s.workers[w := s.workers[w].(phase := Gone, waiters := s.workers[w].waiters - 1, syncDone := false)])
    else At(s, w, Gone)
  }

  /** The first entry is unlinked and its waiter count lowered; the waker marks it later, under the entry's own lock. */
  function AfterWake(s: State): State {
    if s.waitList == [] || s.waitList[0] !in s.workers then s.(fault := true)
    else
      var w := s.waitList[0];
      s.(waitList := s.waitList[1..], waiters := s.waiters - 1, signals := s.signals + multiset{w},
         workers := s.workers[w := s.workers[w].(waiters := s.workers[w].waiters - 1)])
  }

  predicate CanTry(s: State, w: nat) {
    |s.queues| == N_REQ_QUEUES && w in s.workers && s.workers[w].phase.Scanning? && s.workers[w].phase.ix < N_REQ_QUEUES
  }

  predicate Holds(s: State, w: nat, spliced: bool) {
    |s.queues| == N_REQ_QUEUES && w in s.workers && s.workers[w].phase.Holding?
    && s.workers[w].phase.spliced == spliced && s.workers[w].phase.ix < N_REQ_QUEUES
  }

  function TriedClass(p: Phase): (c: nat)
    requires p.Scanning? || p.Holding?
    ensures c < N_REQ_QUEUES
  {
    Turn(p.slot, p.ix)
  }

  // ------------------------------------------------------------ the invariant

  function TriedBefore(slot: nat, ix: nat): set<nat> {
    set j | 0 <= j < ix :: Turn(slot, j)
  }

  /** A worker's lock, and what it has seen. */
  ghost predicate ScanFits(s: State, w: nat)
    requires |s.queues| == N_REQ_QUEUES && w in s.workers
  {
    var k := s.workers[w];
    match k.phase
    case Scanning(slot, ix) => slot < N_REQ_QUEUES && ix <= N_REQ_QUEUES && k.tried == TriedBefore(slot, ix)
    case Holding(slot, ix, spliced) =>
      slot < N_REQ_QUEUES && ix < N_REQ_QUEUES && k.tried == TriedBefore(slot, ix)
      && s.queues[Turn(slot, ix)].holder == Some(w) && (spliced <==> s.queues[Turn(slot, ix)].consumer != [])
    case Preparing => k.tried == TriedBefore(0, N_REQ_QUEUES)
    case _ => true
  }

  /** A worker's wait entry: on the list with a count of one, or off it with none and a wake-up on its way. */
  ghost predicate WaitFits(s: State, w: nat)
    requires w in s.workers
  {
    var k := s.workers[w];
    match k.phase
    case Waiting =>
      if w in s.waitList then k.waiters == 1 && !k.syncDone && s.signals[w] == 0
      else k.waiters == 0 && s.signals[w] == if k.syncDone then 0 else 1
    case Preparing => k.waiters == 1 && !k.syncDone && s.signals[w] == 0 && w !in s.waitList
    case Gone => k.waiters == 0 && w !in s.waitList
    case _ => k.waiters == 0 && s.signals[w] == 0 && w !in s.waitList
  }

  ghost predicate ListFits(s: State) {
    s.waiters == |s.waitList| && NoRepeats(s.waitList)
    && (forall w :: w in s.waitList ==> w in s.workers) && (forall w :: w in s.signals ==> w in s.workers)
  }

  ghost predicate HolderFits(s: State, c: nat)
    requires |s.queues| == N_REQ_QUEUES && c < N_REQ_QUEUES
  {
    s.queues[c].holder.Some? ==>
      var w := s.queues[c].holder.value;
      w in s.workers && s.workers[w].phase.Holding? && TriedClass(s.workers[w].phase) == c
  }

  ghost predicate Inv(s: State) {
    |s.queues| == N_REQ_QUEUES && !s.fault && ListFits(s)
    && (forall c :: 0 <= c < N_REQ_QUEUES ==> QueueFits(s.queues[c]) && HolderFits(s, c))
    && (forall w :: w in s.workers ==> ScanFits(s, w) && WaitFits(s, w))
  }

  ghost predicate Init(s: State) {
    |s.queues| == N_REQ_QUEUES && !s.fault && s.waitList == [] && s.waiters == 0 && s.checks == multiset{} && s.signals == multiset{}
    && (forall c :: 0 <= c < N_REQ_QUEUES ==> s.queues[c] == Queue([], 0, [], 0, None, [], []))
    && (forall w :: w in s.workers ==> s.workers[w] == Worker(Idle, 0, false, {}))
  }

  lemma InitInv(s: State)
    requires Init(s)
    ensures Inv(s)
  {
  }

  // ------------------------------------------------------------ steps on the queues

  lemma QueuesNext(s: State, step: Step, t: State, c: nat)
    requires Inv(s) && QueueStep(s, step, t) && c < N_REQ_QUEUES
    ensures |t.queues| == N_REQ_QUEUES && QueueFits(t.queues[c]) && !t.fault
  {
    hide WaitFits, ListFits, Turn, TriedBefore, HolderFits;
    assert QueueFits(s.queues[c]);
    match step
    case Append(d, req) => AppendFits(s.queues[d], req);
    case Take(w) =>
      assert QueueFits(s.queues[TriedClass(s.workers[w].phase)]);
      PopFits(s.queues[TriedClass(s.workers[w].phase)]);
    case Splice(w) => assert ScanFits(s, w); SpliceFits(s.queues[TriedClass(s.workers[w].phase)]);
    case PopSpliced(w) => assert ScanFits(s, w); PopFits(s.queues[TriedClass(s.workers[w].phase)]);
    case _ =>
  }

  /** The wait list and the wait entries are none of the queues' business. */
  lemma QueueStepKeepsWait(s: State, step: Step, t: State)
    requires Inv(s) && QueueStep(s, step, t)
    ensures ListFits(t) && forall w :: w in t.workers ==> WaitFits(t, w)
  {
    hide QueueFits, ScanFits, HolderFits, Turn, Popped, Spliced, Appended;
    assert t.waitList == s.waitList && t.waiters == s.waiters && t.signals == s.signals && t.workers.Keys == s.workers.Keys;
    forall w | w in t.workers
      ensures WaitFits(t, w)
    {
      assert WaitFits(s, w);
    }
  }

  /** Four turns from any class try them all. */
  lemma AllTried(slot: nat)
    requires slot < N_REQ_QUEUES
    ensures TriedBefore(slot, N_REQ_QUEUES) == {MOUNT, CALL, LOW_LATENCY, HIGH_LATENCY}
  {
    var all := {MOUNT, CALL, LOW_LATENCY, HIGH_LATENCY};
    forall c | c in all
      ensures c in TriedBefore(slot, N_REQ_QUEUES)
    {
      var j := TurnOf(slot, c);
      assert Turn(slot, j) == c;
    }
    forall c | c in TriedBefore(slot, N_REQ_QUEUES)
      ensures c in all
    {
    }
  }

  lemma TriedNext(slot: nat, ix: nat)
    ensures TriedBefore(slot, ix + 1) == TriedBefore(slot, ix) + {Turn(slot, ix)}
  {
    hide Turn;
    forall c | c in TriedBefore(slot, ix + 1)
      ensures c in TriedBefore(slot, ix) + {Turn(slot, ix)}
    {
      var j :| 0 <= j < ix + 1 && Turn(slot, j) == c;
    }
  }

  /** The lock of the class a step works on, and who holds it afterwards. */
  lemma HolderNext(s: State, step: Step, t: State, c: nat)
    requires Inv(s) && QueueStep(s, step, t) && c < N_REQ_QUEUES && |t.queues| == N_REQ_QUEUES
    ensures HolderFits(t, c)
  {
    hide WaitFits, ListFits, QueueFits, Turn, TriedBefore;
    assert HolderFits(s, c);
    if step.PopSpliced? || step.GiveUp? || step.Splice? {
      assert ScanFits(s, step.w);
    }
  }

  /** A worker other than the one that steps keeps its lock, and its class keeps what it saw. */
  lemma OthersScanNext(s: State, step: Step, t: State, w: nat)
    requires Inv(s) && QueueStep(s, step, t) && w in t.workers && |t.queues| == N_REQ_QUEUES
    requires step.Append? || step.w != w
    ensures ScanFits(t, w)
  {
    hide WaitFits, ListFits, QueueFits, Turn, TriedBefore;
    assert t.workers[w] == s.workers[w];
    assert ScanFits(s, w);
    if step.PopSpliced? || step.GiveUp? || step.Splice? {
      assert ScanFits(s, step.w);
    }
  }

  lemma OwnScanNext(s: State, step: Step, t: State)
    requires Inv(s) && QueueStep(s, step, t) && |t.queues| == N_REQ_QUEUES && !step.Append? && !t.fault
    ensures step.w in t.workers && ScanFits(t, step.w)
  {
    hide WaitFits, ListFits, HolderFits, Turn, TriedBefore;
    var w := step.w;
    assert ScanFits(s, w);
    match step
    case Begin(_, slot) => NoneTried(slot);
    case LockEmpty(_) => assert QueueFits(s.queues[TriedClass(s.workers[w].phase)]);
    case Splice(_) => assert QueueFits(s.queues[TriedClass(s.workers[w].phase)]);
    case GiveUp(_) => TriedNext(s.workers[w].phase.slot, s.workers[w].phase.ix);
    case _ =>
  }

  lemma QueueStepKeepsInv(s: State, step: Step, t: State)
    requires Inv(s) && QueueStep(s, step, t)
    ensures Inv(t)
  {
    hide QueueStep, QueueFits, HolderFits, ScanFits, WaitFits, ListFits;
    forall c | 0 <= c < N_REQ_QUEUES
      ensures |t.queues| == N_REQ_QUEUES && QueueFits(t.queues[c]) && HolderFits(t, c) && !t.fault
    {
      QueuesNext(s, step, t, c);
      HolderNext(s, step, t, c);
    }
    QueuesNext(s, step, t, 0);
    QueueStepKeepsWait(s, step, t);
    forall w | w in t.workers
      ensures ScanFits(t, w)
    {
      if step.Append? || StepWorker(s, step, t) != w {
        OthersScanNext(s, step, t, w);
      } else {
        OwnScanNext(s, step, t);
      }
    }
  }

  function StepWorker(s: State, step: Step, t: State): nat
    requires QueueStep(s, step, t) && !step.Append?
  {
    step.w
  }

  lemma NoneTried(slot: nat)
    ensures TriedBefore(slot, 0) == {}
  {
  }

  // ------------------------------------------------------------ steps on the wait list

  /** What the wait part of the invariant says, in one place. */
  ghost predicate WaitInv(s: State) {
    ListFits(s) && !s.fault && forall w :: w in s.workers ==> WaitFits(s, w)
  }

  lemma WakeKeepsWait(s: State)
    requires WaitInv(s) && s.waiters > 0
    ensures WaitInv(AfterWake(s))
  {
    HeadFits(s.waitList);
    assert WaitFits(s, s.waitList[0]);
  }

  lemma BreakKeepsWait(s: State, w: nat)
    requires WaitInv(s) && w in s.workers && s.workers[w].phase.Waiting?
    ensures WaitInv(AfterBreak(s, w))
  {
    hide Without;
    assert WaitFits(s, w);
    if w in s.waitList {
      WithoutFits(s.waitList, w);
    }
  }

  lemma JoinKeepsWait(s: State, w: nat)
    requires WaitInv(s) && w in s.workers && s.workers[w].phase.Preparing?
    ensures WaitInv(At(s, w, Waiting).(waitList := s.waitList + [w], waiters := s.waiters + 1))
  {
    assert WaitFits(s, w);
  }

  lemma ChecksAside(s: State, t: State)
    requires WaitInv(s) && t == s.(checks := t.checks)
    ensures WaitInv(t)
  {
    forall w | w in t.workers
      ensures WaitFits(t, w)
    {
      assert WaitFits(s, w);
    }
  }

  lemma WaitStepKeepsWait(s: State, step: Step, t: State)
    requires WaitInv(s) && WaitStep(s, step, t)
    ensures WaitInv(t)
  {
    hide AfterWake, AfterBreak, Without;
    match step
    case WakeFirst(_) => WakeKeepsWait(s); ChecksAside(AfterWake(s), t);
    case NoWaiter(_) => ChecksAside(s, t);
    case Join(w) => JoinKeepsWait(s, w);
    case Break(w) => BreakKeepsWait(s, w);
    case PrepareWait(w) => assert WaitFits(s, w);
    case Signal(w) => assert WaitFits(s, w);
    case Resume(w) => assert WaitFits(s, w);
  }

  /** How a worker's scan may change while it waits or is woken: a lock holder not at all, others only to wait or leave. */
  ghost predicate ScanMoves(s: State, t: State, w: nat) {
    t.queues == s.queues && (w in t.workers <==> w in s.workers)
    && (w in s.workers ==> t.workers[w].tried == s.workers[w].tried)
    && (w in s.workers ==> PhaseMoves(s.workers[w].phase, t.workers[w].phase))
  }

  predicate PhaseMoves(p: Phase, q: Phase) {
    p == q
    || (!p.Holding? && (q.Waiting? || q.Idle? || q.Gone?))
    || (p.Scanning? && p.ix == N_REQ_QUEUES && q.Preparing?)
  }

  lemma WakeMoves(s: State, w: nat)
    ensures ScanMoves(s, AfterWake(s), w)
  {
  }

  lemma BreakMoves(s: State, v: nat, w: nat)
    requires v in s.workers && s.workers[v].phase.Waiting?
    ensures ScanMoves(s, AfterBreak(s, v), w)
  {
    hide Without;
  }

  lemma WaitStepMoves(s: State, step: Step, t: State, w: nat)
    requires WaitStep(s, step, t)
    ensures ScanMoves(s, t, w)
  {
    hide AfterWake, AfterBreak;
    match step
    case WakeFirst(_) => WakeMoves(s, w);
    case Break(v) => BreakMoves(s, v, w);
    case _ =>
  }

  lemma WaitStepKeepsScan(s: State, step: Step, t: State)
    requires Inv(s) && WaitStep(s, step, t)
    ensures t.queues == s.queues
    ensures forall c :: 0 <= c < N_REQ_QUEUES ==> HolderFits(t, c)
    ensures forall w :: w in t.workers ==> ScanFits(t, w)
  {
    hide WaitFits, ListFits, QueueFits, Turn, TriedBefore, WaitStep;
    WaitStepMoves(s, step, t, 0);
    forall c | 0 <= c < N_REQ_QUEUES
      ensures HolderFits(t, c)
    {
      assert HolderFits(s, c);
      if s.queues[c].holder.Some? {
        WaitStepMoves(s, step, t, s.queues[c].holder.value);
      }
    }
    forall w | w in t.workers
      ensures ScanFits(t, w)
    {
      WaitStepMoves(s, step, t, w);
      assert ScanFits(s, w);
      if t.workers[w].phase.Preparing? && s.workers[w].phase.Scanning? {
        AllTried(s.workers[w].phase.slot);
        AllTried(0);
      }
    }
  }

  lemma StepKeepsInv(s: State, step: Step, t: State)
    requires Inv(s) && Next(s, step, t)
    ensures Inv(t)
  {
    hide QueueStep, WaitStep, QueueFits, HolderFits, ScanFits, WaitFits, ListFits;
    if QueueStep(s, step, t) {
      QueueStepKeepsInv(s, step, t);
    } else {
      WaitStepKeepsWait(s, step, t);
      WaitStepKeepsScan(s, step, t);
    }
  }

  // ------------------------------------------------------------ whole runs

  ghost predicate CanStep(s: State, t: State) {
    exists step :: Next(s, step, t)
  }

  ghost predicate StepsAt(run: seq<State>, i: nat)
    requires i + 1 < |run|
  {
    CanStep(run[i], run[i + 1])
  }

  ghost predicate IsRun(run: seq<State>) {
    |run| > 0 && Init(run[0]) && forall i :: 0 <= i < |run| - 1 ==> StepsAt(run, i)
  }

  lemma {:induction false} RunKeepsInv(run: seq<State>, i: nat)
    requires IsRun(run) && i < |run|
    ensures Inv(run[i])
  {
    hide Next, Inv;
    if i == 0 {
      InitInv(run[0]);
    } else {
      RunKeepsInv(run, i - 1);
      assert StepsAt(run, i - 1);
      var step :| Next(run[i - 1], step, run[i]);
      StepKeepsInv(run[i - 1], step, run[i]);
    }
  }

  /** Requests leave each class in the order they came, none twice and none lost; the size fields are the lengths. */
  lemma RequestsServedInOrder(run: seq<State>, i: nat, c: nat)
    requires IsRun(run) && i < |run| && c < N_REQ_QUEUES
    ensures |run[i].queues| == N_REQ_QUEUES
    ensures var q := run[i].queues[c]; q.accepted == q.served + (q.consumer + q.producer)
    ensures var q := run[i].queues[c]; q.csize == |q.consumer| && q.psize == |q.producer|
    ensures var q := run[i].queues[c]; NoRepeats(q.accepted) ==> NoRepeats(q.served)
  {
    hide IsRun;
    RunKeepsInv(run, i);
    var q := run[i].queues[c];
    assert q.served + q.consumer + q.producer == q.served + (q.consumer + q.producer);
    if NoRepeats(q.accepted) {
      forall j, k | 0 <= j < k < |q.served|
        ensures q.served[j] != q.served[k]
      {
        assert q.accepted[j] == q.served[j] && q.accepted[k] == q.served[k];
      }
    }
  }

  /** The waiter count is the length of the list, no entry is on it twice, and no assertion ever fails. */
  lemma WaitListFits(run: seq<State>, i: nat)
    requires IsRun(run) && i < |run|
    ensures run[i].waiters == |run[i].waitList| && NoRepeats(run[i].waitList) && !run[i].fault
    ensures forall w :: w in run[i].workers && run[i].workers[w].phase.Scanning? ==> run[i].workers[w].waiters == 0
  {
    hide IsRun;
    RunKeepsInv(run, i);
    forall w | w in run[i].workers && run[i].workers[w].phase.Scanning?
      ensures run[i].workers[w].waiters == 0
    {
      assert WaitFits(run[i], w);
    }
  }

  /** A worker that goes to wait has tried all four classes. */
  lemma WaitsAfterFullScan(run: seq<State>, i: nat, w: nat)
    requires IsRun(run) && i < |run| && w in run[i].workers && run[i].workers[w].phase.Preparing?
    ensures run[i].workers[w].tried == {MOUNT, CALL, LOW_LATENCY, HIGH_LATENCY}
  {
    hide IsRun;
    RunKeepsInv(run, i);
    assert ScanFits(run[i], w);
    AllTried(0);
  }
}
