/**
 * Transports of the RPC dispatcher: one-shot events, the one-decoder guard, and the stall queue with its service
 * thread. A run is any interleaving of event callbacks, decoders, workers and the service thread, one critical section
 * at a time.
 */
module Transport {
  import opened Lists

  // ------------------------------------------------------------ one transport

  /**
   * A transport: its flags and request count, how many threads or queues hold its event at each place, and how many
   * threads have still to clear the decoding flag. `outstanding` counts the enqueued requests workers have yet to finish.
   */
  datatype Xprt = Xprt(
    decoding: bool, stalled: bool, destroyed: bool, reqCnt: int, outstanding: int,
    armed: int, inCallback: int, guarded: int, submitting: int, queued: int, decoder: int, checking: int,
    finishing: int, dying: int,
    clearing: int, unrefing: int)

  const FRESH := Xprt(false, false, false, 0, 0, 1, 0, 0, 0, 0, 0, 0, 0, 0, 0, 0)

  /** What became of one decoded message. */
  datatype Decoded = Discarded | Enqueued | CountedOnly

  /** Steps that concern one transport only. Re-arming the event of a destroyed transport may have no effect. */
  datatype Action =
    | Event
    | OverQuota(lost: bool)
    | GuardFail(lost: bool)
    | GuardPass
    | UnderLimit
    | ClearDecoding
    | SubmitOk
    | SubmitTimedOut(lost: bool)
    | RunJob
    | Decode(result: Decoded)
    | GoOn
    | StopDecoding(died: bool)
    | Rearm(lost: bool)
    | DestroyAfterDecoding
    | Unref
    | WorkerDone
    | Destroy

  predicate MayLose(x: Xprt, lost: bool) {
    lost ==> x.destroyed
  }

  function Rearmed(x: Xprt, lost: bool): Xprt {
    if lost then x else x.(armed := x.armed + 1)
  }

  /** When an action can happen to a transport. */
  predicate Enabled(max: int, x: Xprt, a: Action) {
    match a
    case Event => x.armed > 0
    case OverQuota(lost) => x.inCallback > 0 && MayLose(x, lost)
    case GuardFail(lost) => x.inCallback > 0 && (x.decoding || x.stalled) && MayLose(x, lost)
    case GuardPass => x.inCallback > 0 && !x.decoding && !x.stalled
    case UnderLimit => x.guarded > 0 && x.reqCnt < max
    case ClearDecoding => x.clearing > 0
    case SubmitOk => x.submitting > 0
    case SubmitTimedOut(lost) => x.submitting > 0 && MayLose(x, lost)
    case RunJob => x.queued > 0
    case Decode(_) => x.decoder > 0
    case GoOn => x.checking > 0 && x.reqCnt <= max
    case StopDecoding(_) => x.checking > 0
    case Rearm(lost) => x.finishing > 0 && MayLose(x, lost)
    case DestroyAfterDecoding => x.dying > 0
    case Unref => x.unrefing > 0
    case WorkerDone => x.outstanding > 0
    case Destroy => true
  }

  function After(x: Xprt, a: Action): Xprt {
    match a
    case Event => x.(armed := x.armed - 1, inCallback := x.inCallback + 1)
    case OverQuota(lost) => Rearmed(x.(inCallback := x.inCallback - 1), lost)
    case GuardFail(lost) => Rearmed(x.(inCallback := x.inCallback - 1), lost)
    case GuardPass => x.(inCallback := x.inCallback - 1, guarded := x.guarded + 1, decoding := true)
    case UnderLimit => x.(guarded := x.guarded - 1, submitting := x.submitting + 1)
    case ClearDecoding => x.(clearing := x.clearing - 1, decoding := false)
    case SubmitOk => x.(submitting := x.submitting - 1, queued := x.queued + 1)
    case SubmitTimedOut(lost) => Rearmed(x.(submitting := x.submitting - 1, unrefing := x.unrefing + 1), lost)
    case RunJob => x.(queued := x.queued - 1, decoder := x.decoder + 1)
    case Decode(result) =>
      x.(decoder := x.decoder - 1, checking := x.checking + 1,
         reqCnt := x.reqCnt + (if result.Discarded? then 0 else 1),
         outstanding := x.outstanding + (if result.Enqueued? then 1 else 0))
    case GoOn => x.(checking := x.checking - 1, decoder := x.decoder + 1)
    case StopDecoding(died) =>
      x.(checking := x.checking - 1, finishing := x.finishing + (if died then 0 else 1),
         dying := x.dying + (if died then 1 else 0))
    case Rearm(lost) => Rearmed(x.(finishing := x.finishing - 1, unrefing := x.unrefing + 1), lost)
    case DestroyAfterDecoding => x.(dying := x.dying - 1, unrefing := x.unrefing + 1, destroyed := true)
    case Unref => x.(unrefing := x.unrefing - 1, decoding := false)
    case WorkerDone => x.(outstanding := x.outstanding - 1, reqCnt := x.reqCnt - 1)
    case Destroy => x.(destroyed := true)
  }

  /** Past its limit, the transport moves to the stall queue; the decoding flag is cleared afterwards. */
  function Stall(x: Xprt): Xprt {
    x.(guarded := x.guarded - 1, clearing := x.clearing + 1, stalled := true)
  }

  function Unstall(x: Xprt, lost: bool): Xprt {
    Rearmed(x.(stalled := false), lost)
  }

  predicate ShouldUnstall(max: int, x: Xprt) {
    x.reqCnt < max / 2 || x.destroyed
  }

  // ------------------------------------------------------------ what holds of one transport

  /** The places its event can be, the stall queue being one. */
  function Tokens(x: Xprt): int {
    x.armed + x.inCallback + x.guarded + x.submitting + x.queued + x.decoder + x.checking + x.finishing + x.dying
    + if x.stalled then 1 else 0
  }

  /** The threads entitled to the decoding flag. */
  function Decoders(x: Xprt): int {
    x.guarded + x.submitting + x.queued + x.decoder + x.checking + x.finishing + x.dying + x.clearing + x.unrefing
  }

  predicate Counts(x: Xprt) {
    x.armed >= 0 && x.inCallback >= 0 && x.guarded >= 0 && x.submitting >= 0 && x.queued >= 0 && x.decoder >= 0
    && x.checking >= 0 && x.finishing >= 0 && x.dying >= 0 && x.clearing >= 0 && x.unrefing >= 0
  }

  /** One event, one decoder, and no more than one request above the limit. */
  predicate XprtFits(max: int, x: Xprt) {
    Counts(x)
    && (if x.destroyed then Tokens(x) <= 1 else Tokens(x) == 1)
    && Decoders(x) == (if x.decoding then 1 else 0)
    && 0 <= x.outstanding <= x.reqCnt <= max + 1
    && (x.submitting + x.queued + x.decoder > 0 ==> x.reqCnt <= max)
  }

  lemma FreshFits(max: int)
    requires max >= 0
    ensures XprtFits(max, FRESH)
  {
  }

  predicate ReArms(a: Action) {
    a.OverQuota? || a.GuardFail? || a.SubmitTimedOut? || a.Rearm?
  }

  predicate Decodes(a: Action) {
    a.RunJob? || a.Decode? || a.GoOn? || a.StopDecoding? || a.DestroyAfterDecoding?
  }

  lemma ReArmingKeepsFits(max: int, x: Xprt, a: Action)
    requires XprtFits(max, x) && Enabled(max, x, a) && ReArms(a)
    ensures XprtFits(max, After(x, a)) && After(x, a).stalled == x.stalled
  {
  }

  lemma DecodingKeepsFits(max: int, x: Xprt, a: Action)
    requires XprtFits(max, x) && Enabled(max, x, a) && Decodes(a)
    ensures XprtFits(max, After(x, a)) && After(x, a).stalled == x.stalled
  {
  }

  predicate Submits(a: Action) {
    a.Event? || a.GuardPass? || a.UnderLimit? || a.SubmitOk?
  }

  lemma SubmittingKeepsFits(max: int, x: Xprt, a: Action)
    requires XprtFits(max, x) && Enabled(max, x, a) && Submits(a)
    ensures XprtFits(max, After(x, a)) && After(x, a).stalled == x.stalled
  {
  }

  lemma EndingKeepsFits(max: int, x: Xprt, a: Action)
    requires XprtFits(max, x) && Enabled(max, x, a) && !ReArms(a) && !Decodes(a) && !Submits(a)
    ensures XprtFits(max, After(x, a)) && After(x, a).stalled == x.stalled
  {
  }

  lemma ActionKeepsFits(max: int, x: Xprt, a: Action)
    requires XprtFits(max, x) && Enabled(max, x, a)
    ensures XprtFits(max, After(x, a)) && After(x, a).stalled == x.stalled
  {
    hide *;
    if ReArms(a) {
      ReArmingKeepsFits(max, x, a);
    } else if Decodes(a) {
      DecodingKeepsFits(max, x, a);
    } else if Submits(a) {
      SubmittingKeepsFits(max, x, a);
    } else {
      EndingKeepsFits(max, x, a);
    }
  }

  /** Only a transport that is not stalled yet gets here. */
  lemma StallKeepsFits(max: int, x: Xprt)
    requires XprtFits(max, x) && x.guarded > 0
    ensures !x.stalled && XprtFits(max, Stall(x))
  {
  }

  lemma UnstallKeepsFits(max: int, x: Xprt, lost: bool)
    requires XprtFits(max, x) && x.stalled && MayLose(x, lost)
    ensures XprtFits(max, Unstall(x, lost))
  {
  }

  // ------------------------------------------------------------ all transports and the stall queue

  /** A service thread between two looks at the queue, or with a transport picked and the queue's lock let go. */
  datatype Service = Resting | Picked(i: nat)

  /** `starting` counts the service threads asked for but not yet running; `oops` the branch that cannot happen. */
  datatype State = State(
    xprts: map<nat, Xprt>, stallq: seq<nat>, stalled: int, active: bool, starting: int, threads: map<nat, Service>,
    oops: bool)

  datatype Step =
    | Open(i: nat)
    | Local(i: nat, a: Action)
    | OverLimit(i: nat)
    | StartService(thread: nat)
    | ServeIdle(thread: nat)
    | ServePick(thread: nat, i: nat)
    | ServeUnstall(thread: nat, lost: bool)

  ghost predicate FirstToUnstall(max: int, s: State, i: nat) {
    exists k :: 0 <= k < |s.stallq| && s.stallq[k] == i && i in s.xprts && ShouldUnstall(max, s.xprts[i])
      && forall j :: 0 <= j < k && s.stallq[j] in s.xprts ==> !ShouldUnstall(max, s.xprts[s.stallq[j]])
  }

  ghost predicate Next(max: int, s: State, step: Step, t: State) {
    match step
    case Open(i) => i !in s.xprts && t == s.(xprts := s.xprts[i := FRESH])
    case Local(i, a) =>
      i in s.xprts && Enabled(max, s.xprts[i], a) && t == s.(xprts := s.xprts[i := After(s.xprts[i], a)])
    case OverLimit(i) =>
      i in s.xprts && s.xprts[i].guarded > 0 && s.xprts[i].reqCnt >= max && t == AfterOverLimit(s, i)
    case StartService(thread) =>
      s.starting > 0 && thread !in s.threads
      && t == s.(starting := s.starting - 1, threads := s.threads[thread := Resting])
    case ServeIdle(thread) =>
      thread in s.threads && s.threads[thread].Resting? && s.stalled == 0
      && t == s.(active := false, threads := s.threads - {thread})
    case ServePick(thread, i) =>
      thread in s.threads && s.threads[thread].Resting? && s.stalled != 0 && FirstToUnstall(max, s, i)
      && t == s.(threads := s.threads[thread := Picked(i)])
    case ServeUnstall(thread, lost) =>
      thread in s.threads && s.threads[thread].Picked? && s.threads[thread].i in s.xprts
      && MayLose(s.xprts[s.threads[thread].i], lost) && t == AfterUnstall(s, thread, lost)
  }

  /** The transport joins the stall queue, and a service thread is asked for unless one is active. */
  function AfterOverLimit(s: State, i: nat): State
    requires i in s.xprts
  {
    if s.xprts[i].stalled then s.(oops := true)
    else
      s.(xprts := s.xprts[i := Stall(s.xprts[i])], stallq := s.stallq + [i], stalled := s.stalled + 1,
         active := true, starting := s.starting + if s.active then 0 else 1)
  }

  function AfterUnstall(s: State, thread: nat, lost: bool): State
    requires thread in s.threads && s.threads[thread].Picked? && s.threads[thread].i in s.xprts
  {
    var i := s.threads[thread].i;
    s.(xprts := s.xprts[i := Unstall(s.xprts[i], lost)], stallq := Without(s.stallq, i), stalled := s.stalled - 1,
       threads := s.threads[thread := Resting])
  }

  function Flagged(s: State): set<nat> {
    set i | i in s.xprts && s.xprts[i].stalled
  }

  /** The queue holds exactly the transports flagged stalled, each once, and its counter is its length. */
  ghost predicate QueueFits(s: State) {
    s.stalled == |s.stallq| && NoRepeats(s.stallq)
    && forall i :: i in s.stallq <==> i in s.xprts && s.xprts[i].stalled
  }

  /** One service thread, running or on its way, when active; none otherwise; and active whenever something is stalled. */
  ghost predicate ServiceFits(s: State) {
    s.starting >= 0 && s.starting + |s.threads| == (if s.active then 1 else 0)
    && (s.stalled > 0 ==> s.active)
    && forall thread :: thread in s.threads && s.threads[thread].Picked? ==> s.threads[thread].i in s.stallq
  }

  ghost predicate Inv(max: int, s: State) {
    !s.oops && QueueFits(s) && ServiceFits(s) && forall i :: i in s.xprts ==> XprtFits(max, s.xprts[i])
  }

  ghost predicate Init(s: State) {
    s == State(map[], [], 0, false, 0, map[], false)
  }

  lemma OnlyThread(s: State, thread: nat)
    requires ServiceFits(s) && thread in s.threads
    ensures s.active && s.starting == 0 && s.threads.Keys == {thread}
  {
    var rest := s.threads.Keys - {thread};
    assert s.threads.Keys == rest + {thread};
    assert |s.threads| == |s.threads.Keys|;
  }

  lemma NoThread(s: State)
    requires ServiceFits(s) && s.starting > 0
    ensures s.active && s.threads == map[]
  {
  }

  lemma OverLimitKeepsInv(max: int, s: State, i: nat)
    requires Inv(max, s) && i in s.xprts && s.xprts[i].guarded > 0
    ensures Inv(max, AfterOverLimit(s, i))
  {
    hide XprtFits, Stall;
    StallKeepsFits(max, s.xprts[i]);
    StallFlags(s.xprts[i]);
  }

  lemma StallFlags(x: Xprt)
    ensures Stall(x).stalled && !Unstall(x, true).stalled && !Unstall(x, false).stalled
  {
  }

  lemma UnstallKeepsInv(max: int, s: State, thread: nat, lost: bool)
    requires Inv(max, s) && thread in s.threads && s.threads[thread].Picked? && s.threads[thread].i in s.xprts
    requires MayLose(s.xprts[s.threads[thread].i], lost)
    ensures Inv(max, AfterUnstall(s, thread, lost))
  {
    hide XprtFits, Unstall, Without;
    var i := s.threads[thread].i;
    OnlyThread(s, thread);
    WithoutFits(s.stallq, i);
    UnstallKeepsFits(max, s.xprts[i], lost);
    StallFlags(s.xprts[i]);
    var t := AfterUnstall(s, thread, lost);
    assert t.threads.Keys == s.threads.Keys;
  }

  lemma PickKeepsInv(max: int, s: State, thread: nat, i: nat)
    requires Inv(max, s) && thread in s.threads && FirstToUnstall(max, s, i)
    ensures Inv(max, s.(threads := s.threads[thread := Picked(i)]))
  {
    hide XprtFits;
    OnlyThread(s, thread);
    var t := s.(threads := s.threads[thread := Picked(i)]);
    assert t.threads.Keys == s.threads.Keys;
    assert |t.threads| == |t.threads.Keys|;
  }

  /** A transport that changes without changing its stalled flag leaves the queue and its service as they were. */
  lemma UpdateKeepsInv(max: int, s: State, i: nat, x: Xprt)
    requires Inv(max, s) && XprtFits(max, x) && (x.stalled <==> i in s.xprts && s.xprts[i].stalled)
    ensures Inv(max, s.(xprts := s.xprts[i := x]))
  {
    hide XprtFits;
  }

  lemma StepKeepsInv(max: int, s: State, step: Step, t: State)
    requires max >= 0 && Inv(max, s) && Next(max, s, step, t)
    ensures Inv(max, t)
  {
    hide XprtFits, Enabled, After, AfterOverLimit, AfterUnstall, FirstToUnstall;
    match step
    case Open(i) => FreshFits(max); UpdateKeepsInv(max, s, i, FRESH);
    case Local(i, a) => ActionKeepsFits(max, s.xprts[i], a); UpdateKeepsInv(max, s, i, After(s.xprts[i], a));
    case OverLimit(i) => OverLimitKeepsInv(max, s, i);
    case StartService(thread) => NoThread(s);
    case ServeIdle(thread) => OnlyThread(s, thread); assert t.threads.Keys == {};
    case ServePick(thread, i) => PickKeepsInv(max, s, thread, i);
    case ServeUnstall(thread, lost) => UnstallKeepsInv(max, s, thread, lost);
  }

  // ------------------------------------------------------------ whole runs

  ghost predicate CanStep(max: int, s: State, t: State) {
    exists step :: Next(max, s, step, t)
  }

  ghost predicate StepsAt(max: int, run: seq<State>, i: nat)
    requires i + 1 < |run|
  {
    CanStep(max, run[i], run[i + 1])
  }

  ghost predicate IsRun(max: int, run: seq<State>) {
    |run| > 0 && Init(run[0]) && forall i :: 0 <= i < |run| - 1 ==> StepsAt(max, run, i)
  }

  lemma {:induction false} RunKeepsInv(max: int, run: seq<State>, n: nat)
    requires max >= 0 && IsRun(max, run) && n < |run|
    ensures Inv(max, run[n])
  {
    hide Next;
    if n > 0 {
      RunKeepsInv(max, run, n - 1);
      assert StepsAt(max, run, n - 1);
      var step :| Next(max, run[n - 1], step, run[n]);
      StepKeepsInv(max, run[n - 1], step, run[n]);
    }
  }

  /**
   * A live transport has exactly one event token, a destroyed one at most one; its decoding flag has one owner; and its
   * request count never exceeds the limit by more than one.
   */
  lemma OneTokenPerTransport(max: int, run: seq<State>, n: nat, i: nat)
    requires max >= 0 && IsRun(max, run) && n < |run| && i in run[n].xprts
    ensures Counts(run[n].xprts[i])
    ensures var x := run[n].xprts[i]; if x.destroyed then Tokens(x) <= 1 else Tokens(x) == 1
    ensures var x := run[n].xprts[i]; Decoders(x) == if x.decoding then 1 else 0
    ensures var x := run[n].xprts[i]; 0 <= x.outstanding <= x.reqCnt <= max + 1
  {
    hide IsRun;
    RunKeepsInv(max, run, n);
  }

  /**
   * The stall counter is the length of the queue and the number of transports flagged stalled; while it is not zero
   * there is exactly one service thread; and no transport is ever found stalled a second time.
   */
  lemma StallQueueFits(max: int, run: seq<State>, n: nat)
    requires max >= 0 && IsRun(max, run) && n < |run|
    ensures run[n].stalled == |run[n].stallq| && NoRepeats(run[n].stallq) && !run[n].oops
    ensures run[n].stalled == |Flagged(run[n])|
    ensures run[n].stalled > 0 ==> run[n].active && run[n].starting + |run[n].threads| == 1
    ensures forall i :: i in run[n].stallq <==> i in run[n].xprts && run[n].xprts[i].stalled
  {
    hide IsRun;
    RunKeepsInv(max, run, n);
    CountOnce(run[n].stallq, Flagged(run[n]));
  }

  // ------------------------------------------------------------ how long a stall lasts

  /** The transport is gone, or has room for another request below half its limit. */
  predicate LowOrGone(max: int, x: Xprt) {
    x.destroyed || 2 * (x.reqCnt + 1) <= max
  }

  ghost predicate PickedFits(max: int, s: State) {
    forall thread :: thread in s.threads && s.threads[thread].Picked? ==>
      s.threads[thread].i in s.xprts && LowOrGone(max, s.xprts[s.threads[thread].i])
  }

  /** While a transport is stalled nothing is decoded from it, so it gets no new requests. */
  lemma StalledOnlyDrains(max: int, x: Xprt, a: Action)
    requires XprtFits(max, x) && x.stalled && Enabled(max, x, a)
    ensures After(x, a).stalled && After(x, a).reqCnt <= x.reqCnt && (x.destroyed ==> After(x, a).destroyed)
  {
  }

  lemma StepKeepsPicked(max: int, s: State, step: Step, t: State)
    requires Inv(max, s) && PickedFits(max, s) && Next(max, s, step, t)
    ensures PickedFits(max, t)
  {
    hide XprtFits, Enabled, After, AfterUnstall, FirstToUnstall;
    match step
    case Open(i) =>
    case Local(i, a) =>
      if s.xprts[i].stalled {
        StalledOnlyDrains(max, s.xprts[i], a);
      }
    case OverLimit(i) =>
    case StartService(thread) => NoThread(s);
    case ServeIdle(thread) => OnlyThread(s, thread);
    case ServePick(thread, i) => PickedIsFirst(max, s, i);
    case ServeUnstall(thread, lost) => OnlyThread(s, thread); NonePicked(s, thread, lost);
  }

  lemma NonePicked(s: State, thread: nat, lost: bool)
    requires thread in s.threads && s.threads[thread].Picked? && s.threads[thread].i in s.xprts
    requires s.threads.Keys == {thread}
    ensures forall k :: k in AfterUnstall(s, thread, lost).threads ==> AfterUnstall(s, thread, lost).threads[k].Resting?
  {
  }

  /** The service thread picks the first in the queue that is gone or below half its limit. */
  lemma PickedIsFirst(max: int, s: State, i: nat)
    requires QueueFits(s) && FirstToUnstall(max, s, i)
    ensures
      exists k :: 0 <= k < |s.stallq| && s.stallq[k] == i && i in s.xprts && LowOrGone(max, s.xprts[i])
        && forall j :: 0 <= j < k ==> s.stallq[j] in s.xprts && !LowOrGone(max, s.xprts[s.stallq[j]])
  {
    var k :| 0 <= k < |s.stallq| && s.stallq[k] == i && i in s.xprts && ShouldUnstall(max, s.xprts[i])
      && forall j :: 0 <= j < k && s.stallq[j] in s.xprts ==> !ShouldUnstall(max, s.xprts[s.stallq[j]]);
    assert forall j :: 0 <= j < k ==> s.stallq[j] in s.stallq;
  }

  /** And it finds one whenever there is one. */
  lemma SomethingToPick(max: int, s: State)
    requires QueueFits(s)
    ensures (exists i :: FirstToUnstall(max, s, i))
       <==> (exists i :: i in s.xprts && s.xprts[i].stalled && LowOrGone(max, s.xprts[i]))
  {
    forall i | FirstToUnstall(max, s, i)
      ensures i in s.xprts && s.xprts[i].stalled && LowOrGone(max, s.xprts[i])
    {
      assert i in s.stallq;
    }
    forall i | i in s.xprts && s.xprts[i].stalled && LowOrGone(max, s.xprts[i])
      ensures exists g :: FirstToUnstall(max, s, g)
    {
      assert i in s.stallq;
      var k :| 0 <= k < |s.stallq| && s.stallq[k] == i;
      var g := FirstLow(max, s, k);
    }
  }

  lemma {:induction false} FirstLow(max: int, s: State, k: nat) returns (i: nat)
    requires QueueFits(s) && k < |s.stallq| && s.stallq[k] in s.xprts && LowOrGone(max, s.xprts[s.stallq[k]])
    ensures FirstToUnstall(max, s, i)
    decreases k
  {
    if j :| 0 <= j < k && s.stallq[j] in s.xprts && ShouldUnstall(max, s.xprts[s.stallq[j]]) {
      i := FirstLow(max, s, j);
    } else {
      i := s.stallq[k];
    }
  }

  lemma {:induction false} RunKeepsPicked(max: int, run: seq<State>, n: nat)
    requires max >= 0 && IsRun(max, run) && n < |run|
    ensures PickedFits(max, run[n])
  {
    hide Next, Inv;
    if n > 0 {
      RunKeepsPicked(max, run, n - 1);
      RunKeepsInv(max, run, n - 1);
      assert StepsAt(max, run, n - 1);
      var step :| Next(max, run[n - 1], step, run[n]);
      StepKeepsPicked(max, run[n - 1], step, run[n]);
    }
  }

  /** In every run, a stalled transport stays stalled until it is gone or has drained to below half its limit. */
  lemma StalledUntilHalf(max: int, run: seq<State>, n: nat, i: nat)
    requires max >= 0 && IsRun(max, run) && n + 1 < |run|
    requires i in run[n].xprts && run[n].xprts[i].stalled
    ensures i in run[n + 1].xprts
    ensures run[n + 1].xprts[i].stalled || LowOrGone(max, run[n].xprts[i])
  {
    hide IsRun, Inv, Next, PickedFits;
    RunKeepsInv(max, run, n);
    RunKeepsPicked(max, run, n);
    assert StepsAt(max, run, n) by {
      RunSteps(max, run, n);
    }
    var step :| Next(max, run[n], step, run[n + 1]);
    StepLeavesStalled(max, run[n], step, run[n + 1], i);
  }

  lemma RunSteps(max: int, run: seq<State>, n: nat)
    requires IsRun(max, run) && n + 1 < |run|
    ensures StepsAt(max, run, n)
  {
  }

  lemma StepLeavesStalled(max: int, s: State, step: Step, t: State, i: nat)
    requires Inv(max, s) && PickedFits(max, s) && Next(max, s, step, t) && i in s.xprts && s.xprts[i].stalled
    ensures i in t.xprts && (t.xprts[i].stalled || LowOrGone(max, s.xprts[i]))
  {
    hide XprtFits, Enabled, After, FirstToUnstall;
    if step.Local? && step.i == i {
      StalledOnlyDrains(max, s.xprts[i], step.a);
    }
  }
}
