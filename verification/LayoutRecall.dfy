/**
 * The life of a CB_LAYOUTRECALL (sections 12.5.5 and 20.3 of RFC 5661): sent, retried while the client answers
 * NFS4ERR_DELAY, and ended by an acknowledgement, a return or a revocation. Every interleaving of the recalls, the
 * replies, the delayed executor and the clock is one run.
 */
module LayoutRecall {

  const MSEC := 1_000_000
  const SEC := 1_000_000_000

  /** How long to wait before sending again, in nanoseconds, after so many attempts. */
  function Backoff(attempts: nat): nat {
    if attempts < 5 then 0
    else if attempts < 10 then MSEC
    else if attempts < 20 then 10 * MSEC
    else if attempts < 30 then 100 * MSEC
    else SEC
  }

  datatype Status = Accepted | Delay | NoMatchingLayout | OtherError

  /** What the completion function is told; a call that never left is reported complete, with the status still zero. */
  datatype Reply = NeverSent | Aborted | Answered(status: Status)

  /** One call that was completed: how, and how long after the first. */
  datatype Completion = Completion(reply: Reply, elapsed: int)

  /**
   * The callback data: how often the call was submitted, when it first was, and when it may be again. What follows is
   * history: how many of the calls left for the client, what each completed one was told, and what the last look-up of
   * the layout's state answered.
   */
  datatype Record = Record(attempts: nat, first: nat, due: nat, left: nat, replies: seq<Completion>, looked: Lookup)

  datatype Lookup = Never | Found | Missing

  datatype Circumstance = Client | Revoke

  datatype Outcome = Acknowledged | Returned(circumstance: Circumstance) | StateGone

  /**
   * Who holds each record: the step that is running, a call queued, on its way or dropped, or the delayed executor, to
   * call again or to return the layout. `released` counts, per record, the slots given back by its completed calls.
   */
  datatype State = State(
    now: nat,
    records: map<nat, Record>,
    running: multiset<nat>,
    queued: multiset<nat>,
    inFlight: multiset<nat>,
    dropped: multiset<nat>,
    delayed: multiset<nat>,
    returning: multiset<nat>,
    freed: multiset<nat>,
    released: multiset<nat>,
    outcome: map<nat, Outcome>)

  datatype Step =
    | Tick(elapsed: nat)
    | Create(r: nat)
    | OneCall(r: nat, found: bool, submitted: bool)
    | Dispatch(r: nat, up: bool)
    | Complete(r: nat, reply: Reply, found: bool)
    | FireCall(r: nat)
    | FireReturn(r: nat, found: bool)

  function Empty(now: nat): State {
    State(now, map[], multiset{}, multiset{}, multiset{}, multiset{}, multiset{}, multiset{}, multiset{}, multiset{}, map[])
  }

  ghost predicate Init(s: State) {
    s == Empty(s.now)
  }

  const NEW := Record(0, 0, 0, 0, [], Never)

  function LookedUp(c: Record, found: bool): Record {
    c.(looked := if found then Found else Missing)
  }

  /** The record is freed; the layout was returned on the way if its state was still to be found. */
  function Ended(s: State, r: nat, outcome: Outcome): State {
    s.(freed := s.freed + multiset{r}, outcome := s.outcome[r := outcome])
  }

  function GiveBack(found: bool, circumstance: Circumstance): Outcome {
    if found then Returned(circumstance) else StateGone
  }

  /** Submitting: the first attempt notes the time; a failed first attempt is returned later, a failed retry at once. */
  function AfterOneCall(s: State, r: nat, found: bool, submitted: bool): State
    requires r in s.records
  {
    var c := LookedUp(s.records[r], found);
    var first := if c.attempts == 0 then s.now else c.first;
    var s' := s.(running := s.running - multiset{r}, records := s.records[r := c.(first := first)]);
    if !found then Ended(s', r, StateGone)
    else if submitted then
      s'.(records := s.records[r := c.(attempts := c.attempts + 1, first := first)], queued := s'.queued + multiset{r})
    else if c.attempts == 0 then s'.(returning := s'.returning + multiset{r})
    else Ended(s', r, Returned(Revoke))
  }

  /** The call leaves, unless the channel has lost its client handle. */
  function AfterDispatch(s: State, r: nat, up: bool): State
    requires r in s.records
  {
    var c := s.records[r];
    var s' := s.(queued := s.queued - multiset{r});
    if up then s'.(inFlight := s'.inFlight + multiset{r}, records := s.records[r := c.(left := c.left + 1)])
    else s'.(dropped := s'.dropped + multiset{r})
  }

  /** The call is freed and its slot released; its reply goes down in the history. */
  function CompleteSingle(s: State, r: nat, reply: Reply): State
    requires r in s.records
  {
    var c := s.records[r];
    var s' := if reply.NeverSent? then s.(dropped := s.dropped - multiset{r}) else s.(inFlight := s.inFlight - multiset{r});
    s'.(released := s.released + multiset{r},
        records := s.records[r := c.(replies := c.replies + [Completion(reply, s.now - c.first)])])
  }

  /** What the completion function does with the reply, once the call is gone. */
  function Conclude(lease: nat, s: State, r: nat, reply: Reply, found: bool): State
    requires r in s.records
  {
    var c := s.records[r];
    if reply.NeverSent? || reply == Answered(Accepted) then
      Ended(s, r, Acknowledged)
    else if reply == Answered(Delay) && s.now - c.first <= lease * SEC then
      s.(delayed := s.delayed + multiset{r}, records := s.records[r := c.(due := s.now + Backoff(c.attempts))])
    else
      Ended(s.(records := s.records[r := LookedUp(c, found)]), r,
            GiveBack(found, if reply == Answered(NoMatchingLayout) then Client else Revoke))
  }

  function AfterComplete(lease: nat, s: State, r: nat, reply: Reply, found: bool): State
    requires r in s.records
  {
    Conclude(lease, CompleteSingle(s, r, reply), r, reply, found)
  }

  /** The call that is completed is there to be completed. */
  ghost predicate Completes(s: State, r: nat, reply: Reply) {
    if reply.NeverSent? then r in s.dropped else r in s.inFlight
  }

  ghost predicate EndedAs(s: State, r: nat, outcome: Outcome) {
    r in s.outcome && s.outcome[r] == outcome
  }

  ghost predicate Next(lease: nat, s: State, step: Step, t: State) {
    match step
    case Tick(elapsed) => t == s.(now := s.now + elapsed)
    case Create(r) =>
      r !in s.records && t == s.(records := s.records[r := NEW], running := s.running + multiset{r})
    case OneCall(r, found, submitted) =>
      r in s.running && r in s.records && t == AfterOneCall(s, r, found, submitted)
    case Dispatch(r, up) =>
      r in s.queued && r in s.records && t == AfterDispatch(s, r, up)
    case Complete(r, reply, found) =>
      Completes(s, r, reply) && r in s.records && t == AfterComplete(lease, s, r, reply, found)
    case FireCall(r) =>
      r in s.delayed && r in s.records && s.records[r].due <= s.now
      && t == s.(delayed := s.delayed - multiset{r}, running := s.running + multiset{r})
    case FireReturn(r, found) =>
      r in s.returning && r in s.records
      && t == Ended(s.(returning := s.returning - multiset{r}, records := s.records[r := LookedUp(s.records[r], found)]), r,
                    GiveBack(found, Revoke))
  }

  ghost predicate CanStep(lease: nat, s: State, t: State) {
    exists step :: Next(lease, s, step, t)
  }

  ghost predicate StepsAt(lease: nat, run: seq<State>, i: nat)
    requires i + 1 < |run|
  {
    CanStep(lease, run[i], run[i + 1])
  }

  ghost predicate IsRun(lease: nat, run: seq<State>) {
    |run| > 0 && Init(run[0]) && forall i :: 0 <= i < |run| - 1 ==> StepsAt(lease, run, i)
  }

  // ------------------------------------------------------------ one owner

  /** The record belongs to a call. */
  function Out(s: State, r: nat): nat {
    s.queued[r] + s.inFlight[r] + s.dropped[r]
  }

  function Owners(s: State, r: nat): nat {
    s.running[r] + Out(s, r) + s.delayed[r] + s.returning[r] + s.freed[r]
  }

  /** A record has one owner from its creation on, freed counting as the last; and each call gives back one slot. */
  ghost predicate Owned(s: State, r: nat) {
    Owners(s, r) == (if r in s.records then 1 else 0)
    && (r in s.outcome <==> s.freed[r] == 1)
    && s.released[r] + Out(s, r) == (if r in s.records then s.records[r].attempts else 0)
  }

  /** The least time between the first call and the one after attempt n. */
  function Waited(n: nat): nat {
    if n == 0 then 0 else Waited(n - 1) + Backoff(n)
  }

  /** How far a record has come, in attempts and in time. */
  ghost predicate Timed(lease: nat, s: State, r: nat)
    requires r in s.records
  {
    var c := s.records[r];
    (c.attempts > 0 ==> c.first <= s.now)
    && (c.attempts > 0 && Out(s, r) == 1 ==> c.first + Waited(c.attempts - 1) <= s.now)
    && (c.attempts > 0 && s.delayed[r] == 1 ==> c.first + Waited(c.attempts) <= c.due)
    && (c.attempts > 0 && s.running[r] == 1 ==> c.first + Waited(c.attempts) <= s.now)
    && (c.attempts > 0 && (s.delayed[r] == 1 || s.running[r] == 1) ==> Waited(c.attempts - 1) <= lease * SEC)
    && (c.attempts > 1 ==> Waited(c.attempts - 2) <= lease * SEC)
  }

  /** The client asked for delay, in time. */
  predicate Asks(lease: nat, c: Completion) {
    c.reply == Answered(Delay) && c.elapsed <= lease * SEC
  }

  predicate Lost(h: seq<Completion>) {
    h != [] && h[|h| - 1].reply.NeverSent?
  }

  /** How a recall ends whose last reply is the last of these, if its state is found when it is looked for. */
  function Verdict(lease: nat, h: seq<Completion>): Outcome {
    if h == [] || Asks(lease, h[|h| - 1]) then Returned(Revoke)
    else match h[|h| - 1].reply
      case NeverSent => Acknowledged
      case Aborted => Returned(Revoke)
      case Answered(Accepted) => Acknowledged
      case Answered(NoMatchingLayout) => Returned(Client)
      case Answered(_) => Returned(Revoke)
  }

  ghost predicate Agrees(lease: nat, h: seq<Completion>, outcome: Outcome) {
    outcome == Verdict(lease, h) || (outcome == StateGone && !Verdict(lease, h).Acknowledged?)
  }

  /** The history: one reply per completed call, only the last other than a delay, and the calls that left. */
  ghost predicate Told(lease: nat, s: State, r: nat)
    requires r in s.records
  {
    var c := s.records[r];
    var h := c.replies;
    |h| == s.released[r]
    && (forall i :: 0 <= i < |h| - 1 ==> Asks(lease, h[i]))
    && (if r in s.outcome then Agrees(lease, h, s.outcome[r]) else h != [] ==> Asks(lease, h[|h| - 1]))
    && c.left + s.queued[r] + s.dropped[r] + (if Lost(h) then 1 else 0) == c.attempts
    && (c.looked.Missing? <==> EndedAs(s, r, StateGone))
    && (r in s.outcome && s.outcome[r].Returned? ==> c.looked.Found?)
  }

  ghost predicate Inv(lease: nat, s: State) {
    (forall r :: Owned(s, r)) && forall r :: r in s.records ==> Timed(lease, s, r) && Told(lease, s, r)
  }

  lemma InitInv(lease: nat, s: State)
    requires Init(s)
    ensures Inv(lease, s)
  {
  }

  /** All that the invariant says of a record is told by this much of the state. */
  ghost predicate SameFor(s: State, t: State, r: nat) {
    t.running[r] == s.running[r] && t.queued[r] == s.queued[r] && t.inFlight[r] == s.inFlight[r]
    && t.dropped[r] == s.dropped[r] && t.delayed[r] == s.delayed[r]
    && t.returning[r] == s.returning[r] && t.freed[r] == s.freed[r] && t.released[r] == s.released[r]
    && (r in t.records <==> r in s.records) && (r in s.records ==> t.records[r] == s.records[r])
    && (r in t.outcome <==> r in s.outcome) && (r in s.outcome ==> t.outcome[r] == s.outcome[r])
  }

  lemma OneCallTouches(s: State, r: nat, found: bool, submitted: bool, q: nat)
    requires r in s.records && q != r
    ensures SameFor(s, AfterOneCall(s, r, found, submitted), q)
  {
  }

  lemma DispatchTouches(s: State, r: nat, up: bool, q: nat)
    requires r in s.records && q != r
    ensures SameFor(s, AfterDispatch(s, r, up), q)
  {
  }

  lemma CompleteTouches(lease: nat, s: State, r: nat, reply: Reply, found: bool, q: nat)
    requires r in s.records && q != r
    ensures SameFor(s, AfterComplete(lease, s, r, reply, found), q)
  {
    hide CompleteSingle, Conclude;
    SingleTouches(s, r, reply, q);
    ConcludeTouches(lease, CompleteSingle(s, r, reply), r, reply, found, q);
  }

  lemma SingleTouches(s: State, r: nat, reply: Reply, q: nat)
    requires r in s.records
    ensures r in CompleteSingle(s, r, reply).records && (q != r ==> SameFor(s, CompleteSingle(s, r, reply), q))
  {
  }

  lemma ConcludeTouches(lease: nat, s: State, r: nat, reply: Reply, found: bool, q: nat)
    requires r in s.records && q != r
    ensures SameFor(s, Conclude(lease, s, r, reply, found), q)
  {
  }

  /** What the freeing of a call leaves of its record. */
  lemma SingleLeaves(s: State, r: nat, reply: Reply)
    requires r in s.records && Completes(s, r, reply)
    ensures var t, c := CompleteSingle(s, r, reply), s.records[r];
      && r in t.records && t.records[r] == c.(replies := c.replies + [Completion(reply, s.now - c.first)])
      && t.released[r] == s.released[r] + 1 && t.now == s.now && t.outcome == s.outcome
      && t.inFlight[r] == s.inFlight[r] - (if reply.NeverSent? then 0 else 1)
      && t.dropped[r] == s.dropped[r] - (if reply.NeverSent? then 1 else 0)
      && t.running == s.running && t.queued == s.queued && t.delayed == s.delayed
      && t.returning == s.returning && t.freed == s.freed
  {
  }

  /** The reply asks for delay, in time, so that the recall goes on. */
  predicate GoesOn(lease: nat, s: State, r: nat, reply: Reply)
    requires r in s.records
  {
    reply == Answered(Delay) && s.now - s.records[r].first <= lease * SEC
  }

  function Concluding(reply: Reply): (outcome: Outcome)
    ensures !outcome.StateGone?
  {
    if reply.NeverSent? || reply == Answered(Accepted) then Acknowledged
    else Returned(if reply == Answered(NoMatchingLayout) then Client else Revoke)
  }

  lemma ConcludeLeaves(lease: nat, s: State, r: nat, reply: Reply, found: bool)
    requires r in s.records
    ensures var t, c := Conclude(lease, s, r, reply, found), s.records[r];
      && r in t.records && t.released == s.released && t.now == s.now && t.inFlight == s.inFlight
      && t.dropped == s.dropped && t.running == s.running && t.queued == s.queued && t.returning == s.returning
      && (if GoesOn(lease, s, r, reply) then
            t.delayed[r] == s.delayed[r] + 1 && t.freed == s.freed && t.outcome == s.outcome
            && t.records[r] == c.(due := s.now + Backoff(c.attempts))
          else
            t.delayed == s.delayed && t.freed[r] == s.freed[r] + 1
            && (if Concluding(reply).Acknowledged? then t.records == s.records && EndedAs(t, r, Acknowledged)
                else t.records[r] == LookedUp(c, found) && EndedAs(t, r, if found then Concluding(reply) else StateGone)))
  {
  }

  /** A step touches one record; the others keep their owner, their data and their outcome. */
  lemma OthersUntouched(lease: nat, s: State, step: Step, t: State, q: nat)
    requires Next(lease, s, step, t) && (step.Tick? || step.r != q)
    ensures SameFor(s, t, q) && s.now <= t.now
  {
    hide AfterOneCall, AfterDispatch, AfterComplete, SameFor;
    ClockKept(lease, s, step, t);
    match step
    case Tick(_) => PassingTouches(lease, s, step, t, q);
    case Create(_) => PassingTouches(lease, s, step, t, q);
    case OneCall(r, found, submitted) => OneCallTouches(s, r, found, submitted, q);
    case Dispatch(r, up) => DispatchTouches(s, r, up, q);
    case Complete(r, reply, found) => CompleteTouches(lease, s, r, reply, found, q);
    case FireCall(_) => PassingTouches(lease, s, step, t, q);
    case FireReturn(_, _) => FireReturnTouches(lease, s, step, t, q);
  }

  lemma PassingTouches(lease: nat, s: State, step: Step, t: State, q: nat)
    requires Next(lease, s, step, t) && (step.Tick? || step.r != q) && (step.Tick? || step.Create? || step.FireCall?)
    ensures SameFor(s, t, q)
  {
    hide AfterOneCall, AfterDispatch, AfterComplete;
  }

  lemma FireReturnTouches(lease: nat, s: State, step: Step, t: State, q: nat)
    requires Next(lease, s, step, t) && step.FireReturn? && step.r != q
    ensures SameFor(s, t, q)
  {
    hide AfterOneCall, AfterDispatch, AfterComplete;
  }

  lemma ClockKept(lease: nat, s: State, step: Step, t: State)
    requires Next(lease, s, step, t)
    ensures s.now <= t.now
  {
  }

  lemma OneCallOwned(s: State, r: nat, found: bool, submitted: bool)
    requires r in s.records && r in s.running && Owned(s, r)
    ensures Owned(AfterOneCall(s, r, found, submitted), r)
  {
  }

  lemma DispatchOwned(s: State, r: nat, up: bool)
    requires r in s.records && r in s.queued && Owned(s, r)
    ensures Owned(AfterDispatch(s, r, up), r)
  {
  }

  lemma CompleteOwned(lease: nat, s: State, r: nat, reply: Reply, found: bool)
    requires r in s.records && Completes(s, r, reply) && Owned(s, r)
    ensures Owned(AfterComplete(lease, s, r, reply, found), r)
  {
    hide CompleteSingle, Conclude, GoesOn, Concluding;
    SingleLeaves(s, r, reply);
    ConcludeLeaves(lease, CompleteSingle(s, r, reply), r, reply, found);
  }

  /** What a step of a call rests on and leads to. */
  lemma StepEnabled(lease: nat, s: State, step: Step, t: State)
    requires Next(lease, s, step, t)
    ensures step.OneCall? ==>
      step.r in s.running && step.r in s.records && t == AfterOneCall(s, step.r, step.found, step.submitted)
    ensures step.Dispatch? ==> step.r in s.queued && step.r in s.records && t == AfterDispatch(s, step.r, step.up)
    ensures step.Complete? ==> step.r in s.records && Completes(s, step.r, step.reply)
    ensures step.Complete? ==> t == AfterComplete(lease, s, step.r, step.reply, step.found)
  {
    hide AfterOneCall, AfterDispatch, AfterComplete, Completes;
  }

  lemma SameOwned(s: State, t: State, q: nat)
    requires Owned(s, q) && SameFor(s, t, q)
    ensures Owned(t, q)
  {
  }

  lemma PassingOwned(lease: nat, s: State, step: Step, t: State, q: nat)
    requires Owned(s, q) && Next(lease, s, step, t)
    requires (step.Create? || step.FireCall? || step.FireReturn?) && step.r == q
    ensures Owned(t, q)
  {
    hide AfterOneCall, AfterDispatch, AfterComplete;
  }

  lemma OwnedNext(lease: nat, s: State, step: Step, t: State, q: nat)
    requires Owned(s, q) && Next(lease, s, step, t)
    ensures Owned(t, q)
  {
    hide *;
    StepEnabled(lease, s, step, t);
    if step.Tick? || step.r != q {
      OthersUntouched(lease, s, step, t, q);
      SameOwned(s, t, q);
    } else {
      match step
      case Create(_) => PassingOwned(lease, s, step, t, q);
      case OneCall(r, found, submitted) => OneCallOwned(s, r, found, submitted);
      case Dispatch(r, up) => DispatchOwned(s, r, up);
      case Complete(r, reply, found) => CompleteOwned(lease, s, r, reply, found);
      case FireCall(_) => PassingOwned(lease, s, step, t, q);
      case FireReturn(_, _) => PassingOwned(lease, s, step, t, q);
    }
  }

  lemma OneCallTimed(lease: nat, s: State, r: nat, found: bool, submitted: bool)
    requires r in s.records && r in s.running && Owned(s, r) && Timed(lease, s, r)
    ensures Timed(lease, AfterOneCall(s, r, found, submitted), r)
  {
  }

  lemma DispatchTimed(lease: nat, s: State, r: nat, up: bool)
    requires r in s.records && r in s.queued && Owned(s, r) && Timed(lease, s, r)
    ensures Timed(lease, AfterDispatch(s, r, up), r)
  {
  }

  lemma CompleteTimed(lease: nat, s: State, r: nat, reply: Reply, found: bool)
    requires r in s.records && Completes(s, r, reply) && Owned(s, r) && Timed(lease, s, r)
    ensures Timed(lease, AfterComplete(lease, s, r, reply, found), r)
  {
    hide CompleteSingle, Conclude, Concluding;
    SingleLeaves(s, r, reply);
    ConcludeLeaves(lease, CompleteSingle(s, r, reply), r, reply, found);
  }

  lemma SameTimed(lease: nat, s: State, t: State, q: nat)
    requires q in s.records ==> Timed(lease, s, q)
    requires SameFor(s, t, q) && s.now <= t.now && q in t.records
    ensures Timed(lease, t, q)
  {
  }

  lemma PassingTimed(lease: nat, s: State, step: Step, t: State, q: nat)
    requires Owned(s, q) && (q in s.records ==> Timed(lease, s, q)) && q in t.records && Next(lease, s, step, t)
    requires (step.Create? || step.FireCall? || step.FireReturn?) && step.r == q
    ensures Timed(lease, t, q)
  {
    hide AfterOneCall, AfterDispatch, AfterComplete;
  }

  lemma TimedNext(lease: nat, s: State, step: Step, t: State, q: nat)
    requires Owned(s, q) && (q in s.records ==> Timed(lease, s, q)) && Next(lease, s, step, t) && q in t.records
    ensures Timed(lease, t, q)
  {
    hide *;
    StepEnabled(lease, s, step, t);
    if step.Tick? || step.r != q {
      OthersUntouched(lease, s, step, t, q);
      SameTimed(lease, s, t, q);
    } else {
      match step
      case Create(_) => PassingTimed(lease, s, step, t, q);
      case OneCall(r, found, submitted) => OneCallTimed(lease, s, r, found, submitted);
      case Dispatch(r, up) => DispatchTimed(lease, s, r, up);
      case Complete(r, reply, found) => CompleteTimed(lease, s, r, reply, found);
      case FireCall(_) => PassingTimed(lease, s, step, t, q);
      case FireReturn(_, _) => PassingTimed(lease, s, step, t, q);
    }
  }

  lemma OneCallTold(lease: nat, s: State, r: nat, found: bool, submitted: bool)
    requires r in s.records && r in s.running && Owned(s, r) && Told(lease, s, r)
    ensures Told(lease, AfterOneCall(s, r, found, submitted), r)
  {
  }

  lemma DispatchTold(lease: nat, s: State, r: nat, up: bool)
    requires r in s.records && r in s.queued && Owned(s, r) && Told(lease, s, r)
    ensures Told(lease, AfterDispatch(s, r, up), r)
  {
  }

  /** One more reply on top of delays is the last. */
  lemma OneMoreReply(lease: nat, h: seq<Completion>, x: Completion)
    requires forall i :: 0 <= i < |h| ==> Asks(lease, h[i])
    ensures var h' := h + [x];
      && (forall i :: 0 <= i < |h'| - 1 ==> Asks(lease, h'[i])) && h'[|h'| - 1] == x && !Lost(h)
      && (Lost(h') <==> x.reply.NeverSent?)
  {
  }

  lemma VerdictOf(lease: nat, h: seq<Completion>, x: Completion)
    requires !Asks(lease, x)
    ensures Verdict(lease, h + [x]) == Concluding(x.reply)
  {
  }

  lemma CompleteTold(lease: nat, s: State, r: nat, reply: Reply, found: bool)
    requires r in s.records && Completes(s, r, reply) && Owned(s, r) && Told(lease, s, r)
    ensures Told(lease, AfterComplete(lease, s, r, reply, found), r)
  {
    hide Lost, Verdict, Concluding, CompleteSingle, Conclude;
    assert r !in s.outcome;
    var c := s.records[r];
    var x := Completion(reply, s.now - c.first);
    OneMoreReply(lease, c.replies, x);
    SingleLeaves(s, r, reply);
    ConcludeLeaves(lease, CompleteSingle(s, r, reply), r, reply, found);
    if !Asks(lease, x) {
      VerdictOf(lease, c.replies, x);
    }
  }

  lemma SameTold(lease: nat, s: State, t: State, q: nat)
    requires q in s.records ==> Told(lease, s, q)
    requires SameFor(s, t, q) && q in t.records
    ensures Told(lease, t, q)
  {
  }

  lemma PassingTold(lease: nat, s: State, step: Step, t: State, q: nat)
    requires Owned(s, q) && (q in s.records ==> Told(lease, s, q)) && q in t.records && Next(lease, s, step, t)
    requires (step.Create? || step.FireCall? || step.FireReturn?) && step.r == q
    ensures Told(lease, t, q)
  {
    hide AfterOneCall, AfterDispatch, AfterComplete;
  }

  lemma ToldNext(lease: nat, s: State, step: Step, t: State, q: nat)
    requires Owned(s, q) && (q in s.records ==> Told(lease, s, q)) && Next(lease, s, step, t) && q in t.records
    ensures Told(lease, t, q)
  {
    hide *;
    StepEnabled(lease, s, step, t);
    if step.Tick? || step.r != q {
      OthersUntouched(lease, s, step, t, q);
      SameTold(lease, s, t, q);
    } else {
      match step
      case Create(_) => PassingTold(lease, s, step, t, q);
      case OneCall(r, found, submitted) => OneCallTold(lease, s, r, found, submitted);
      case Dispatch(r, up) => DispatchTold(lease, s, r, up);
      case Complete(r, reply, found) => CompleteTold(lease, s, r, reply, found);
      case FireCall(_) => PassingTold(lease, s, step, t, q);
      case FireReturn(_, _) => PassingTold(lease, s, step, t, q);
    }
  }

  lemma StepKeepsInv(lease: nat, s: State, step: Step, t: State)
    requires Inv(lease, s) && Next(lease, s, step, t)
    ensures Inv(lease, t)
  {
    hide Next, Owned, Timed, Told;
    forall r
      ensures Owned(t, r)
    {
      OwnedNext(lease, s, step, t, r);
    }
    forall r | r in t.records
      ensures Timed(lease, t, r) && Told(lease, t, r)
    {
      TimedNext(lease, s, step, t, r);
      ToldNext(lease, s, step, t, r);
    }
  }

  lemma {:induction false} RunKeepsInv(lease: nat, run: seq<State>, i: nat)
    requires IsRun(lease, run) && i < |run|
    ensures Inv(lease, run[i])
  {
    hide Next, Inv;
    if i == 0 {
      InitInv(lease, run[0]);
    } else {
      RunKeepsInv(lease, run, i - 1);
      assert StepsAt(lease, run, i - 1);
      var step :| Next(lease, run[i - 1], step, run[i]);
      StepKeepsInv(lease, run[i - 1], step, run[i]);
    }
  }

  /** Each record has exactly one owner, is freed at most once, and has given back one slot per completed call. */
  lemma OneOwner(lease: nat, run: seq<State>, i: nat, r: nat)
    requires IsRun(lease, run) && i < |run| && r in run[i].records
    ensures Owners(run[i], r) == 1
    ensures r in run[i].outcome <==> run[i].freed[r] == 1
    ensures run[i].released[r] == run[i].records[r].attempts - Out(run[i], r)
  {
    hide Next, IsRun;
    RunKeepsInv(lease, run, i);
    assert Owned(run[i], r);
  }

  lemma StepKeepsOutcome(lease: nat, s: State, step: Step, t: State, r: nat)
    requires Owned(s, r) && Next(lease, s, step, t) && r in s.outcome
    ensures r in t.outcome && t.outcome[r] == s.outcome[r]
  {
    hide AfterOneCall, AfterDispatch, AfterComplete;
    if step.Tick? || step.r != r {
      OthersUntouched(lease, s, step, t, r);
    }
  }

  /** How a recall ended is never revised: its record is never freed, returned or acknowledged again. */
  lemma {:induction false} OutcomeIsFinal(lease: nat, run: seq<State>, i: nat, j: nat, r: nat)
    requires IsRun(lease, run) && i <= j < |run| && r in run[i].outcome
    ensures r in run[j].outcome && run[j].outcome[r] == run[i].outcome[r] && run[j].freed[r] == 1
    decreases j
  {
    hide Next;
    RunKeepsInv(lease, run, j);
    assert Owned(run[j], r);
    if i < j {
      OutcomeIsFinal(lease, run, i, j - 1, r);
      RunKeepsInv(lease, run, j - 1);
      assert Owned(run[j - 1], r);
      assert StepsAt(lease, run, j - 1);
      var step :| Next(lease, run[j - 1], step, run[j]);
      StepKeepsOutcome(lease, run[j - 1], step, run[j], r);
    }
  }

  // ------------------------------------------------------------ how often a recall is sent

  /** A recall goes out n times only if n - 2 waits fit in the lease. */
  lemma AttemptsFit(lease: nat, run: seq<State>, i: nat, r: nat)
    requires IsRun(lease, run) && i < |run| && r in run[i].records
    ensures run[i].records[r].attempts > 1 ==> Waited(run[i].records[r].attempts - 2) <= lease * SEC
  {
    hide Next, IsRun;
    RunKeepsInv(lease, run, i);
    assert Timed(lease, run[i], r);
  }

  lemma {:induction false} WaitedGrows(m: nat, n: nat)
    requires m <= n
    ensures Waited(m) <= Waited(n)
    decreases n
  {
    if m < n {
      WaitedGrows(m, n - 1);
    }
  }

  lemma WaitedThrough29()
    ensures Waited(29) == 1105 * MSEC && Waited(28) == 1005 * MSEC
  {
    assert Waited(10) == 15 * MSEC;
    assert Waited(20) == 205 * MSEC;
  }

  lemma {:induction false} WaitedBeyond(n: nat)
    requires n >= 29
    ensures Waited(n) == 1105 * MSEC + (n - 29) * SEC
    decreases n
  {
    if n == 29 {
      WaitedThrough29();
    } else {
      WaitedBeyond(n - 1);
    }
  }

  /** Against any client, with a lease of at least one second, a recall is sent at most lease + 29 times. */
  lemma AttemptsBounded(lease: nat, run: seq<State>, i: nat, r: nat)
    requires lease >= 1 && IsRun(lease, run) && i < |run| && r in run[i].records
    ensures run[i].records[r].attempts <= lease + 29
  {
    hide Next, IsRun;
    var n := run[i].records[r].attempts;
    AttemptsFit(lease, run, i, r);
    if n >= 31 {
      WaitedBeyond(n - 2);
    }
  }

  // ------------------------------------------------------------ runs that get there

  ghost predicate EndsSent(lease: nat, run: seq<State>, n: nat) {
    IsRun(lease, run) && n > 0 && var s := run[|run| - 1];
    0 in s.records && s.records[0].attempts == s.records[0].left == n && s.inFlight == multiset{0}
    && s.running == multiset{} && s.queued == multiset{} && s.delayed == multiset{}
    && s.now == s.records[0].first + Waited(n - 1)
  }

  lemma Extend(lease: nat, run: seq<State>, step: Step, t: State)
    requires IsRun(lease, run) && Next(lease, run[|run| - 1], step, t)
    ensures IsRun(lease, run + [t])
  {
    hide Next;
    var longer := run + [t];
    forall i | 0 <= i < |longer| - 1
      ensures StepsAt(lease, longer, i)
    {
      if i < |run| - 1 {
        assert StepsAt(lease, run, i);
      }
    }
  }

  /** A first call submitted at time zero. */
  lemma FirstSubmit(lease: nat) returns (run: seq<State>)
    ensures IsRun(lease, run) && |run| == 3
    ensures run[2] == Empty(0).(records := map[0 := NEW.(attempts := 1, looked := Found)], queued := multiset{0})
  {
    var s0 := Empty(0);
    var s1 := s0.(records := map[0 := NEW], running := multiset{0});
    var s2 := s0.(records := map[0 := NEW.(attempts := 1, looked := Found)], queued := multiset{0});
    assert s0.records[0 := NEW] == s1.records && s0.running + multiset{0} == s1.running;
    Extend(lease, [s0], Create(0), s1);
    assert s1.running - multiset{0} == multiset{} && s1.queued + multiset{0} == multiset{0};
    assert s1.records[0 := NEW.(attempts := 1, first := 0, looked := Found)] == s2.records;
    assert AfterOneCall(s1, 0, true, true) == s2;
    Extend(lease, [s0] + [s1], OneCall(0, true, true), s2);
    run := [s0] + [s1] + [s2];
  }

  lemma FirstSend(lease: nat) returns (run: seq<State>)
    ensures EndsSent(lease, run, 1)
  {
    run := FirstSubmit(lease);
    var s := run[2];
    var t := AfterDispatch(s, 0, true);
    assert t.queued == multiset{} && t.inFlight == multiset{0};
    Extend(lease, run, Dispatch(0, true), t);
    run := run + [t];
  }

  /** A client that asks for delay at once is called again after exactly the wait. */
  lemma SendAgain(lease: nat, run: seq<State>, n: nat) returns (longer: seq<State>)
    requires EndsSent(lease, run, n) && Waited(n - 1) <= lease * SEC
    ensures EndsSent(lease, longer, n + 1)
  {
    var s := run[|run| - 1];
    var s1 := AfterComplete(lease, s, 0, Answered(Delay), true);
    assert s1.delayed == multiset{0} && s1.inFlight == multiset{};
    var s2 := s1.(now := s1.now + Backoff(n));
    var s3 := s2.(delayed := s2.delayed - multiset{0}, running := s2.running + multiset{0});
    assert s3.running == multiset{0} && s3.delayed == multiset{};
    var s4 := AfterOneCall(s3, 0, true, true);
    assert s4.running == multiset{} && s4.queued == multiset{0};
    var s5 := AfterDispatch(s4, 0, true);
    assert s5.queued == multiset{} && s5.inFlight == multiset{0};
    Extend(lease, run, Complete(0, Answered(Delay), true), s1);
    Extend(lease, run + [s1], Tick(Backoff(n)), s2);
    Extend(lease, run + [s1] + [s2], FireCall(0), s3);
    Extend(lease, run + [s1] + [s2] + [s3], OneCall(0, true, true), s4);
    Extend(lease, run + [s1] + [s2] + [s3] + [s4], Dispatch(0, true), s5);
    longer := run + [s1] + [s2] + [s3] + [s4] + [s5];
  }

  /** The condition of AttemptsFit is exact: if n - 2 waits fit in the lease, some run sends the recall n times. */
  lemma {:induction false} AttemptsReached(lease: nat, n: nat) returns (run: seq<State>)
    requires n > 0 && (n > 1 ==> Waited(n - 2) <= lease * SEC)
    ensures EndsSent(lease, run, n)
    decreases n
  {
    if n == 1 {
      run := FirstSend(lease);
    } else {
      if n > 2 {
        WaitedGrows(n - 3, n - 2);
      }
      run := AttemptsReached(lease, n - 1);
      run := SendAgain(lease, run, n - 1);
    }
  }

  /** With a lease of two seconds or more the bound is met. */
  lemma BoundIsTight(lease: nat) returns (run: seq<State>)
    requires lease >= 2
    ensures EndsSent(lease, run, lease + 29)
  {
    WaitedBeyond(lease + 27);
    run := AttemptsReached(lease, lease + 29);
  }

  // ------------------------------------------------------------ how a recall ends

  function LastReply(h: seq<Completion>): Reply
    requires h != []
  {
    h[|h| - 1].reply
  }

  /** Each completed call has its reply; all but the last asked for delay within the lease, and so did the last while
      the recall is open. */
  lemma RepliesBeforeLast(lease: nat, run: seq<State>, i: nat, r: nat)
    requires IsRun(lease, run) && i < |run| && r in run[i].records
    ensures var h := run[i].records[r].replies;
      && |h| == run[i].records[r].attempts - Out(run[i], r)
      && (forall j :: 0 <= j < |h| - 1 ==> Asks(lease, h[j]))
      && (r !in run[i].outcome ==> forall j :: 0 <= j < |h| ==> Asks(lease, h[j]))
  {
    hide Next, IsRun, Asks;
    RunKeepsInv(lease, run, i);
    assert Owned(run[i], r) && Told(lease, run[i], r);
  }

  /** The last look-up of the state tells a state that is gone from one that was given back. */
  lemma LookupDecides(lease: nat, run: seq<State>, i: nat, r: nat)
    requires IsRun(lease, run) && i < |run| && r in run[i].records && r in run[i].outcome
    ensures EndedAs(run[i], r, StateGone) <==> run[i].records[r].looked.Missing?
    ensures run[i].outcome[r].Returned? <==> run[i].records[r].looked.Found? && !EndedAs(run[i], r, Acknowledged)
  {
    hide Next, IsRun;
    RunKeepsInv(lease, run, i);
    assert Told(lease, run[i], r);
    assert Owned(run[i], r);
  }

  /**
   * The call that begins a recall gives nothing back: the layout is returned later, by the delayed executor, when the
   * first attempt cannot be sent.
   */
  lemma FirstFailureIsDeferred(lease: nat, s: State, r: nat, found: bool, submitted: bool, t: State)
    requires Next(lease, s, OneCall(r, found, submitted), t) && s.records[r].attempts == 0 && r !in s.outcome
    ensures r in t.outcome ==> EndedAs(t, r, StateGone) && !found
    ensures found && !submitted ==> r in t.returning && t.outcome == s.outcome
  {
  }

  /** The last reply decides how the recall ends. */
  lemma LastReplyDecides(lease: nat, run: seq<State>, i: nat, r: nat)
    requires IsRun(lease, run) && i < |run| && r in run[i].records && r in run[i].outcome
    ensures var h := run[i].records[r].replies;
      && (EndedAs(run[i], r, Acknowledged) <==> h != [] && LastReply(h) in {NeverSent, Answered(Accepted)})
      && (EndedAs(run[i], r, Returned(Client)) <==>
          h != [] && LastReply(h) == Answered(NoMatchingLayout) && !EndedAs(run[i], r, StateGone))
      && (EndedAs(run[i], r, Returned(Revoke)) <==>
          (h == [] || LastReply(h) in {Aborted, Answered(OtherError), Answered(Delay)}) && !EndedAs(run[i], r, StateGone))
  {
    hide Next, IsRun;
    RunKeepsInv(lease, run, i);
    assert Told(lease, run[i], r);
  }

  /**
   * An acknowledgement does not mean the client was asked: a call dispatched after its channel lost the client handle
   * completes with a zero status, and the recall ends as acknowledged though no call ever left.
   */
  lemma UnsentAcknowledged(lease: nat) returns (run: seq<State>)
    ensures IsRun(lease, run) && var s := run[|run| - 1];
      0 in s.records && s.records[0].attempts == 1 && s.records[0].left == 0 && EndedAs(s, 0, Acknowledged)
  {
    run := FirstSubmit(lease);
    var s := run[2];
    var t := AfterDispatch(s, 0, false);
    var u := AfterComplete(lease, t, 0, NeverSent, true);
    Extend(lease, run, Dispatch(0, false), t);
    Extend(lease, run + [t], Complete(0, NeverSent, true), u);
    run := run + [t] + [u];
  }

  /** In every run an acknowledged recall was accepted by the client exactly when all of its calls left. */
  lemma AcknowledgedMeansAccepted(lease: nat, run: seq<State>, i: nat, r: nat)
    requires IsRun(lease, run) && i < |run| && r in run[i].records && EndedAs(run[i], r, Acknowledged)
    ensures var c := run[i].records[r];
      && c.replies != [] && c.attempts - 1 <= c.left <= c.attempts
      && (LastReply(c.replies) == Answered(Accepted) <==> c.left == c.attempts)
  {
    hide Next, IsRun;
    RunKeepsInv(lease, run, i);
    assert Owned(run[i], r) && Told(lease, run[i], r);
  }
}
