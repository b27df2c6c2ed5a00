/** Every interleaving of the callbacks of one session: who holds which slot, and which sequence ids go out on it. */
module SlotRuns {
  import opened BackChannel

  datatype Phase = Building | Queued | Transmitted | Dropped

  /** A callback that holds a slot; `sequence` is what its CB_SEQUENCE carries. */
  datatype Call = Call(slot: nat, sequence: nat, phase: Phase)

  /** What became of a call at dispatch: sent, or lost because the channel had no client handle any more. */
  datatype Event = Event(sequence: nat, transmitted: bool)

  /** The slot table, the calls in progress by name, and for each slot the calls dispatched on it so far. */
  datatype State = State(table: Table, calls: map<nat, Call>, log: seq<seq<Event>>)

  datatype Step =
    | Reserve(id: nat, slot: nat)
    | Abandon(id: nat)
    | Submit(id: nat)
    | Dispatch(id: nat, up: bool)
    | Complete(id: nat)

  predicate Shaped(s: State) {
    IsTable(s.table) && |s.log| == NB_SLOTS && forall id :: id in s.calls ==> s.calls[id].slot < NB_SLOTS
  }

  ghost predicate Init(s: State) {
    Shaped(s) && s.calls == map[] && forall k :: 0 <= k < NB_SLOTS ==> !s.table[k].inUse && s.log[k] == []
  }

  /** One critical section, or one dispatch, by any thread. */
  ghost predicate Next(limit: nat, s: State, step: Step, t: State)
    requires limit <= NB_SLOTS
  {
    Shaped(s) && match step
    case Reserve(id, slot) =>
      id !in s.calls && IsLowestFree(s.table, limit, slot)
      && t == State(Reserved(s.table, slot), s.calls[id := Call(slot, Reserved(s.table, slot)[slot].sequence, Building)], s.log)
    case Abandon(id) =>
      id in s.calls && s.calls[id].phase.Building?
      && t == State(Released(s.table, s.calls[id].slot, false), s.calls - {id}, s.log)
    case Submit(id) =>
      id in s.calls && s.calls[id].phase.Building?
      && t == s.(calls := s.calls[id := s.calls[id].(phase := Queued)])
    case Dispatch(id, up) =>
      id in s.calls && s.calls[id].phase.Queued?
      && var c := s.calls[id];
      t == s.(calls := s.calls[id := c.(phase := if up then Transmitted else Dropped)],
              log := s.log[c.slot := s.log[c.slot] + [Event(c.sequence, up)]])
    case Complete(id) =>
      id in s.calls && (s.calls[id].phase.Transmitted? || s.calls[id].phase.Dropped?)
      && t == State(Released(s.table, s.calls[id].slot, true), s.calls - {id}, s.log)
  }

  ghost predicate CanStep(limit: nat, s: State, t: State)
    requires limit <= NB_SLOTS
  {
    exists step :: Next(limit, s, step, t)
  }

  ghost predicate StepsAt(limit: nat, run: seq<State>, i: nat)
    requires limit <= NB_SLOTS && i + 1 < |run|
  {
    CanStep(limit, run[i], run[i + 1])
  }

  ghost predicate IsRun(limit: nat, run: seq<State>)
    requires limit <= NB_SLOTS
  {
    |run| > 0 && Init(run[0]) && forall i :: 0 <= i < |run| - 1 ==> StepsAt(limit, run, i)
  }

  // ------------------------------------------------------------ the invariant

  /** The id of the n-th call dispatched on a slot that started at `origin`. */
  function Nth(origin: nat, n: nat): (r: nat)
    ensures r < WORD
  {
    (origin + n) % WORD
  }

  lemma NthNext(origin: nat, n: nat)
    ensures BackChannel.Next(Nth(origin, n)) == Nth(origin, n + 1)
  {
  }

  predicate Undispatched(c: Call) {
    c.phase.Building? || c.phase.Queued?
  }

  /** A call's slot is marked in use and still shows the call's own id, counted from the log. */
  ghost predicate CallFits(origin: seq<nat>, s: State, c: Call)
    requires Shaped(s) && |origin| == NB_SLOTS && c.slot < NB_SLOTS
  {
    s.table[c.slot].inUse && c.sequence == s.table[c.slot].sequence
    && c.sequence == Nth(origin[c.slot], |s.log[c.slot]| + if Undispatched(c) then 1 else 0)
  }

  ghost predicate SlotFits(origin: seq<nat>, s: State, k: nat)
    requires Shaped(s) && |origin| == NB_SLOTS && k < NB_SLOTS
  {
    if s.table[k].inUse then exists id :: id in s.calls && s.calls[id].slot == k
    else s.table[k].sequence == Nth(origin[k], |s.log[k]|) && forall id :: id in s.calls ==> s.calls[id].slot != k
  }

  /** The calls dispatched on a slot carry consecutive ids, sent or not. */
  ghost predicate LogCounts(origin: nat, log: seq<Event>) {
    forall n :: 0 <= n < |log| ==> log[n].sequence == Nth(origin, n + 1)
  }

  ghost predicate NoSharing(s: State) {
    forall i, j :: i in s.calls && j in s.calls && i != j ==> s.calls[i].slot != s.calls[j].slot
  }

  ghost predicate Inv(origin: seq<nat>, s: State) {
    |origin| == NB_SLOTS && Shaped(s) && NoSharing(s)
    && (forall id :: id in s.calls ==> CallFits(origin, s, s.calls[id]))
    && (forall k :: 0 <= k < NB_SLOTS ==> SlotFits(origin, s, k))
    && (forall k :: 0 <= k < NB_SLOTS ==> LogCounts(origin[k], s.log[k]))
  }

  function Origin(s: State): (r: seq<nat>)
    requires Shaped(s)
    ensures |r| == NB_SLOTS && forall k :: 0 <= k < NB_SLOTS ==> r[k] == s.table[k].sequence
  {
    seq(NB_SLOTS, k requires 0 <= k < NB_SLOTS == |s.table| => s.table[k].sequence)
  }

  lemma InitInv(s: State)
    requires Init(s)
    ensures Inv(Origin(s), s)
  {
  }

  lemma StepKeepsInv(limit: nat, origin: seq<nat>, s: State, step: Step, t: State)
    requires limit <= NB_SLOTS && Inv(origin, s) && Next(limit, s, step, t)
    ensures Inv(origin, t)
  {
    match step
    case Reserve(id, slot) => ReserveKeepsInv(limit, origin, s, id, slot, t);
    case Abandon(id) => AbandonKeepsInv(limit, origin, s, id, t);
    case Submit(id) => SubmitKeepsInv(limit, origin, s, id, t);
    case Dispatch(id, up) => DispatchKeepsInv(limit, origin, s, id, up, t);
    case Complete(id) => CompleteKeepsInv(limit, origin, s, id, t);
  }

  lemma ReserveKeepsInv(limit: nat, origin: seq<nat>, s: State, id: nat, slot: nat, t: State)
    requires limit <= NB_SLOTS && Inv(origin, s) && Next(limit, s, Reserve(id, slot), t)
    ensures Inv(origin, t)
  {
    NthNext(origin[slot], |s.log[slot]|);
    assert SlotFits(origin, s, slot);
    forall j | j in t.calls
      ensures CallFits(origin, t, t.calls[j])
    {
      if j != id {
        assert CallFits(origin, s, s.calls[j]);
      }
    }
    forall k | 0 <= k < NB_SLOTS
      ensures SlotFits(origin, t, k)
    {
      assert SlotFits(origin, s, k);
      if k == slot {
        assert t.calls[id].slot == k;
      } else if s.table[k].inUse {
        var j :| j in s.calls && s.calls[j].slot == k;
        assert t.calls[j].slot == k;
      }
    }
  }

  lemma AbandonKeepsInv(limit: nat, origin: seq<nat>, s: State, id: nat, t: State)
    requires limit <= NB_SLOTS && Inv(origin, s) && Next(limit, s, Abandon(id), t)
    ensures Inv(origin, t)
  {
    var c := s.calls[id];
    assert CallFits(origin, s, c);
    PreviousOfNth(origin[c.slot], |s.log[c.slot]|);
    forall k | 0 <= k < NB_SLOTS
      ensures SlotFits(origin, t, k)
    {
      OthersKeepSlots(origin, s, id, t, k);
    }
  }

  lemma PreviousOfNth(origin: nat, n: nat)
    ensures Previous(Nth(origin, n + 1)) == Nth(origin, n)
  {
    NthNext(origin, n);
    PreviousOfNext(Nth(origin, n));
  }

  /** When a call leaves, only its own slot is affected. */
  lemma OthersKeepSlots(origin: seq<nat>, s: State, id: nat, t: State, k: nat)
    requires Inv(origin, s) && id in s.calls && Shaped(t) && t.calls == s.calls - {id} && t.log == s.log && k < NB_SLOTS
    requires k != s.calls[id].slot ==> t.table[k] == s.table[k]
    requires k == s.calls[id].slot ==> !t.table[k].inUse && t.table[k].sequence == Nth(origin[k], |s.log[k]|)
    ensures SlotFits(origin, t, k)
  {
    assert SlotFits(origin, s, k);
    if k != s.calls[id].slot && s.table[k].inUse {
      var j :| j in s.calls && s.calls[j].slot == k;
      assert t.calls[j].slot == k;
    }
  }

  lemma SubmitKeepsInv(limit: nat, origin: seq<nat>, s: State, id: nat, t: State)
    requires limit <= NB_SLOTS && Inv(origin, s) && Next(limit, s, Submit(id), t)
    ensures Inv(origin, t)
  {
    SameSlots(origin, s, id, t);
  }

  /** A call that only changes its phase still holds its slot. */
  lemma SameSlots(origin: seq<nat>, s: State, id: nat, t: State)
    requires Inv(origin, s) && id in s.calls && Shaped(t) && t.table == s.table && t.calls.Keys == s.calls.Keys
    requires forall j :: j in s.calls ==> t.calls[j].slot == s.calls[j].slot
    requires forall k :: 0 <= k < NB_SLOTS && k != s.calls[id].slot ==> t.log[k] == s.log[k]
    ensures forall k :: 0 <= k < NB_SLOTS ==> SlotFits(origin, t, k)
  {
    forall k | 0 <= k < NB_SLOTS
      ensures SlotFits(origin, t, k)
    {
      assert SlotFits(origin, s, k);
      assert CallFits(origin, s, s.calls[id]);
      if s.table[k].inUse {
        var j :| j in s.calls && s.calls[j].slot == k;
        assert t.calls[j].slot == k;
      }
    }
  }

  lemma DispatchFits(limit: nat, origin: seq<nat>, s: State, id: nat, up: bool, t: State, j: nat)
    requires limit <= NB_SLOTS && Inv(origin, s) && Next(limit, s, Dispatch(id, up), t) && j in t.calls
    ensures Shaped(t) && t.calls[j].slot < NB_SLOTS && CallFits(origin, t, t.calls[j])
  {
    hide SlotFits, LogCounts;
    assert CallFits(origin, s, s.calls[id]);
    assert CallFits(origin, s, s.calls[j]);
  }

  lemma DispatchCounts(limit: nat, origin: seq<nat>, s: State, id: nat, up: bool, t: State, k: nat)
    requires limit <= NB_SLOTS && Inv(origin, s) && Next(limit, s, Dispatch(id, up), t) && k < NB_SLOTS
    ensures |t.log| == NB_SLOTS && LogCounts(origin[k], t.log[k])
  {
    hide SlotFits;
    assert CallFits(origin, s, s.calls[id]);
    assert LogCounts(origin[k], s.log[k]);
  }

  lemma DispatchKeepsInv(limit: nat, origin: seq<nat>, s: State, id: nat, up: bool, t: State)
    requires limit <= NB_SLOTS && Inv(origin, s) && Next(limit, s, Dispatch(id, up), t)
    ensures Inv(origin, t)
  {
    hide SlotFits, CallFits, LogCounts;
    SameSlots(origin, s, id, t);
    forall j | j in t.calls
      ensures CallFits(origin, t, t.calls[j])
    {
      DispatchFits(limit, origin, s, id, up, t, j);
    }
    forall k | 0 <= k < NB_SLOTS
      ensures LogCounts(origin[k], t.log[k])
    {
      DispatchCounts(limit, origin, s, id, up, t, k);
    }
  }

  lemma CompleteKeepsInv(limit: nat, origin: seq<nat>, s: State, id: nat, t: State)
    requires limit <= NB_SLOTS && Inv(origin, s) && Next(limit, s, Complete(id), t)
    ensures Inv(origin, t)
  {
    assert CallFits(origin, s, s.calls[id]);
    forall k | 0 <= k < NB_SLOTS
      ensures SlotFits(origin, t, k)
    {
      OthersKeepSlots(origin, s, id, t, k);
    }
  }

  // ------------------------------------------------------------ whole runs

  lemma {:induction false} RunKeepsInv(limit: nat, run: seq<State>, i: nat)
    requires limit <= NB_SLOTS && IsRun(limit, run) && i < |run|
    ensures Inv(Origin(run[0]), run[i])
  {
    hide Next, Inv;
    if i == 0 {
      InitInv(run[0]);
    } else {
      RunKeepsInv(limit, run, i - 1);
      assert StepsAt(limit, run, i - 1);
      var step :| Next(limit, run[i - 1], step, run[i]);
      StepKeepsInv(limit, Origin(run[0]), run[i - 1], step, run[i]);
    }
  }

  /** No slot ever carries two calls, and a slot is marked in use exactly while some call holds it. */
  lemma OneCallPerSlot(limit: nat, run: seq<State>, i: nat)
    requires limit <= NB_SLOTS && IsRun(limit, run) && i < |run|
    ensures NoSharing(run[i]) && Shaped(run[i])
    ensures forall k :: 0 <= k < NB_SLOTS ==>
      (run[i].table[k].inUse <==> exists id :: id in run[i].calls && run[i].calls[id].slot == k)
  {
    RunKeepsInv(limit, run, i);
    var origin, s := Origin(run[0]), run[i];
    forall k | 0 <= k < NB_SLOTS
      ensures s.table[k].inUse <==> exists id :: id in s.calls && s.calls[id].slot == k
    {
      assert SlotFits(origin, s, k);
    }
  }

  /** Two calls sent on a slot with only lost ones between them. */
  ghost predicate SentInARow(log: seq<Event>, m: int, n: int) {
    0 <= m < n < |log| && log[m].transmitted && log[n].transmitted
    && forall j :: m < j < n ==> !log[j].transmitted
  }

  /**
   * Reservations that failed leave no gap: two calls sent one after the other on a slot differ by one, plus one for
   * each call between them that was dispatched but never sent, in 32-bit arithmetic.
   */
  lemma SequenceAdvances(limit: nat, run: seq<State>, i: nat, k: nat, m: nat, n: nat)
    requires limit <= NB_SLOTS && IsRun(limit, run) && i < |run| && k < |run[i].log|
    requires SentInARow(run[i].log[k], m, n)
    ensures run[i].log[k][n].sequence == (run[i].log[k][m].sequence + 1 + (n - m - 1)) % WORD
    ensures run[i].log[k][n].sequence == BackChannel.Next(run[i].log[k][m].sequence) <==> (n - m - 1) % WORD == 0
  {
    hide Next, SlotFits, CallFits, NoSharing;
    RunKeepsInv(limit, run, i);
    LogAdvances(Origin(run[0])[k], run[i].log[k], m, n);
  }

  lemma LogAdvances(origin: nat, log: seq<Event>, m: nat, n: nat)
    requires LogCounts(origin, log) && m < n < |log|
    ensures log[n].sequence == (log[m].sequence + 1 + (n - m - 1)) % WORD
    ensures log[n].sequence == BackChannel.Next(log[m].sequence) <==> (n - m - 1) % WORD == 0
  {
    NthAdvances(origin, m + 1, n - m);
  }

  lemma NthAdvances(origin: nat, n: nat, d: nat)
    requires d > 0
    ensures Nth(origin, n + d) == (Nth(origin, n) + d) % WORD
    ensures (Nth(origin, n) + d) % WORD == (Nth(origin, n) + 1) % WORD <==> (d - 1) % WORD == 0
  {
    AddMod(origin + n, d);
    SameMod(Nth(origin, n) + 1, d - 1);
  }

  lemma AddMod(x: nat, d: nat)
    ensures (x + d) % WORD == (x % WORD + d) % WORD
  {
  }

  lemma SameMod(x: nat, d: nat)
    ensures (x + d) % WORD == x % WORD <==> d % WORD == 0
  {
    AddMod(x, d);
    AddMod(d, x);
  }

  // ------------------------------------------------------------ a gap

  function Fresh(): (s: State)
    ensures Init(s)
  {
    State(seq(NB_SLOTS, _ => Slot(false, 0)), map[], seq(NB_SLOTS, _ => []))
  }

  /** Five steps of one call on slot 0. */
  lemma OneCall(s: State, id: nat, up: bool) returns (run: seq<State>)
    requires Shaped(s) && s.calls == map[] && !s.table[0].inUse
    ensures |run| == 5 && run[0] == s && forall i :: 0 <= i < 4 ==> StepsAt(1, run, i)
    ensures Shaped(run[4]) && run[4].calls == map[] && !run[4].table[0].inUse
    ensures run[4].table[0].sequence == BackChannel.Next(s.table[0].sequence)
    ensures run[4].log == s.log[0 := s.log[0] + [Event(BackChannel.Next(s.table[0].sequence), up)]]
  {
    var q := BackChannel.Next(s.table[0].sequence);
    var s1 := State(Reserved(s.table, 0), map[id := Call(0, q, Building)], s.log);
    var s2 := s1.(calls := map[id := Call(0, q, Queued)]);
    var s3 := s2.(calls := map[id := Call(0, q, if up then Transmitted else Dropped)],
                  log := s.log[0 := s.log[0] + [Event(q, up)]]);
    var s4 := State(Released(s3.table, 0, true), map[], s3.log);
    run := [s, s1, s2, s3, s4];
    assert s.calls[id := Call(0, q, Building)] == s1.calls;
    assert Next(1, s, Reserve(id, 0), s1);
    assert s1.calls[id := Call(0, q, Queued)] == s2.calls;
    assert Next(1, s1, Submit(id), s2);
    assert s2.calls[id := Call(0, q, if up then Transmitted else Dropped)] == s3.calls;
    assert Next(1, s2, Dispatch(id, up), s3);
    assert s3.calls - {id} == s4.calls;
    assert Next(1, s3, Complete(id), s4);
    assert StepsAt(1, run, 0) && StepsAt(1, run, 1) && StepsAt(1, run, 2) && StepsAt(1, run, 3);
  }

  /** Ids need not be consecutive: a call dispatched after the channel lost its client is never sent, yet keeps its id. */
  lemma LostCallLeavesGap() returns (run: seq<State>)
    ensures IsRun(1, run) && |run| == 13 && |run[12].log| == NB_SLOTS
    ensures run[12].log[0] == [Event(1, true), Event(2, false), Event(3, true)]
    ensures SentInARow(run[12].log[0], 0, 2)
  {
    var a := OneCall(Fresh(), 0, true);
    var b := OneCall(a[4], 0, false);
    var c := OneCall(b[4], 0, true);
    run := a + b[1..] + c[1..];
    forall i | 0 <= i < |run| - 1
      ensures StepsAt(1, run, i)
    {
      if i < 4 {
        assert StepsAt(1, a, i) && run[i] == a[i] && run[i + 1] == a[i + 1];
      } else if i < 8 {
        assert StepsAt(1, b, i - 4) && run[i] == b[i - 4] && run[i + 1] == b[i - 3];
      } else {
        assert StepsAt(1, c, i - 8) && run[i] == c[i - 8] && run[i + 1] == c[i - 7];
      }
    }
  }
}
