/**
 * The NFSv4.1 back channel: callback slots and their sequence ids (sections 2.10.6.1 and 20.9 of RFC 5661), and
 * sending one callback over whichever session of a client can take it.
 */
module BackChannel {

  const NB_SLOTS := 64
  const WORD := 0x1_0000_0000

  /** A callback slot; the sequence id is a 32-bit counter that wraps. */
  datatype Slot = Slot(inUse: bool, sequence: nat)

  type Table = seq<Slot>

  predicate IsTable(t: Table) {
    |t| == NB_SLOTS && forall s :: 0 <= s < NB_SLOTS ==> t[s].sequence < WORD
  }

  function Next(sequence: nat): (r: nat)
    ensures r < WORD
  {
    (sequence + 1) % WORD
  }

  function Previous(sequence: nat): (r: nat)
    ensures r < WORD
    ensures sequence < WORD ==> Next(r) == sequence
  {
    (sequence + WORD - 1) % WORD
  }

  function Limit(maxRequests: nat): (r: nat)
    ensures r <= NB_SLOTS && r <= maxRequests && (r == NB_SLOTS || r == maxRequests)
  {
    if maxRequests < NB_SLOTS then maxRequests else NB_SLOTS
  }

  ghost predicate IsLowestFree(t: Table, limit: nat, slot: nat)
    requires IsTable(t) && limit <= NB_SLOTS
  {
    slot < limit && !t[slot].inUse && forall s :: 0 <= s < slot ==> t[s].inUse
  }

  ghost predicate NoneFree(t: Table, limit: nat)
    requires IsTable(t) && limit <= NB_SLOTS
  {
    forall s :: 0 <= s < limit ==> t[s].inUse
  }

  ghost predicate IsHighestInUse(t: Table, limit: nat, slot: nat)
    requires IsTable(t) && limit <= NB_SLOTS
  {
    slot < limit && t[slot].inUse && forall s :: slot < s < limit ==> !t[s].inUse
  }

  /** The slot is free, there is such a slot, and the client accepts so many requests. */
  ghost predicate FreeFor(maxRequests: nat, t: Table, s: int) {
    0 <= s < |t| && s < NB_SLOTS && s < maxRequests && !t[s].inUse
  }

  ghost predicate SomeFreeFor(maxRequests: nat, t: Table) {
    exists s :: FreeFor(maxRequests, t, s)
  }

  /** The table once a slot is taken for a new call. */
  function Reserved(t: Table, slot: nat): (r: Table)
    requires IsTable(t) && slot < NB_SLOTS
    ensures IsTable(r)
  {
    t[slot := Slot(true, Next(t[slot].sequence))]
  }

  /** The table once a slot is given back; a call never sent gives back its sequence id too. */
  function Released(t: Table, slot: nat, sent: bool): (r: Table)
    requires IsTable(t) && slot < NB_SLOTS
    ensures IsTable(r)
  {
    t[slot := Slot(false, if sent then t[slot].sequence else Previous(t[slot].sequence))]
  }

  /** The lowest free slot of `base` was taken, and nothing else changed. */
  ghost predicate TakenFrom(base: Table, limit: nat, slot: nat, t: Table)
    requires IsTable(base) && limit <= NB_SLOTS
  {
    IsLowestFree(base, limit, slot) && t == Reserved(base, slot)
  }

  /** No slot is free, nor does waiting, if allowed, help: it times out, or others leave none free. */
  ghost predicate Exhausted(t: Table, limit: nat, wait: bool, env: Table, woke: bool)
    requires IsTable(t) && IsTable(env) && limit <= NB_SLOTS
  {
    NoneFree(t, limit) && (wait && woke ==> NoneFree(env, limit))
  }

  /** Giving back an unsent reservation undoes it. */
  lemma ReleaseUndoesReserve(t: Table, slot: nat)
    requires IsTable(t) && slot < NB_SLOTS && !t[slot].inUse
    ensures Released(Reserved(t, slot), slot, false) == t
  {
    PreviousOfNext(t[slot].sequence);
  }

  lemma PreviousOfNext(x: nat)
    requires x < WORD
    ensures Previous(Next(x)) == x
  {
  }

  class Session {
    const maxRequests: nat
    const cbSlots: array<Slot>
    var bcUp: bool

    ghost predicate Valid()
      reads cbSlots
    {
      IsTable(cbSlots[..])
    }

    constructor (maxRequests: nat)
      ensures Valid() && fresh(cbSlots) && this.maxRequests == maxRequests && !bcUp
      ensures forall s :: 0 <= s < NB_SLOTS ==> cbSlots[..][s] == Slot(false, 0)
    {
      this.maxRequests := maxRequests;
      cbSlots := new Slot[NB_SLOTS](_ => Slot(false, 0));
      bcUp := false;
    }

    /** One pass over the table: the lowest free slot, and the highest slot in use counting that one. */
    method ScanSlots() returns (found: bool, slot: nat, highest: nat)
      requires Valid()
      ensures found ==> IsLowestFree(cbSlots[..], Limit(maxRequests), slot)
      ensures found ==> IsHighestInUse(Reserved(cbSlots[..], slot), Limit(maxRequests), highest)
      ensures !found ==> NoneFree(cbSlots[..], Limit(maxRequests))
      ensures found <==> SomeFreeFor(maxRequests, cbSlots[..])
    {
      found, slot, highest := false, 0, 0;
      var limit := Limit(maxRequests);
      for cur := 0 to limit
        invariant !found ==> forall s :: 0 <= s < cur ==> cbSlots[s].inUse
        invariant found ==> slot < cur && !cbSlots[slot].inUse && forall s :: 0 <= s < slot ==> cbSlots[s].inUse
        invariant found ==> slot <= highest < cur && (highest == slot || cbSlots[highest].inUse)
        invariant found ==> forall s :: highest < s < cur ==> !cbSlots[s].inUse
      {
        if !cbSlots[cur].inUse && !found {
          found, slot, highest := true, cur, cur;
        }
        if cbSlots[cur].inUse {
          highest := cur;
        }
      }
      if found {
        assert FreeFor(maxRequests, cbSlots[..], slot);
      }
    }

    /** Waiting lets go of the table: `env` is what the other threads make of it before the wait ends. */
    method AwaitSlot(env: Table)
      requires Valid() && IsTable(env)
      modifies cbSlots
      ensures cbSlots[..] == env
    {
      for i := 0 to NB_SLOTS
        invariant cbSlots[..i] == env[..i]
      {
        cbSlots[i] := env[i];
      }
      assert cbSlots[..] == cbSlots[..NB_SLOTS] == env;
    }

    /**
     * Takes the lowest free slot, waiting once for one to come free if told to. If it does wait, the other threads leave
     * the table `env`, and `woke` says whether the wait was ended before its time was up.
     */
    method FindCbSlot(wait: bool, env: Table, woke: bool) returns (found: bool, slot: nat, highest: nat, ghost waited: bool)
      requires Valid() && IsTable(env)
      modifies cbSlots
      ensures Valid()
      ensures waited <==> wait && NoneFree(old(cbSlots[..]), Limit(maxRequests))
      ensures found ==> TakenFrom(if waited then env else old(cbSlots[..]), Limit(maxRequests), slot, cbSlots[..])
      ensures found ==> IsHighestInUse(cbSlots[..], Limit(maxRequests), highest)
      ensures !found ==> cbSlots[..] == if waited then env else old(cbSlots[..])
      ensures !found <==> Exhausted(old(cbSlots[..]), Limit(maxRequests), wait, env, woke)
      ensures found <==>
        SomeFreeFor(maxRequests, old(cbSlots[..])) || (wait && woke && SomeFreeFor(maxRequests, env))
      ensures found ==> var base := if SomeFreeFor(maxRequests, old(cbSlots[..])) then old(cbSlots[..]) else env;
        FreeFor(maxRequests, base, slot) && forall s :: s < slot ==> !FreeFor(maxRequests, base, s)
      ensures found ==> highest < maxRequests && highest < NB_SLOTS && cbSlots[..][highest].inUse
      ensures found ==> forall s :: highest < s < maxRequests && s < NB_SLOTS ==> !cbSlots[..][s].inUse
    {
      found, slot, highest := ScanSlots();
      waited := !found && wait;
      if !found && wait {
        AwaitSlot(env);
        if woke {
          found, slot, highest := ScanSlots();
        }
      }
      if found {
        cbSlots[slot] := Slot(true, Next(cbSlots[slot].sequence));
        assert slot < maxRequests;
      }
    }

    method ReleaseCbSlot(slot: nat, sent: bool)
      requires Valid() && slot < NB_SLOTS
      modifies cbSlots
      ensures Valid() && cbSlots[..] == Released(old(cbSlots[..]), slot, sent)
    {
      var sequence := cbSlots[slot].sequence;
      if !sent {
        sequence := Previous(sequence);
      }
      cbSlots[slot] := Slot(false, sequence);
    }
  }

  // ------------------------------------------------------------ sending one callback

  datatype Attempt = Sent | PassedOver | NoMemory

  datatype Code = Ok | Einval | Enomem | Enotconn

  /** Building the call may fail for want of memory. */
  method ConstructSingleCall() returns (built: bool) {
    built := *;
  }

  method SubmitCall() returns (accepted: bool) {
    accepted := *;
  }

  /** One session is tried: a slot is taken only if the call goes out. */
  method TrySession(session: Session, wait: bool, env: Table, woke: bool)
    returns (attempt: Attempt, slot: nat, ghost waited: bool)
    requires session.Valid() && IsTable(env)
    modifies session, session.cbSlots
    ensures session.Valid()
    ensures waited <==> old(session.bcUp) && wait && NoneFree(old(session.cbSlots[..]), Limit(session.maxRequests))
    ensures attempt.Sent? ==> TakenFrom(if waited then env else old(session.cbSlots[..]),
                                        Limit(session.maxRequests), slot, session.cbSlots[..])
    ensures !attempt.Sent? ==> session.cbSlots[..] == if waited then env else old(session.cbSlots[..])
    ensures !attempt.PassedOver? ==> session.bcUp
    ensures session.bcUp ==> old(session.bcUp)
    ensures old(session.bcUp) && Exhausted(old(session.cbSlots[..]), Limit(session.maxRequests), wait, env, woke) ==>
      session.bcUp && attempt.PassedOver?
    ensures attempt.PassedOver? && session.bcUp ==>
      Exhausted(old(session.cbSlots[..]), Limit(session.maxRequests), wait, env, woke)
  {
    slot, waited := 0, false;
    if !session.bcUp {
      return PassedOver, slot, waited;
    }
    ghost var before := session.cbSlots[..];
    var found, highest;
    found, slot, highest, waited := session.FindCbSlot(wait, env, woke);
    if !found {
      return PassedOver, slot, waited;
    }
    ReleaseUndoesReserve(if waited then env else before, slot);
    var built := ConstructSingleCall();
    if !built {
      session.ReleaseCbSlot(slot, false);
      return NoMemory, slot, waited;
    }
    var accepted := SubmitCall();
    if !accepted {
      session.ReleaseCbSlot(slot, false);
      session.bcUp := false;
      return PassedOver, slot, waited;
    }
    return Sent, slot, waited;
  }

  // ------------------------------------------------------------ over all sessions of a client

  ghost predicate Apart(sessions: seq<Session>) {
    forall i, j :: 0 <= i < j < |sessions| ==> sessions[i] != sessions[j] && sessions[i].cbSlots != sessions[j].cbSlots
  }

  ghost predicate AllValid(sessions: seq<Session>)
    reads set s | s in sessions :: s.cbSlots
  {
    forall i :: 0 <= i < |sessions| ==> sessions[i].Valid()
  }

  ghost predicate AreTables(tables: seq<Table>) {
    forall i :: 0 <= i < |tables| ==> IsTable(tables[i])
  }

  /** The slot tables, session by session. */
  ghost function Tables(sessions: seq<Session>): (r: seq<Table>)
    reads set s | s in sessions :: s.cbSlots
    ensures |r| == |sessions| && forall i :: 0 <= i < |sessions| ==> r[i] == sessions[i].cbSlots[..]
  {
    if sessions == [] then [] else [sessions[0].cbSlots[..]] + Tables(sessions[1..])
  }

  ghost function Ups(sessions: seq<Session>): (r: seq<bool>)
    reads sessions
    ensures |r| == |sessions| && forall i :: 0 <= i < |sessions| ==> r[i] == sessions[i].bcUp
  {
    if sessions == [] then [] else [sessions[0].bcUp] + Ups(sessions[1..])
  }

  /** How many slots each session may use. */
  ghost function Limits(sessions: seq<Session>): (r: seq<nat>)
    ensures |r| == |sessions| && forall i :: 0 <= i < |sessions| ==> r[i] == Limit(sessions[i].maxRequests)
  {
    seq(|sessions|, i requires 0 <= i < |sessions| => Limit(sessions[i].maxRequests))
  }

  /** What is known of the client's sessions when the callback is to be sent, and what befalls a thread that waits. */
  datatype Client = Client(limits: seq<nat>, ups: seq<bool>, tables: seq<Table>, env: seq<Table>, woke: seq<bool>) {

    ghost predicate Valid() {
      |limits| == |ups| == |tables| == |env| == |woke| && AreTables(tables) && AreTables(env)
      && forall i :: 0 <= i < |limits| ==> limits[i] <= NB_SLOTS
    }

    /** The session was up and had no slot free, so that a second pass that reaches it waits on it. */
    ghost predicate Full(i: nat)
      requires Valid() && i < |limits|
    {
      ups[i] && NoneFree(tables[i], limits[i])
    }

    /** The tables, with what the other threads did to those this thread waited on. */
    ghost function Base(waited: set<nat>): (r: seq<Table>)
      requires Valid()
      ensures |r| == |tables| && AreTables(r)
      ensures forall i :: 0 <= i < |r| ==> r[i] == if i in waited then env[i] else tables[i]
    {
      seq(|tables|, i requires 0 <= i < |tables| => if i in waited then env[i] else tables[i])
    }

    /** One slot of session k, the lowest free one, was taken on top of `base`; no other table differs. */
    ghost predicate OneReserved(now: seq<Table>, base: seq<Table>, k: int, slot: nat)
      requires Valid() && |base| == |limits| && AreTables(base)
    {
      0 <= k < |base| && |now| == |base| && now == base[k := now[k]] && TakenFrom(base[k], limits[k], slot, now[k])
    }

    /** The sessions waited on are the full ones among the first n. */
    ghost predicate WaitedUpTo(n: nat, waited: set<nat>)
      requires Valid() && n <= |limits|
    {
      forall i: nat :: i in waited <==> i < n && Full(i)
    }

    /** Waiting on the session did not help, or its back channel went down. */
    ghost predicate NoHelp(i: nat, up: bool)
      requires Valid() && i < |limits|
    {
      up ==> Exhausted(tables[i], limits[i], true, env[i], woke[i])
    }

    /** Where the first pass stands: the first n sessions were tried, and those still up, by `now`, are full. */
    ghost predicate FirstPass(now: seq<bool>, n: nat)
      requires Valid() && |now| == |limits| && n <= |limits|
    {
      (forall i :: 0 <= i < |now| && now[i] ==> ups[i])
      && (forall i :: 0 <= i < |now| && Full(i) ==> now[i])
      && forall i :: 0 <= i < n && now[i] ==> Full(i)
    }

    /** Where the second pass stands: the full ones of the first n sessions were waited on, without help. */
    ghost predicate SecondPass(now: seq<bool>, n: nat, waited: set<nat>)
      requires Valid() && |now| == |limits| && n <= |limits|
    {
      (forall i :: 0 <= i < |now| && now[i] ==> Full(i))
      && (forall i :: n <= i < |now| && Full(i) ==> now[i])
      && (forall i :: 0 <= i < n ==> NoHelp(i, now[i]))
      && WaitedUpTo(n, waited)
    }

    ghost predicate Reached(wait: bool, now: seq<bool>, n: nat, waited: set<nat>)
      requires Valid() && |now| == |limits| && n <= |limits|
    {
      if wait then SecondPass(now, n, waited) else waited == {} && FirstPass(now, n)
    }

    /** What trying session n comes to. */
    ghost predicate Tried(wait: bool, up: bool, n: nat, attempt: Attempt, slot: nat, here: bool, up': bool, table: Table)
      requires Valid() && n < |limits|
    {
      var base := if here then env[n] else tables[n];
      && (here <==> up && wait && NoneFree(tables[n], limits[n]))
      && (if attempt.Sent? then TakenFrom(base, limits[n], slot, table) else table == base)
      && (attempt.PassedOver? || up')
      && (up' ==> up)
      && (up && Exhausted(tables[n], limits[n], wait, env[n], woke[n]) ==> up')
      && (attempt.PassedOver? && up' ==> Exhausted(tables[n], limits[n], wait, env[n], woke[n]))
    }

    lemma TriedNow(now: seq<bool>, n: nat, attempt: Attempt, slot: nat, here: bool, up': bool, table: Table)
      requires Valid() && |now| == |limits| && n < |limits| && FirstPass(now, n)
      requires Tried(false, now[n], n, attempt, slot, here, up', table)
      ensures !here
      ensures attempt.PassedOver? ==> FirstPass(now[n := up'], n + 1)
    {
    }

    lemma TriedAgain(now: seq<bool>, n: nat, waited: set<nat>, attempt: Attempt, slot: nat, here: bool, up': bool, table: Table)
      requires Valid() && |now| == |limits| && n < |limits| && SecondPass(now, n, waited)
      requires Tried(true, now[n], n, attempt, slot, here, up', table)
      ensures WaitedUpTo(n + 1, if here then waited + {n} else waited)
      ensures attempt.PassedOver? ==> SecondPass(now[n := up'], n + 1, if here then waited + {n} else waited)
    {
    }

    lemma ReachedStep(wait: bool, now: seq<bool>, n: nat, waited: set<nat>, attempt: Attempt, slot: nat, here: bool,
                      up': bool, table: Table)
      requires Valid() && |now| == |limits| && n < |limits| && Reached(wait, now, n, waited)
      requires Tried(wait, now[n], n, attempt, slot, here, up', table)
      ensures var waited' := if here then waited + {n} else waited;
        && (waited' == {} || WaitedUpTo(n + 1, waited'))
        && (attempt.PassedOver? ==> Reached(wait, now[n := up'], n + 1, waited'))
      ensures (attempt.PassedOver? || up') && (up' ==> now[n])
    {
      hide FirstPass, SecondPass, WaitedUpTo, NoneFree, TakenFrom, Exhausted;
      if wait {
        TriedAgain(now, n, waited, attempt, slot, here, up', table);
      } else {
        TriedNow(now, n, attempt, slot, here, up', table);
      }
    }

    lemma TablesStep(wait: bool, now: seq<bool>, n: nat, waited: set<nat>, attempt: Attempt, slot: nat, here: bool,
                     up': bool, table: Table)
      requires Valid() && |now| == |limits| && n < |limits| && Reached(wait, now, n, waited)
      requires Tried(wait, now[n], n, attempt, slot, here, up', table)
      ensures var waited' := if here then waited + {n} else waited;
        var tables' := Base(waited)[n := table];
        if attempt.Sent? then OneReserved(tables', Base(waited'), n, slot) else tables' == Base(waited')
    {
      hide TakenFrom, NoneFree, Exhausted;
      assert n !in waited;
    }

    /** Before session n is tried, its table is as it was. */
    lemma Untried(wait: bool, now: seq<bool>, n: nat, waited: set<nat>)
      requires Valid() && |now| == |limits| && n < |limits| && Reached(wait, now, n, waited)
      ensures Base(waited)[n] == tables[n]
    {
    }

    lemma UpsOnlyFall(wait: bool, now: seq<bool>, n: nat, waited: set<nat>)
      requires Valid() && |now| == |limits| && n <= |limits| && Reached(wait, now, n, waited)
      ensures forall i :: 0 <= i < |now| && now[i] ==> ups[i]
    {
    }

    /** A whole first pass leaves the second to begin; a whole second pass ends. */
    lemma PassEnds(wait: bool, now: seq<bool>, waited: set<nat>)
      requires Valid() && |now| == |limits| && Reached(wait, now, |limits|, waited)
      ensures Reached(true, now, if wait then |limits| else 0, waited)
    {
    }

    lemma AtStart()
      requires Valid()
      ensures Reached(false, ups, 0, {}) && Base({}) == tables
    {
    }

    lemma AtEnd(now: seq<bool>, waited: set<nat>)
      requires Valid() && |now| == |limits| && Reached(true, now, |limits|, waited)
      ensures WaitedUpTo(|limits|, waited) && forall i :: 0 <= i < |now| ==> NoHelp(i, now[i])
    {
    }
  }

  ghost predicate Matches(sessions: seq<Session>, c: Client)
    ensures Matches(sessions, c) ==> c.Valid() && |c.limits| == |sessions|
  {
    c.Valid() && c.limits == Limits(sessions)
  }

  /** One session is tried; the others are as they were. */
  method TryAt(sessions: seq<Session>, i: nat, wait: bool, env: Table, woke: bool, ghost c: Client)
    returns (attempt: Attempt, slot: nat, ghost here: bool)
    requires Apart(sessions) && AllValid(sessions) && i < |sessions| && Matches(sessions, c)
    requires c.tables[i] == sessions[i].cbSlots[..] && c.env[i] == env && c.woke[i] == woke
    modifies sessions[i], sessions[i].cbSlots
    ensures AllValid(sessions)
    ensures Ups(sessions) == old(Ups(sessions))[i := sessions[i].bcUp]
    ensures Tables(sessions) == old(Tables(sessions))[i := sessions[i].cbSlots[..]]
    ensures c.Tried(wait, old(sessions[i].bcUp), i, attempt, slot, here, sessions[i].bcUp, sessions[i].cbSlots[..])
  {
    hide Ups, Tables, NoneFree, TakenFrom, Exhausted, Limit, IsTable, Limits;
    attempt, slot, here := TrySession(sessions[i], wait, env, woke);
  }

  /** The tables are what waiting left of them, and the pass has come to session n. */
  ghost predicate Stands(sessions: seq<Session>, c: Client, wait: bool, n: nat, waited: set<nat>)
    reads sessions, set s | s in sessions :: s.cbSlots
  {
    AllValid(sessions) && Matches(sessions, c) && n <= |sessions|
    && Tables(sessions) == c.Base(waited) && c.Reached(wait, Ups(sessions), n, waited)
  }

  /** The pass stops at session k: a slot of its was taken, or no slot at all. */
  ghost predicate Stops(sessions: seq<Session>, c: Client, sent: bool, k: int, slot: nat, waited: set<nat>)
    reads sessions, set s | s in sessions :: s.cbSlots
  {
    AllValid(sessions) && Matches(sessions, c) && 0 <= k < |sessions| && sessions[k].bcUp
    && (if sent then c.OneReserved(Tables(sessions), c.Base(waited), k, slot) else Tables(sessions) == c.Base(waited))
    && (waited == {} || c.WaitedUpTo(k + 1, waited))
    && forall i :: 0 <= i < |sessions| && sessions[i].bcUp ==> c.ups[i]
  }

  /** One attempt, seen over all the sessions. */
  method TryOne(sessions: seq<Session>, i: nat, wait: bool, env: Table, woke: bool, ghost c: Client, ghost before: set<nat>)
    returns (attempt: Attempt, ghost slot: nat, ghost waited: set<nat>)
    requires Apart(sessions) && i < |sessions| && Stands(sessions, c, wait, i, before)
    requires c.env[i] == env && c.woke[i] == woke
    modifies sessions[i], sessions[i].cbSlots
    ensures if attempt.PassedOver? then Stands(sessions, c, wait, i + 1, waited)
            else Stops(sessions, c, attempt.Sent?, i, slot, waited)
  {
    hide Ups, Tables, AllValid, Apart, NoneFree, TakenFrom, Exhausted, Limit, IsTable, Client.Reached, Client.Tried,
         Client.WaitedUpTo, Client.OneReserved, Client.Base;
    ghost var now := Ups(sessions);
    c.Untried(wait, now, i, before);
    c.UpsOnlyFall(wait, now, i, before);
    var s;
    ghost var here;
    attempt, s, here := TryAt(sessions, i, wait, env, woke, c);
    c.ReachedStep(wait, now, i, before, attempt, s, here, sessions[i].bcUp, sessions[i].cbSlots[..]);
    c.TablesStep(wait, now, i, before, attempt, s, here, sessions[i].bcUp, sessions[i].cbSlots[..]);
    slot, waited := s, if here then before + {i} else before;
  }

  /** One pass over the sessions, up to one that sends or fails. */
  method TryAll(sessions: seq<Session>, wait: bool, env: seq<Table>, woke: seq<bool>, ghost c: Client, ghost before: set<nat>)
    returns (attempt: Attempt, ghost slot: nat, ghost waited: set<nat>, ghost k: int)
    requires Apart(sessions) && Stands(sessions, c, wait, 0, before)
    requires c.env == env && c.woke == woke && |env| == |woke| == |sessions|
    modifies sessions, set s | s in sessions :: s.cbSlots
    ensures if attempt.PassedOver? then Stands(sessions, c, true, if wait then |sessions| else 0, waited)
            else Stops(sessions, c, attempt.Sent?, k, slot, waited)
  {
    hide *;
    slot, waited, k := 0, before, 0;
    for i := 0 to |sessions|
      invariant Stands(sessions, c, wait, i, waited)
    {
      k := i;
      attempt, slot, waited := TryOne(sessions, i, wait, env[i], woke[i], c, waited);
      if !attempt.PassedOver? {
        return;
      }
    }
    attempt := PassedOver;
    PassEnds(sessions, c, wait, waited);
  }

  lemma PassEnds(sessions: seq<Session>, c: Client, wait: bool, waited: set<nat>)
    requires Stands(sessions, c, wait, |sessions|, waited)
    ensures Stands(sessions, c, true, if wait then |sessions| else 0, waited)
  {
    hide Client.Reached, Ups, Tables, AllValid, Client.Base;
    c.PassEnds(wait, Ups(sessions), waited);
  }

  /** Two passes, the second of which may wait. */
  method TryTwice(sessions: seq<Session>, env: seq<Table>, woke: seq<bool>, ghost c: Client)
    returns (attempt: Attempt, ghost slot: nat, ghost waited: set<nat>, ghost k: int)
    requires Apart(sessions) && Stands(sessions, c, false, 0, {})
    requires c.env == env && c.woke == woke && |env| == |woke| == |sessions|
    modifies sessions, set s | s in sessions :: s.cbSlots
    ensures if attempt.PassedOver? then Stands(sessions, c, true, |sessions|, waited)
            else Stops(sessions, c, attempt.Sent?, k, slot, waited)
  {
    hide *;
    attempt, slot, waited, k := PassedOver, 0, {}, 0;
    for scan := 0 to 2
      invariant attempt.PassedOver? && Stands(sessions, c, scan > 0, if scan == 2 then |sessions| else 0, waited)
    {
      attempt, slot, waited, k := TryAll(sessions, scan == 1, env, woke, c, waited);
      if !attempt.PassedOver? {
        return;
      }
    }
  }

  /** The client as it stands. */
  ghost function ClientOf(sessions: seq<Session>, env: seq<Table>, woke: seq<bool>): (c: Client)
    requires AllValid(sessions) && |env| == |woke| == |sessions| && AreTables(env)
    reads sessions, set s | s in sessions :: s.cbSlots
    ensures Matches(sessions, c)
  {
    Client(Limits(sessions), Ups(sessions), Tables(sessions), env, woke)
  }

  /**
   * Sends one callback. `env` and `woke` are what befalls a thread that waits on each session, and `waited` are the
   * sessions it did wait on. Success means that exactly one slot was taken, the lowest free one of a session that is
   * up; any error means that none was. Other than that, only the tables waited on differ, by what others did.
   */
  method V41Single(minorVersion: nat, sessions: seq<Session>, env: seq<Table>, woke: seq<bool>)
    returns (code: Code, ghost c: Client, ghost waited: set<nat>, ghost k: int, ghost slot: nat)
    requires Apart(sessions) && AllValid(sessions) && |env| == |woke| == |sessions| && AreTables(env)
    modifies sessions, set s | s in sessions :: s.cbSlots
    ensures AllValid(sessions) && c == old(ClientOf(sessions, env, woke)) && Matches(sessions, c)
    ensures code.Einval? <==> minorVersion < 1
    ensures code.Einval? ==> waited == {} && Ups(sessions) == c.ups
    ensures forall i :: 0 <= i < |sessions| && sessions[i].bcUp ==> c.ups[i]
    ensures if code.Ok? then c.OneReserved(Tables(sessions), c.Base(waited), k, slot)
            else Tables(sessions) == c.Base(waited)
    ensures c.tables == old(Tables(sessions)) && c.env == env && c.woke == woke
    ensures code.Ok? || code.Enomem? ==> 0 <= k < |sessions| && sessions[k].bcUp
    ensures code.Ok? ==> FreeFor(sessions[k].maxRequests, c.Base(waited)[k], slot)
    ensures code.Ok? ==> forall s :: s < slot ==> !FreeFor(sessions[k].maxRequests, c.Base(waited)[k], s)
    ensures code.Enotconn? ==> forall i :: 0 <= i < |sessions| && sessions[i].bcUp ==>
      !SomeFreeFor(sessions[i].maxRequests, c.tables[i]) && (woke[i] ==> !SomeFreeFor(sessions[i].maxRequests, env[i]))
    ensures code.Ok? || code.Enomem? ==> waited == {} || c.WaitedUpTo(k + 1, waited)
    ensures code.Enotconn? ==> c.WaitedUpTo(|sessions|, waited)
    ensures code.Enotconn? ==> forall i :: 0 <= i < |sessions| ==> c.NoHelp(i, sessions[i].bcUp)
  {
    hide *;
    c := ClientOf(sessions, env, woke);
    waited, k, slot := {}, 0, 0;
    AtStart(sessions, env, woke);
    if minorVersion < 1 {
      return Einval, c, waited, k, slot;
    }
    var attempt;
    attempt, slot, waited, k := TryTwice(sessions, env, woke, c);
    match attempt
    case Sent =>
      AtStop(sessions, c, true, k, slot, waited);
      return Ok, c, waited, k, slot;
    case NoMemory =>
      AtStop(sessions, c, false, k, slot, waited);
      return Enomem, c, waited, k, slot;
    case PassedOver =>
      AtEnd(sessions, c, waited);
      return Enotconn, c, waited, k, slot;
  }

  lemma AtStart(sessions: seq<Session>, env: seq<Table>, woke: seq<bool>)
    requires AllValid(sessions) && |env| == |woke| == |sessions| && AreTables(env)
    ensures var c := ClientOf(sessions, env, woke);
      && Stands(sessions, c, false, 0, {}) && c.ups == Ups(sessions) && c.tables == Tables(sessions)
      && c.env == env && c.woke == woke
      && Matches(sessions, c) && |c.limits| == |sessions| && Tables(sessions) == c.Base({})
      && forall i :: 0 <= i < |sessions| && sessions[i].bcUp ==> Ups(sessions)[i]
  {
    ClientOf(sessions, env, woke).AtStart();
  }

  lemma AtStop(sessions: seq<Session>, c: Client, sent: bool, k: int, slot: nat, waited: set<nat>)
    requires Stops(sessions, c, sent, k, slot, waited)
    ensures AllValid(sessions) && Matches(sessions, c) && |c.limits| == |sessions| && 0 <= k < |sessions| && sessions[k].bcUp
    ensures if sent then c.OneReserved(Tables(sessions), c.Base(waited), k, slot) else Tables(sessions) == c.Base(waited)
    ensures waited == {} || c.WaitedUpTo(k + 1, waited)
    ensures forall i :: 0 <= i < |sessions| && sessions[i].bcUp ==> c.ups[i]
    ensures sent ==> FreeFor(sessions[k].maxRequests, c.Base(waited)[k], slot)
    ensures sent ==> forall s :: s < slot ==> !FreeFor(sessions[k].maxRequests, c.Base(waited)[k], s)
  {
    hide Ups, Tables, Client.WaitedUpTo, AllValid, Reserved;
  }

  lemma AtEnd(sessions: seq<Session>, c: Client, waited: set<nat>)
    requires Stands(sessions, c, true, |sessions|, waited)
    ensures AllValid(sessions) && Matches(sessions, c) && |c.limits| == |sessions| && Tables(sessions) == c.Base(waited)
    ensures c.WaitedUpTo(|sessions|, waited) && forall i :: 0 <= i < |sessions| ==> c.NoHelp(i, sessions[i].bcUp)
    ensures forall i :: 0 <= i < |sessions| && sessions[i].bcUp ==> c.ups[i]
    ensures forall i :: 0 <= i < |sessions| && sessions[i].bcUp ==>
      !SomeFreeFor(sessions[i].maxRequests, c.tables[i]) && (c.woke[i] ==> !SomeFreeFor(sessions[i].maxRequests, c.env[i]))
  {
    c.AtEnd(Ups(sessions), waited);
    c.UpsOnlyFall(true, Ups(sessions), |sessions|, waited);
  }
}
