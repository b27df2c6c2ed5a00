/** The request queues of the RPC dispatcher: for each class a producer list and a consumer list that act as one. */
module RequestQueue {
  import opened Options

  datatype RequestType = NfsRequest(mount: bool, highLatency: bool) | NfsCall | NinePRequest | Other

  datatype Request = Request(id: nat, rtype: RequestType)

  const MOUNT := 0
  const CALL := 1
  const LOW_LATENCY := 2
  const HIGH_LATENCY := 3
  const N_REQ_QUEUES := 4

  /** The queue a request belongs in, if any. */
  function ClassOf(rtype: RequestType): (c: Option<nat>)
    ensures c.Some? ==> c.value < N_REQ_QUEUES
    ensures c == None <==> rtype.Other?
    ensures c == Some(MOUNT) <==> rtype.NfsRequest? && rtype.mount
    ensures c == Some(HIGH_LATENCY) <==> rtype.NfsRequest? && !rtype.mount && rtype.highLatency
    ensures c == Some(CALL) <==> rtype.NfsCall?
  {
    match rtype
    case NfsRequest(mount, highLatency) =>
      Some(if mount then MOUNT else if highLatency then HIGH_LATENCY else LOW_LATENCY)
    case NfsCall => Some(CALL)
    case NinePRequest => Some(LOW_LATENCY)
    case Other => None
  }

  class ReqQ {
    var q: seq<Request>
    var size: nat

    constructor ()
      ensures q == [] && size == 0
    {
      q, size := [], 0;
    }
  }

  class ReqQPair {
    const producer: ReqQ
    const consumer: ReqQ

    ghost predicate Valid()
      reads producer, consumer
    {
      producer != consumer && producer.size == |producer.q| && consumer.size == |consumer.q|
    }

    /** The one queue the two lists stand for. */
    ghost function Contents(): seq<Request>
      reads producer, consumer
    {
      consumer.q + producer.q
    }

    constructor ()
      ensures Valid() && Contents() == [] && fresh(producer) && fresh(consumer)
    {
      producer := new ReqQ();
      consumer := new ReqQ();
    }

    method Append(req: Request)
      requires Valid()
      modifies producer
      ensures Valid() && Contents() == old(Contents()) + [req]
    {
      producer.q := producer.q + [req];
      producer.size := producer.size + 1;
    }

    method Consume() returns (nfsreq: Option<Request>)
      requires Valid()
      modifies producer, consumer
      ensures Valid()
      ensures nfsreq.None? <==> old(Contents()) == []
      ensures nfsreq.None? ==> Contents() == []
      ensures nfsreq.Some? ==> old(Contents()) == [nfsreq.value] + Contents()
    {
      if consumer.size > 0 {
        nfsreq := Some(consumer.q[0]);
        consumer.q := consumer.q[1..];
        consumer.size := consumer.size - 1;
      } else if producer.size > 0 {
        consumer.q := consumer.q + producer.q;
        producer.q := [];
        consumer.size := producer.size;
        producer.size := 0;
        nfsreq := Some(consumer.q[0]);
        consumer.q := consumer.q[1..];
        consumer.size := consumer.size - 1;
      } else {
        nfsreq := None;
      }
    }
  }

  const WORD := 0x1_0000_0000

  /** The next value of the 32-bit rotation counter, which skips zero. */
  function NextCounter(ctr: nat): (r: nat)
    ensures 0 < r < WORD
  {
    var ix := (ctr + 1) % WORD;
    if ix == 0 then 1 else ix
  }

  /** The class tried on turn ix of a scan that starts at class `slot`. */
  function Turn(slot: nat, ix: nat): (c: nat)
    ensures c < N_REQ_QUEUES
  {
    (slot + ix) % N_REQ_QUEUES
  }

  /** The turn on which a class is tried. */
  function TurnOf(slot: nat, c: nat): (ix: nat)
    requires slot < N_REQ_QUEUES && c < N_REQ_QUEUES
    ensures ix < N_REQ_QUEUES && Turn(slot, ix) == c
    ensures forall j :: 0 <= j < N_REQ_QUEUES && Turn(slot, j) == c ==> j == ix
  {
    (c + N_REQ_QUEUES - slot) % N_REQ_QUEUES
  }

  ghost predicate AllApart(pairs: seq<ReqQPair>) {
    forall c, d :: 0 <= c < d < |pairs| ==>
      pairs[c] != pairs[d] && {pairs[c].producer, pairs[c].consumer} !! {pairs[d].producer, pairs[d].consumer}
  }

  class ReqQSet {
    const qset: seq<ReqQPair>
    var ctr: nat

    ghost predicate Valid()
      reads this, qset, set p | p in qset :: p.producer, set p | p in qset :: p.consumer
    {
      |qset| == N_REQ_QUEUES && ctr < WORD && Apart()
      && forall c :: 0 <= c < N_REQ_QUEUES ==> qset[c].Valid()
    }

    ghost predicate Apart() {
      AllApart(qset)
    }

    /** The four queues. */
    ghost function Contents(): (r: Queues)
      requires |qset| == N_REQ_QUEUES
      reads this, qset, set p | p in qset :: p.producer, set p | p in qset :: p.consumer
      ensures |r| == N_REQ_QUEUES && forall c :: 0 <= c < N_REQ_QUEUES ==> r[c] == qset[c].Contents()
    {
      [qset[0].Contents(), qset[1].Contents(), qset[2].Contents(), qset[3].Contents()]
    }

    constructor ()
      ensures Valid() && AllEmpty(Contents())
    {
      var pairs := [];
      for ix := 0 to N_REQ_QUEUES
        invariant |pairs| == ix && AllApart(pairs)
        invariant forall c :: 0 <= c < ix ==> pairs[c].Valid() && pairs[c].Contents() == []
        invariant forall c :: 0 <= c < ix ==> fresh(pairs[c]) && fresh(pairs[c].producer) && fresh(pairs[c].consumer)
      {
        var pair := new ReqQPair();
        pairs := pairs + [pair];
      }
      qset, ctr := pairs, 0;
    }

    /** A request joins the end of its class, or is turned away if it has none; the other classes stay as they are. */
    method EnqueueReq(req: Request)
      requires Valid()
      modifies set p | p in qset :: p.producer
      ensures Valid()
      ensures match ClassOf(req.rtype)
        case Some(c) => Contents() == old(Contents())[c := old(Contents())[c] + [req]]
        case None => Contents() == old(Contents())
    {
      var c := ClassOf(req.rtype);
      if c.Some? {
        qset[c.value].Append(req);
      }
    }

    /** One class is tried; the others stay as they are. */
    method TryClass(c: nat) returns (nfsreq: Option<Request>)
      requires Valid() && c < N_REQ_QUEUES
      modifies qset[c].producer, qset[c].consumer
      ensures Valid()
      ensures nfsreq.None? ==> old(Contents())[c] == [] && Contents() == old(Contents())
      ensures nfsreq.Some? ==> Takes(old(Contents()), c, nfsreq.value, Contents())
    {
      nfsreq := qset[c].Consume();
    }

    /** One scan: the head of the first class, in turn, that has one; nothing only if all four are empty. */
    method DequeueScan() returns (nfsreq: Option<Request>, ghost ix: nat)
      requires Valid()
      modifies this, set p | p in qset :: p.producer, set p | p in qset :: p.consumer
      ensures Valid() && ctr == NextCounter(old(ctr))
      ensures nfsreq.None? ==> AllEmpty(old(Contents())) && Contents() == old(Contents())
      ensures nfsreq.Some? ==> EmptyBefore(old(Contents()), ctr % N_REQ_QUEUES, ix)
      ensures nfsreq.Some? ==> Takes(old(Contents()), Turn(ctr % N_REQ_QUEUES, ix), nfsreq.value, Contents())
    {
      ghost var was := Contents();
      hide *;
      var slot := NextSlot();
      var at := slot;
      ix, nfsreq := 0, None;
      FirstTurn(was, slot);
      for i := 0 to N_REQ_QUEUES
        invariant Valid() && ctr == NextCounter(old(ctr)) && at == Turn(slot, i) && nfsreq.None?
        invariant Contents() == was && EmptyBefore(was, slot, i)
      {
        nfsreq := TryClass(at);
        if nfsreq.Some? {
          ix := i;
          return;
        }
        NextTurn(was, slot, i);
        at := (at + 1) % N_REQ_QUEUES;
      }
      FullTurn(was, slot);
    }

    method NextSlot() returns (slot: nat)
      requires Valid()
      modifies this`ctr
      ensures Valid() && ctr == NextCounter(old(ctr)) && slot == ctr % N_REQ_QUEUES && slot < N_REQ_QUEUES
      ensures Contents() == old(Contents())
    {
      ctr := NextCounter(ctr);
      slot := ctr % N_REQ_QUEUES;
    }
  }

  lemma FirstTurn(queues: Queues, slot: nat)
    requires slot < N_REQ_QUEUES && |queues| == N_REQ_QUEUES
    ensures Turn(slot, 0) == slot && EmptyBefore(queues, slot, 0)
  {
  }

  lemma NextTurn(queues: Queues, slot: nat, i: nat)
    requires EmptyBefore(queues, slot, i)
    ensures Turn(slot, i + 1) == (Turn(slot, i) + 1) % N_REQ_QUEUES
    ensures queues[Turn(slot, i)] == [] ==> EmptyBefore(queues, slot, i + 1)
  {
  }

  type Queues = seq<seq<Request>>

  /** The head of class c is taken, and nothing else changes. */
  ghost predicate Takes(before: Queues, c: nat, req: Request, after: Queues) {
    |before| == |after| == N_REQ_QUEUES && c < N_REQ_QUEUES && before[c] == [req] + after[c]
    && forall d :: 0 <= d < N_REQ_QUEUES && d != c ==> after[d] == before[d]
  }

  /** The classes tried on the first i turns are empty. */
  ghost predicate EmptyBefore(queues: Queues, slot: nat, i: nat) {
    |queues| == N_REQ_QUEUES && forall j :: 0 <= j < i ==> queues[Turn(slot, j)] == []
  }

  ghost predicate AllEmpty(queues: Queues) {
    |queues| == N_REQ_QUEUES && forall c :: 0 <= c < N_REQ_QUEUES ==> queues[c] == []
  }

  /** Four turns reach every class. */
  lemma FullTurn(queues: Queues, slot: nat)
    requires slot < N_REQ_QUEUES && EmptyBefore(queues, slot, N_REQ_QUEUES)
    ensures AllEmpty(queues)
  {
    forall c | 0 <= c < N_REQ_QUEUES
      ensures queues[c] == []
    {
      var j := TurnOf(slot, c);
      assert queues[Turn(slot, j)] == [];
    }
  }

  /** The counter after n more scans. */
  function CounterAfter(ctr: nat, n: nat): (r: nat) {
    if n == 0 then ctr else NextCounter(CounterAfter(ctr, n - 1))
  }

  lemma {:induction false} CounterCounts(ctr: nat, n: nat)
    requires ctr + n < WORD
    ensures CounterAfter(ctr, n) == ctr + n
    decreases n
  {
    if n > 0 {
      CounterCounts(ctr, n - 1);
    }
  }

  lemma {:induction false} CounterWraps(ctr: nat, n: nat)
    requires ctr < WORD <= ctr + n < 2 * WORD - 1
    ensures CounterAfter(ctr, n) == ctr + n - WORD + 1
    decreases n
  {
    if ctr + n == WORD {
      CounterCounts(ctr, n - 1);
    } else {
      CounterWraps(ctr, n - 1);
    }
  }

  /** No class waits long for its turn to be tried first: four scans at most, or seven when the counter wraps, for it
      then skips a zero. */
  lemma EveryClassComesFirst(ctr: nat, c: nat) returns (n: nat)
    requires ctr < WORD && c < N_REQ_QUEUES
    ensures 1 <= n <= 7 && (ctr + 4 < WORD ==> n <= 4) && Turn(CounterAfter(ctr, n) % N_REQ_QUEUES, 0) == c
  {
    hide Ahead, Turn, CounterAfter;
    n := Ahead(ctr, c);
    if ctr + n < WORD {
      FirstWithoutWrap(ctr, n, c);
    } else {
      n := WORD - ctr + if c == 0 then 3 else c - 1;
      FirstAfterWrap(ctr, n, c);
    }
  }

  lemma FirstWithoutWrap(ctr: nat, n: nat, c: nat)
    requires ctr + n < WORD && (ctr + n) % N_REQ_QUEUES == c
    ensures Turn(CounterAfter(ctr, n) % N_REQ_QUEUES, 0) == c
  {
    hide CounterAfter;
    CounterCounts(ctr, n);
  }

  lemma FirstAfterWrap(ctr: nat, n: nat, c: nat)
    requires ctr < WORD && c < N_REQ_QUEUES && n == WORD - ctr + if c == 0 then 3 else c - 1
    ensures Turn(CounterAfter(ctr, n) % N_REQ_QUEUES, 0) == c
  {
    hide CounterAfter;
    CounterWraps(ctr, n);
  }

  /** How far ahead the next number of class c is. */
  function Ahead(ctr: nat, c: nat): (n: nat)
    requires c < N_REQ_QUEUES
    ensures 1 <= n <= 4 && (ctr + n) % 4 == c
  {
    1 + (c + 3 - ctr % 4) % 4
  }

  /** And seven it can be. */
  lemma SevenScans(n: nat)
    requires 1 <= n <= 7
    ensures Turn(CounterAfter(WORD - 4, n) % N_REQ_QUEUES, 0) == MOUNT <==> n == 7
  {
    if n <= 3 {
      CounterCounts(WORD - 4, n);
    } else {
      CounterWraps(WORD - 4, n);
    }
  }
}
