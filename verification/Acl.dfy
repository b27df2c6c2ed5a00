/** NFSv4 access control lists: the evaluation loop and the first-match rule of section 6.2.1 of RFC 5661. */
module Acl {

  // ------------------------------------------------------------ masks, bit by bit

  predicate Single(b: bv32) {
    b != 0 && b & (b - 1) == 0
  }

  predicate Has(mask: bv32, b: bv32) {
    mask & b != 0
  }

  function And(x: bv32, y: bv32): bv32 {
    x & y
  }

  function Or(x: bv32, y: bv32): bv32 {
    x | y
  }

  function Minus(x: bv32, y: bv32): bv32 {
    x & !y
  }

  /** A single bit is taken whole or not at all. */
  lemma Atom(x: bv32, b: bv32)
    requires b & (b - 1) == 0
    ensures x & b == 0 || x & b == b
  {
  }

  lemma MeetAtoms(p: bv32, q: bv32, b: bv32)
    requires b != 0 && (p == 0 || p == b) && (q == 0 || q == b)
    ensures p & q != 0 <==> p != 0 && q != 0
    ensures p | q != 0 <==> p != 0 || q != 0
  {
  }

  lemma Distribute(x: bv32, y: bv32, b: bv32)
    ensures (x & y) & b == (x & b) & (y & b)
    ensures (x | y) & b == (x & b) | (y & b)
  {
  }

  lemma Complement(y: bv32, b: bv32)
    ensures y & b == b ==> (!y) & b == 0
    ensures y & b == 0 ==> (!y) & b == b
  {
  }

  lemma HasAnd(x: bv32, y: bv32, b: bv32)
    requires Single(b)
    ensures Has(And(x, y), b) <==> Has(x, b) && Has(y, b)
  {
    Atom(x, b);
    Atom(y, b);
    Distribute(x, y, b);
    MeetAtoms(x & b, y & b, b);
  }

  lemma HasMinus(x: bv32, y: bv32, b: bv32)
    requires Single(b)
    ensures Has(Minus(x, y), b) <==> Has(x, b) && !Has(y, b)
  {
    Atom(x, b);
    Atom(y, b);
    Complement(y, b);
    Distribute(x, !y, b);
    MeetAtoms(x & b, (!y) & b, b);
  }

  lemma HasOr(x: bv32, y: bv32, b: bv32)
    requires Single(b)
    ensures Has(Or(x, y), b) <==> Has(x, b) || Has(y, b)
  {
    Atom(x, b);
    Atom(y, b);
    Distribute(x, y, b);
    MeetAtoms(x & b, y & b, b);
  }

  lemma HasSingle(c: bv32, b: bv32)
    requires Single(b) && Single(c)
    ensures Has(c, b) <==> b == c
  {
  }

  /** A mask other than zero has a bit. */
  lemma SomeBit(mask: bv32) returns (b: bv32)
    requires mask != 0
    ensures Single(b) && Has(mask, b)
  {
    b := mask & (0 - mask);
  }

  lemma NoBit(b: bv32)
    ensures !Has(0, b)
  {
  }

  // ------------------------------------------------------------ entries

  const ALLOW: bv32 := 0
  const DENY: bv32 := 1

  const FLAG_INHERIT_ONLY: bv32 := 0x0000_0008
  const FLAG_GROUP_ID: bv32 := 0x0000_0040
  const IFLAG_EXCLUDE_FILES: bv32 := 0x4000_0000
  const IFLAG_EXCLUDE_DIRS: bv32 := 0x2000_0000
  const IFLAG_SPECIAL_ID: bv32 := 0x8000_0000

  const SPECIAL_OWNER: bv32 := 1
  const SPECIAL_GROUP: bv32 := 2
  const SPECIAL_EVERYONE: bv32 := 3

  const EXECUTE: bv32 := 0x0000_0020
  const READ_ATTR: bv32 := 0x0000_0080
  const WRITE_ATTR: bv32 := 0x0000_0100
  const READ_ACL: bv32 := 0x0002_0000
  const WRITE_ACL: bv32 := 0x0004_0000
  const WRITE_OWNER: bv32 := 0x0008_0000
  const CONTINUE: bv32 := 0x4000_0000

  /** The bits whose refusal is an EPERM. */
  const WRITES: bv32 := WRITE_ATTR | WRITE_ACL | WRITE_OWNER

  datatype Ace = Ace(aceType: bv32, perm: bv32, flag: bv32, iflag: bv32, who: bv32)

  datatype Credentials = Credentials(uid: bv32, gid: bv32, groups: seq<bv32>)

  datatype Attributes = Attributes(owner: bv32, group: bv32, isDir: bool, acl: seq<Ace>)

  datatype Status = Granted | Access | Perm

  predicate InGroup(gid: bv32, creds: Credentials) {
    creds.gid == gid || gid in creds.groups
  }

  method CheckAceGroup(gid: bv32, creds: Credentials) returns (found: bool)
    ensures found <==> InGroup(gid, creds)
  {
    if creds.gid == gid {
      return true;
    }
    for i := 0 to |creds.groups|
      invariant gid !in creds.groups[..i]
    {
      if creds.groups[i] == gid {
        return true;
      }
    }
    return false;
  }

  predicate AceMatches(ace: Ace, creds: Credentials, attrs: Attributes) {
    if Has(ace.iflag, IFLAG_SPECIAL_ID) then
      (ace.who == SPECIAL_OWNER && creds.uid == attrs.owner)
      || (ace.who == SPECIAL_GROUP && InGroup(attrs.group, creds))
      || ace.who == SPECIAL_EVERYONE
    else if Has(ace.flag, FLAG_GROUP_ID) then InGroup(ace.who, creds)
    else creds.uid == ace.who
  }

  predicate AceApplicable(ace: Ace, creds: Credentials, attrs: Attributes) {
    !Has(ace.flag, FLAG_INHERIT_ONLY)
    && !Has(ace.iflag, if attrs.isDir then IFLAG_EXCLUDE_DIRS else IFLAG_EXCLUDE_FILES)
    && (creds.uid == 0 || AceMatches(ace, creds, attrs))
  }

  // ------------------------------------------------------------ the first-match rule

  datatype Verdict = Undecided | Allowed | Denied

  /** What one entry says about one bit to this caller; a denial says nothing to the superuser. */
  function Says(ace: Ace, creds: Credentials, attrs: Attributes, b: bv32): Verdict {
    if !AceApplicable(ace, creds, attrs) || !Has(ace.perm, b) then Undecided
    else if ace.aceType == ALLOW then Allowed
    else if ace.aceType == DENY && creds.uid != 0 then Denied
    else Undecided
  }

  /** The verdict of the first entry that says something. */
  function FirstMatch(acl: seq<Ace>, creds: Credentials, attrs: Attributes, b: bv32): Verdict {
    if acl == [] then Undecided
    else if Says(acl[0], creds, attrs, b).Undecided? then FirstMatch(acl[1..], creds, attrs, b)
    else Says(acl[0], creds, attrs, b)
  }

  /** What the owner may do to attributes and list in any case. */
  predicate OwnerBit(b: bv32) {
    b == WRITE_ACL || b == READ_ACL || b == WRITE_ATTR || b == READ_ATTR
  }

  /** Bits the caller holds whatever the list says. */
  predicate Implicit(creds: Credentials, attrs: Attributes, b: bv32) {
    (creds.uid == 0 && !Has(EXECUTE, b))
    || (creds.uid == attrs.owner && OwnerBit(b))
  }

  predicate Requested(v4mask: bv32, b: bv32) {
    Single(b) && b != CONTINUE && Has(v4mask, b)
  }

  predicate Holds(creds: Credentials, attrs: Attributes, b: bv32) {
    Implicit(creds, attrs, b) || FirstMatch(attrs.acl, creds, attrs, b).Allowed?
  }

  ghost predicate AllHeld(creds: Credentials, attrs: Attributes, v4mask: bv32) {
    forall b :: Requested(v4mask, b) ==> Holds(creds, attrs, b)
  }

  lemma {:induction false} FirstMatchAppends(acl: seq<Ace>, ace: Ace, creds: Credentials, attrs: Attributes, b: bv32)
    ensures FirstMatch(acl + [ace], creds, attrs, b)
         == if FirstMatch(acl, creds, attrs, b).Undecided? then Says(ace, creds, attrs, b)
            else FirstMatch(acl, creds, attrs, b)
    decreases |acl|
  {
    if acl == [] {
      assert ([] + [ace])[1..] == [];
    } else {
      assert (acl + [ace])[1..] == acl[1..] + [ace];
      FirstMatchAppends(acl[1..], ace, creds, attrs, b);
    }
  }

  /** A bit once decided stays decided. */
  lemma {:induction false} FirstMatchStable(acl: seq<Ace>, i: nat, creds: Credentials, attrs: Attributes, b: bv32)
    requires i <= |acl| && !FirstMatch(acl[..i], creds, attrs, b).Undecided?
    ensures FirstMatch(acl, creds, attrs, b) == FirstMatch(acl[..i], creds, attrs, b)
    decreases |acl| - i
  {
    if i == |acl| {
      assert acl[..i] == acl;
    } else {
      assert acl[..i + 1] == acl[..i] + [acl[i]];
      FirstMatchAppends(acl[..i], acl[i], creds, attrs, b);
      FirstMatchStable(acl, i + 1, creds, attrs, b);
    }
  }

  ghost predicate DecidedAt(acl: seq<Ace>, creds: Credentials, attrs: Attributes, b: bv32, v: Verdict, i: int) {
    0 <= i < |acl| && Says(acl[i], creds, attrs, b) == v
    && forall j :: 0 <= j < i ==> Says(acl[j], creds, attrs, b).Undecided?
  }

  /** The rule in one sentence: some entry decides the bit this way, and no entry before it says anything. */
  lemma FirstMatchMeans(acl: seq<Ace>, creds: Credentials, attrs: Attributes, b: bv32, v: Verdict)
    requires v != Undecided
    ensures FirstMatch(acl, creds, attrs, b) == v <==> exists i :: DecidedAt(acl, creds, attrs, b, v, i)
  {
    if FirstMatch(acl, creds, attrs, b) == v {
      var i := FirstMatchIndex(acl, creds, attrs, b);
    }
    forall i | DecidedAt(acl, creds, attrs, b, v, i)
      ensures FirstMatch(acl, creds, attrs, b) == v
    {
      FirstMatchAt(acl, creds, attrs, b, v, i);
    }
  }

  lemma {:induction false} FirstMatchIndex(acl: seq<Ace>, creds: Credentials, attrs: Attributes, b: bv32) returns (i: nat)
    requires !FirstMatch(acl, creds, attrs, b).Undecided?
    ensures DecidedAt(acl, creds, attrs, b, FirstMatch(acl, creds, attrs, b), i)
    decreases |acl|
  {
    i := 0;
    if Says(acl[0], creds, attrs, b).Undecided? {
      var k := FirstMatchIndex(acl[1..], creds, attrs, b);
      i := k + 1;
      assert forall j :: 0 < j <= i ==> acl[j] == acl[1..][j - 1];
    }
  }

  lemma {:induction false} FirstMatchAt(acl: seq<Ace>, creds: Credentials, attrs: Attributes, b: bv32, v: Verdict, i: nat)
    requires v != Undecided && DecidedAt(acl, creds, attrs, b, v, i)
    ensures FirstMatch(acl, creds, attrs, b) == v
    decreases i
  {
    if i > 0 {
      assert forall j :: 0 <= j < |acl| - 1 ==> acl[1..][j] == acl[j + 1];
      FirstMatchAt(acl[1..], creds, attrs, b, v, i - 1);
    }
  }

  // ------------------------------------------------------------ the scan

  /** One evaluation: who asks, of what object, for which bits. */
  datatype Query = Query(creds: Credentials, attrs: Attributes, v4mask: bv32) {

    predicate Wanted(b: bv32) {
      Requested(v4mask, b) && !Implicit(creds, attrs, b)
    }

    function After(i: nat, b: bv32): Verdict
      requires i <= |attrs.acl|
    {
      FirstMatch(attrs.acl[..i], creds, attrs, b)
    }

    function SaysAt(i: nat, b: bv32): Verdict
      requires i < |attrs.acl|
    {
      Says(attrs.acl[i], creds, attrs, b)
    }

    lemma AfterNext(i: nat, b: bv32)
      requires i < |attrs.acl|
      ensures After(i + 1, b) == if After(i, b).Undecided? then SaysAt(i, b) else After(i, b)
    {
      assert attrs.acl[..i + 1] == attrs.acl[..i] + [attrs.acl[i]];
      FirstMatchAppends(attrs.acl[..i], attrs.acl[i], creds, attrs, b);
    }

    /** Entry i denies a wanted bit that no entry before it decided. */
    ghost predicate Blocks(i: nat)
      requires i < |attrs.acl|
    {
      exists b :: Wanted(b) && After(i, b).Undecided? && SaysAt(i, b).Denied?
    }

    /** Entry i does so to a bit that changes attributes, the list or the owner. */
    ghost predicate BlocksWrite(i: nat)
      requires i < |attrs.acl|
    {
      exists b :: Wanted(b) && Has(WRITES, b) && After(i, b).Undecided? && SaysAt(i, b).Denied?
    }

    /** No entry at all decides some such bit. */
    ghost predicate LeavesWrite() {
      exists b :: Wanted(b) && Has(WRITES, b) && FirstMatch(attrs.acl, creds, attrs, b).Undecided?
    }

    ghost predicate NoneBlocks(i: nat)
      requires i <= |attrs.acl|
    {
      forall j :: 0 <= j < i ==> !Blocks(j)
    }

    /**
     * When the refusal says PERM. An evaluation that goes on says so of a write bit left undecided; one that stops at
     * the first blocking entry says so of a write bit that entry blocks, or of one left undecided if none blocks.
     */
    ghost predicate CodeIs(goesOn: bool, perm: bool) {
      (goesOn || NoneBlocks(|attrs.acl|) ==> (perm <==> LeavesWrite()))
      && (!goesOn ==> forall i :: 0 <= i < |attrs.acl| && NoneBlocks(i) && Blocks(i) ==> (perm <==> BlocksWrite(i)))
    }

    ghost predicate AllowedExactly(allowed: bv32) {
      forall b {:trigger Has(allowed, b)} :: Single(b) && b != CONTINUE ==>
        (Has(allowed, b) <==> Has(v4mask, b) && Holds(creds, attrs, b))
    }

    ghost predicate DeniedIncludes(denied: bv32) {
      (forall b {:trigger Has(denied, b)} :: Wanted(b) && FirstMatch(attrs.acl, creds, attrs, b).Denied? ==> Has(denied, b))
      && (forall b {:trigger Has(denied, b)} :: Single(b) && Has(denied, b) ==> Has(v4mask, b))
    }

    /** What was allowed once the first i entries were read. */
    ghost predicate AllowedAfter(i: nat, allowed: bv32)
      requires i <= |attrs.acl|
    {
      forall b {:trigger Has(allowed, b)} :: Single(b) && b != CONTINUE ==>
        (Has(allowed, b) <==> Has(v4mask, b) && (Implicit(creds, attrs, b) || After(i, b).Allowed?))
    }

    /** One of the first i entries blocks some bit and names this one. */
    ghost predicate Named(i: nat, b: bv32)
      requires i <= |attrs.acl|
    {
      exists j :: 0 <= j < i && Blocks(j) && Has(attrs.acl[j].perm, b)
    }

    /** All that a blocking entry names counts as denied, also what an earlier entry allowed. */
    ghost predicate DeniedAfter(i: nat, denied: bv32)
      requires i <= |attrs.acl|
    {
      forall b {:trigger Has(denied, b)} :: Single(b) ==> (Has(denied, b) <==> Has(v4mask, b) && Named(i, b))
    }

    ghost predicate DeniedExactly(denied: bv32) {
      DeniedAfter(|attrs.acl|, denied)
    }

    /** What an evaluation that stops at the first blocking entry reports. */
    ghost predicate StoppedReport(wantAllowed: bool, wantDenied: bool, allowed: bv32, denied: bv32) {
      (NoneBlocks(|attrs.acl|) ==> denied == 0 && (wantAllowed ==> AllowedExactly(allowed)))
      && forall i :: 0 <= i < |attrs.acl| && NoneBlocks(i) && Blocks(i) ==>
           (wantAllowed ==> AllowedAfter(i, allowed)) && (wantDenied ==> denied == And(v4mask, attrs.acl[i].perm))
    }

    lemma NothingNamed()
      ensures DeniedAfter(0, 0)
    {
      hide Has, Single;
      forall b
        ensures !Has(0, b)
      {
        NoBit(b);
      }
    }

    lemma NamedNext(i: nat, b: bv32)
      requires i < |attrs.acl|
      ensures Named(i + 1, b) <==> Named(i, b) || (Blocks(i) && Has(attrs.acl[i].perm, b))
    {
      hide Has, Blocks;
    }

    lemma DeniedSame(i: nat, denied: bv32)
      requires i < |attrs.acl| && DeniedAfter(i, denied) && !Blocks(i)
      ensures DeniedAfter(i + 1, denied)
    {
      hide Has, Single, Blocks, Named;
      forall b
        ensures Named(i + 1, b) <==> Named(i, b)
      {
        NamedNext(i, b);
      }
    }

    lemma DeniedMore(i: nat, denied: bv32)
      requires i < |attrs.acl| && DeniedAfter(i, denied) && Blocks(i)
      ensures DeniedAfter(i + 1, Or(denied, And(v4mask, attrs.acl[i].perm)))
    {
      hide Has, Single, Blocks, Named, Or, And;
      var perm := attrs.acl[i].perm;
      forall b | Single(b)
        ensures Has(Or(denied, And(v4mask, perm)), b) <==> Has(v4mask, b) && Named(i + 1, b)
      {
        NamedNext(i, b);
        HasAnd(v4mask, perm, b);
        HasOr(denied, And(v4mask, perm), b);
      }
    }

    lemma DeniedLast(i: nat, denied: bv32)
      requires i <= |attrs.acl| && DeniedAfter(i, denied) && forall j :: i <= j < |attrs.acl| ==> !Blocks(j)
      ensures DeniedExactly(denied)
    {
      hide Has, Single, Blocks;
      forall b
        ensures Named(|attrs.acl|, b) <==> Named(i, b)
      {
      }
    }

    // -------------------------------------------------------- steps of the scan

    /** After i entries, as far as one bit goes. */
    ghost predicate BitIs(i: nat, missing: bv32, allowed: bv32, denied: bv32, b: bv32)
      requires i <= |attrs.acl|
    {
      (Has(missing, b) <==> Wanted(b) && After(i, b).Undecided?)
      && (b != CONTINUE ==>
          (Has(allowed, b) <==> Has(v4mask, b) && (Implicit(creds, attrs, b) || After(i, b).Allowed?)))
      && (Wanted(b) && After(i, b).Denied? ==> Has(denied, b))
      && (Has(denied, b) ==> Has(v4mask, b) && !After(i, b).Undecided?)
    }

    ghost predicate Scanned(i: nat, missing: bv32, allowed: bv32, denied: bv32)
      requires i <= |attrs.acl|
    {
      (forall b {:trigger Single(b)} :: Single(b) ==> BitIs(i, missing, allowed, denied, b))
      && (denied != 0 ==> exists b :: Wanted(b) && After(i, b).Denied?)
    }

    lemma AllowBit(i: nat, missing: bv32, allowed: bv32, denied: bv32, b: bv32)
      requires i < |attrs.acl| && Single(b) && BitIs(i, missing, allowed, denied, b)
      requires SaysAt(i, b) == if Has(attrs.acl[i].perm, b) then Allowed else Undecided
      ensures var tperm := Minus(attrs.acl[i].perm, denied);
        BitIs(i + 1, Minus(missing, And(tperm, missing)), Or(allowed, And(v4mask, tperm)), denied, b)
    {
      hide Has, Single, Implicit, Says, FirstMatch, And, Or, Minus;
      var perm := attrs.acl[i].perm;
      var tperm := Minus(perm, denied);
      AfterNext(i, b);
      HasMinus(perm, denied, b);
      HasAnd(tperm, missing, b);
      HasMinus(missing, And(tperm, missing), b);
      HasAnd(v4mask, tperm, b);
      HasOr(allowed, And(v4mask, tperm), b);
    }

    /** An entry that says nothing that matters leaves the masks as they are. */
    lemma IdleBit(i: nat, missing: bv32, allowed: bv32, denied: bv32, b: bv32)
      requires i < |attrs.acl| && Single(b) && BitIs(i, missing, allowed, denied, b)
      requires SaysAt(i, b).Undecided? || (SaysAt(i, b).Denied? && !Has(missing, b))
      ensures BitIs(i + 1, missing, allowed, denied, b)
    {
      hide Has, Single, Implicit, Says, FirstMatch;
      AfterNext(i, b);
    }

    lemma DenyBit(i: nat, missing: bv32, allowed: bv32, denied: bv32, b: bv32)
      requires i < |attrs.acl| && Single(b) && BitIs(i, missing, allowed, denied, b)
      requires SaysAt(i, b) == if Has(attrs.acl[i].perm, b) then Denied else Undecided
      ensures var perm := attrs.acl[i].perm;
        BitIs(i + 1, Minus(missing, And(perm, missing)), allowed, Or(denied, And(v4mask, perm)), b)
    {
      hide Has, Single, Implicit, Says, FirstMatch, And, Or, Minus;
      var perm := attrs.acl[i].perm;
      AfterNext(i, b);
      HasAnd(perm, missing, b);
      HasMinus(missing, And(perm, missing), b);
      HasAnd(v4mask, perm, b);
      HasOr(denied, And(v4mask, perm), b);
    }

    lemma AllowStep(i: nat, missing: bv32, allowed: bv32, denied: bv32)
      requires i < |attrs.acl| && Scanned(i, missing, allowed, denied)
      requires forall b :: SaysAt(i, b) == if Has(attrs.acl[i].perm, b) then Allowed else Undecided
      ensures var tperm := Minus(attrs.acl[i].perm, denied);
        Scanned(i + 1, Minus(missing, And(tperm, missing)), Or(allowed, And(v4mask, tperm)), denied)
    {
      hide Has, Single, Implicit, Says, FirstMatch, And, Or, Minus, BitIs;
      var tperm := Minus(attrs.acl[i].perm, denied);
      forall b | Single(b)
        ensures BitIs(i + 1, Minus(missing, And(tperm, missing)), Or(allowed, And(v4mask, tperm)), denied, b)
      {
        assert SaysAt(i, b) == if Has(attrs.acl[i].perm, b) then Allowed else Undecided;
        AllowBit(i, missing, allowed, denied, b);
      }
      StillDenied(i, denied);
    }

    lemma IdleStep(i: nat, missing: bv32, allowed: bv32, denied: bv32)
      requires i < |attrs.acl| && Scanned(i, missing, allowed, denied)
      requires forall b :: Single(b) ==> SaysAt(i, b).Undecided? || (SaysAt(i, b).Denied? && !Has(missing, b))
      ensures Scanned(i + 1, missing, allowed, denied)
    {
      hide Has, Single, Implicit, Says, FirstMatch, BitIs;
      forall b | Single(b)
        ensures BitIs(i + 1, missing, allowed, denied, b)
      {
        IdleBit(i, missing, allowed, denied, b);
      }
      StillDenied(i, denied);
    }

    lemma DenyStep(i: nat, missing: bv32, allowed: bv32, denied: bv32)
      requires i < |attrs.acl| && Scanned(i, missing, allowed, denied)
      requires forall b :: SaysAt(i, b) == if Has(attrs.acl[i].perm, b) then Denied else Undecided
      requires And(attrs.acl[i].perm, missing) != 0
      ensures var perm := attrs.acl[i].perm;
        Scanned(i + 1, Minus(missing, And(perm, missing)), allowed, Or(denied, And(v4mask, perm)))
    {
      hide Has, Single, Implicit, Says, FirstMatch, And, Or, Minus, BitIs;
      var perm := attrs.acl[i].perm;
      forall b | Single(b)
        ensures BitIs(i + 1, Minus(missing, And(perm, missing)), allowed, Or(denied, And(v4mask, perm)), b)
      {
        assert SaysAt(i, b) == if Has(attrs.acl[i].perm, b) then Denied else Undecided;
        DenyBit(i, missing, allowed, denied, b);
      }
      var b := BlockedBit(i, missing, allowed, denied, perm);
      AfterNext(i, b);
    }

    lemma StillDenied(i: nat, denied: bv32)
      requires i < |attrs.acl| && (denied != 0 ==> exists b :: Wanted(b) && After(i, b).Denied?)
      ensures denied != 0 ==> exists b :: Wanted(b) && After(i + 1, b).Denied?
    {
      if denied != 0 {
        var b :| Wanted(b) && After(i, b).Denied?;
        AfterNext(i, b);
      }
    }

    /** A denying entry that meets the missing bits denies a wanted, undecided bit. */
    lemma BlockedBit(i: nat, missing: bv32, allowed: bv32, denied: bv32, perm: bv32) returns (b: bv32)
      requires i < |attrs.acl| && Scanned(i, missing, allowed, denied)
      requires And(perm, missing) != 0
      ensures Single(b) && Wanted(b) && After(i, b).Undecided? && Has(perm, b) && Has(missing, b)
    {
      hide Has, Single, Implicit, Says, FirstMatch, And, Or, Minus;
      b := SomeBit(And(perm, missing));
      HasAnd(perm, missing, b);
      assert BitIs(i, missing, allowed, denied, b);
    }

    // -------------------------------------------------------- the end of the scan

    lemma Settled(i: nat, missing: bv32, allowed: bv32, denied: bv32, b: bv32)
      requires i <= |attrs.acl| && Scanned(i, missing, allowed, denied) && Single(b)
      requires i == |attrs.acl| || (missing == 0 && Wanted(b))
      ensures FirstMatch(attrs.acl, creds, attrs, b) == After(i, b)
    {
      hide Has, Single, Implicit, Says, FirstMatch;
      if i == |attrs.acl| {
        assert attrs.acl[..i] == attrs.acl;
      } else {
        NoBit(b);
        assert BitIs(i, missing, allowed, denied, b);
        FirstMatchStable(attrs.acl, i, creds, attrs, b);
      }
    }

    /** When the scan ends, the caller holds all it asked for exactly when nothing is missing and nothing denied. */
    lemma ScanDecides(i: nat, missing: bv32, allowed: bv32, denied: bv32)
      requires i <= |attrs.acl| && Scanned(i, missing, allowed, denied)
      requires i == |attrs.acl| || missing == 0
      ensures missing == 0 && denied == 0 <==> AllHeld(creds, attrs, v4mask)
    {
      hide Has, Single, Says, FirstMatch, Implicit, Requested;
      if missing != 0 {
        var b := SomeBit(missing);
        assert BitIs(i, missing, allowed, denied, b);
        Settled(i, missing, allowed, denied, b);
        assert !Holds(creds, attrs, b);
      } else if denied != 0 {
        var b :| Wanted(b) && After(i, b).Denied?;
        WantedIsSingle(b);
        Settled(i, missing, allowed, denied, b);
        assert !Holds(creds, attrs, b);
      } else {
        forall b | Requested(v4mask, b)
          ensures Holds(creds, attrs, b)
        {
          if !Implicit(creds, attrs, b) {
            WantedIsSingle(b);
            assert BitIs(i, missing, allowed, denied, b);
            NoBit(b);
            Settled(i, missing, allowed, denied, b);
          }
        }
      }
    }

    lemma WantedIsSingle(b: bv32)
      requires Wanted(b)
      ensures Single(b) && Has(v4mask, b) && b != CONTINUE
    {
    }

    lemma ScanReports(i: nat, missing: bv32, allowed: bv32, denied: bv32)
      requires i <= |attrs.acl| && Scanned(i, missing, allowed, denied)
      requires i == |attrs.acl| || missing == 0
      ensures AllowedExactly(allowed) && DeniedIncludes(denied)
    {
      hide Has, Single, Says, FirstMatch, Implicit;
      forall b | Single(b)
        ensures BitIs(i, missing, allowed, denied, b)
        ensures Wanted(b) ==> FirstMatch(attrs.acl, creds, attrs, b) == After(i, b)
      {
        if Wanted(b) {
          Settled(i, missing, allowed, denied, b);
        }
      }
    }

    lemma ScanLeaves(i: nat, missing: bv32, allowed: bv32, denied: bv32)
      requires i <= |attrs.acl| && Scanned(i, missing, allowed, denied)
      requires i == |attrs.acl| || missing == 0
      ensures And(missing, WRITES) != 0 <==> LeavesWrite()
    {
      hide Has, Single, Says, FirstMatch, Implicit, And, Requested;
      if And(missing, WRITES) != 0 {
        var b := SomeBit(And(missing, WRITES));
        HasAnd(missing, WRITES, b);
        assert BitIs(i, missing, allowed, denied, b);
        NotZero(missing, b);
        Settled(i, missing, allowed, denied, b);
      }
      forall b | Wanted(b) && Has(WRITES, b) && FirstMatch(attrs.acl, creds, attrs, b).Undecided?
        ensures And(missing, WRITES) != 0
      {
        WantedIsSingle(b);
        Settled(i, missing, allowed, denied, b);
        assert BitIs(i, missing, allowed, denied, b);
        HasAnd(missing, WRITES, b);
        NotZero(And(missing, WRITES), b);
      }
    }

    /** What the entry that stops the evaluation blocks. */
    lemma Blocked(i: nat, missing: bv32, allowed: bv32, denied: bv32)
      requires i < |attrs.acl| && Scanned(i, missing, allowed, denied)
      requires forall b :: SaysAt(i, b) == if Has(attrs.acl[i].perm, b) then Denied else Undecided
      requires And(attrs.acl[i].perm, missing) != 0
      ensures Blocks(i) && !AllHeld(creds, attrs, v4mask)
      ensures And(And(attrs.acl[i].perm, missing), WRITES) != 0 <==> BlocksWrite(i)
    {
      hide Has, Single, Says, FirstMatch, Implicit, And, Requested;
      var perm := attrs.acl[i].perm;
      var b := BlockedBit(i, missing, allowed, denied, perm);
      assert SaysAt(i, b).Denied?;
      AfterNext(i, b);
      FirstMatchStable(attrs.acl, i + 1, creds, attrs, b);
      assert !Holds(creds, attrs, b);
      BlockedWrite(i, missing, allowed, denied);
    }

    lemma BlockedWrite(i: nat, missing: bv32, allowed: bv32, denied: bv32)
      requires i < |attrs.acl| && Scanned(i, missing, allowed, denied)
      requires forall b :: SaysAt(i, b) == if Has(attrs.acl[i].perm, b) then Denied else Undecided
      ensures And(And(attrs.acl[i].perm, missing), WRITES) != 0 <==> BlocksWrite(i)
    {
      hide Has, Single, Says, FirstMatch, Implicit, And, Requested;
      var perm := attrs.acl[i].perm;
      if And(And(perm, missing), WRITES) != 0 {
        var c := SomeBit(And(And(perm, missing), WRITES));
        HasAnd(And(perm, missing), WRITES, c);
        HasAnd(perm, missing, c);
        assert BitIs(i, missing, allowed, denied, c);
        assert SaysAt(i, c).Denied?;
      }
      forall c | Wanted(c) && Has(WRITES, c) && After(i, c).Undecided? && SaysAt(i, c).Denied?
        ensures And(And(perm, missing), WRITES) != 0
      {
        WantedIsSingle(c);
        assert BitIs(i, missing, allowed, denied, c);
        HasAnd(perm, missing, c);
        HasAnd(And(perm, missing), WRITES, c);
        NotZero(And(And(perm, missing), WRITES), c);
      }
    }
  }

  lemma NotZero(mask: bv32, b: bv32)
    requires Has(mask, b)
    ensures mask != 0
  {
  }

  // ------------------------------------------------------------ the code

  method CheckAceMatches(ace: Ace, creds: Credentials, attrs: Attributes, isOwner: bool, isGroup: bool)
    returns (matches: bool)
    requires isOwner == (creds.uid == attrs.owner) && isGroup == InGroup(attrs.group, creds)
    ensures matches <==> AceMatches(ace, creds, attrs)
  {
    matches := false;
    if Has(ace.iflag, IFLAG_SPECIAL_ID) {
      if ace.who == SPECIAL_OWNER {
        matches := isOwner;
      } else if ace.who == SPECIAL_GROUP {
        matches := isGroup;
      } else if ace.who == SPECIAL_EVERYONE {
        matches := true;
      }
    } else if Has(ace.flag, FLAG_GROUP_ID) {
      matches := CheckAceGroup(ace.who, creds);
    } else {
      matches := creds.uid == ace.who;
    }
  }

  method CheckAceApplicable(ace: Ace, creds: Credentials, attrs: Attributes, isOwner: bool, isGroup: bool, isRoot: bool)
    returns (applicable: bool)
    requires isOwner == (creds.uid == attrs.owner) && isGroup == InGroup(attrs.group, creds)
    requires isRoot == (creds.uid == 0)
    ensures applicable <==> AceApplicable(ace, creds, attrs)
  {
    if Has(ace.flag, FLAG_INHERIT_ONLY) {
      return false;
    }
    if !attrs.isDir {
      if Has(ace.iflag, IFLAG_EXCLUDE_FILES) {
        return false;
      }
    } else {
      if Has(ace.iflag, IFLAG_EXCLUDE_DIRS) {
        return false;
      }
    }
    if isRoot {
      return true;
    }
    applicable := CheckAceMatches(ace, creds, attrs, isOwner, isGroup);
  }

  function OwnerBits(): bv32 {
    Or(Or(WRITE_ACL, READ_ACL), Or(WRITE_ATTR, READ_ATTR))
  }

  lemma HasOwnerBits(b: bv32)
    requires Single(b)
    ensures Has(Or(WRITE_ACL, READ_ACL), b) <==> b == WRITE_ACL || b == READ_ACL
    ensures Has(Or(WRITE_ATTR, READ_ATTR), b) <==> b == WRITE_ATTR || b == READ_ATTR
    ensures Has(OwnerBits(), b) <==> OwnerBit(b)
  {
    hide Has, Single, Or;
    Singles();
    HasSingle(WRITE_ACL, b);
    HasSingle(READ_ACL, b);
    HasSingle(WRITE_ATTR, b);
    HasSingle(READ_ATTR, b);
    HasOr(WRITE_ACL, READ_ACL, b);
    HasOr(WRITE_ATTR, READ_ATTR, b);
    HasOr(Or(WRITE_ACL, READ_ACL), Or(WRITE_ATTR, READ_ATTR), b);
  }

  lemma Singles()
    ensures Single(WRITE_ACL) && Single(READ_ACL) && Single(WRITE_ATTR) && Single(READ_ATTR)
    ensures Single(EXECUTE) && Single(CONTINUE)
  {
  }

  /** The masks before the first entry is read. */
  method Start(q: Query, wantAllowed: bool) returns (missing: bv32, allowed: bv32, ghost shadow: bv32)
    ensures q.Scanned(0, missing, shadow, 0) && allowed == if wantAllowed then shadow else 0
  {
    var v4mask := q.v4mask;
    var isRoot, isOwner := q.creds.uid == 0, q.creds.uid == q.attrs.owner;
    missing, allowed, shadow := Minus(v4mask, CONTINUE), 0, 0;
    if isRoot {
      if q.attrs.isDir && wantAllowed {
        allowed := v4mask;
      }
      missing := And(missing, EXECUTE);
      shadow := Minus(v4mask, EXECUTE);
      if wantAllowed {
        allowed := Minus(v4mask, EXECUTE);
      }
    }
    if isOwner {
      shadow := Or(shadow, And(v4mask, OwnerBits()));
      if wantAllowed {
        allowed := Or(allowed, And(v4mask, OwnerBits()));
      }
      missing := Minus(missing, Or(WRITE_ACL, READ_ACL));
      missing := Minus(missing, Or(WRITE_ATTR, READ_ATTR));
    }
    StartScanned(q, isRoot, isOwner, missing, shadow);
  }

  function StartMissing(v4mask: bv32, isRoot: bool, isOwner: bool): bv32 {
    var m := Minus(v4mask, CONTINUE);
    var n := if isRoot then And(m, EXECUTE) else m;
    if isOwner then Minus(Minus(n, Or(WRITE_ACL, READ_ACL)), Or(WRITE_ATTR, READ_ATTR)) else n
  }

  function StartAllowed(v4mask: bv32, isRoot: bool, isOwner: bool): bv32 {
    var a := if isRoot then Minus(v4mask, EXECUTE) else 0;
    if isOwner then Or(a, And(v4mask, OwnerBits())) else a
  }

  lemma StartScanned(q: Query, isRoot: bool, isOwner: bool, missing: bv32, allowed: bv32)
    requires isRoot == (q.creds.uid == 0) && isOwner == (q.creds.uid == q.attrs.owner)
    requires missing == StartMissing(q.v4mask, isRoot, isOwner)
    requires allowed == StartAllowed(q.v4mask, isRoot, isOwner)
    ensures q.Scanned(0, missing, allowed, 0)
  {
    hide Has, Single, Or, And, Minus, OwnerBits;
    forall b | Single(b)
      ensures q.BitIs(0, missing, allowed, 0, b)
    {
      StartBit(q, isRoot, isOwner, missing, allowed, b);
    }
  }

  lemma StartBit(q: Query, isRoot: bool, isOwner: bool, missing: bv32, allowed: bv32, b: bv32)
    requires isRoot == (q.creds.uid == 0) && isOwner == (q.creds.uid == q.attrs.owner) && Single(b)
    requires missing == StartMissing(q.v4mask, isRoot, isOwner)
    requires allowed == StartAllowed(q.v4mask, isRoot, isOwner)
    ensures q.BitIs(0, missing, allowed, 0, b)
  {
    hide Has, Single, Or, And, Minus, OwnerBits, StartMissing, StartAllowed, Implicit;
    NoBit(b);
    StartMissingBit(q.v4mask, isRoot, isOwner, b);
    StartAllowedBit(q.v4mask, isRoot, isOwner, b);
    ImplicitBit(q, isRoot, isOwner, b);
  }

  lemma ImplicitBit(q: Query, isRoot: bool, isOwner: bool, b: bv32)
    requires isRoot == (q.creds.uid == 0) && isOwner == (q.creds.uid == q.attrs.owner)
    ensures Implicit(q.creds, q.attrs, b) <==> (isRoot && !Has(EXECUTE, b)) || (isOwner && OwnerBit(b))
  {
  }

  lemma StartMissingBit(v4mask: bv32, isRoot: bool, isOwner: bool, b: bv32)
    requires Single(b)
    ensures Has(StartMissing(v4mask, isRoot, isOwner), b)
       <==> Has(v4mask, b) && b != CONTINUE && (isRoot ==> Has(EXECUTE, b)) && (isOwner ==> !OwnerBit(b))
  {
    hide Has, Single, Or, And, Minus, OwnerBits;
    Singles();
    HasOwnerBits(b);
    HasSingle(CONTINUE, b);
    HasMinus(v4mask, CONTINUE, b);
    var m := Minus(v4mask, CONTINUE);
    HasAnd(m, EXECUTE, b);
    var n := if isRoot then And(m, EXECUTE) else m;
    HasMinus(n, Or(WRITE_ACL, READ_ACL), b);
    HasMinus(Minus(n, Or(WRITE_ACL, READ_ACL)), Or(WRITE_ATTR, READ_ATTR), b);
  }

  lemma StartAllowedBit(v4mask: bv32, isRoot: bool, isOwner: bool, b: bv32)
    requires Single(b)
    ensures Has(StartAllowed(v4mask, isRoot, isOwner), b)
       <==> Has(v4mask, b) && ((isRoot && !Has(EXECUTE, b)) || (isOwner && OwnerBit(b)))
  {
    hide Has, Single, Or, And, Minus, OwnerBits;
    NoBit(b);
    HasOwnerBits(b);
    HasMinus(v4mask, EXECUTE, b);
    HasAnd(v4mask, OwnerBits(), b);
    HasOr(if isRoot then Minus(v4mask, EXECUTE) else 0, And(v4mask, OwnerBits()), b);
  }

  /** An allowing or denying entry that applies says so of every bit it names, except denials to the superuser. */
  lemma EntrySays(q: Query, i: nat)
    requires i < |q.attrs.acl|
    ensures var ace := q.attrs.acl[i]; AceApplicable(ace, q.creds, q.attrs) && ace.aceType == ALLOW ==>
      forall b :: q.SaysAt(i, b) == if Has(ace.perm, b) then Allowed else Undecided
    ensures var ace := q.attrs.acl[i]; AceApplicable(ace, q.creds, q.attrs) && ace.aceType == DENY && q.creds.uid != 0 ==>
      forall b :: q.SaysAt(i, b) == if Has(ace.perm, b) then Denied else Undecided
    ensures var ace := q.attrs.acl[i];
      !AceApplicable(ace, q.creds, q.attrs) || (ace.aceType != ALLOW && (ace.aceType != DENY || q.creds.uid == 0)) ==>
      forall b :: q.SaysAt(i, b).Undecided?
  {
    hide Has, AceApplicable;
  }

  /** A denial that meets no missing bit changes nothing and blocks nothing. */
  lemma DenialMisses(q: Query, i: nat, missing: bv32, allowed: bv32, denied: bv32)
    requires i < |q.attrs.acl| && q.Scanned(i, missing, allowed, denied)
    requires forall b :: q.SaysAt(i, b) == if Has(q.attrs.acl[i].perm, b) then Denied else Undecided
    requires And(q.attrs.acl[i].perm, missing) == 0
    ensures q.Scanned(i + 1, missing, allowed, denied) && !q.Blocks(i)
  {
    hide Has, And, Single, Says, FirstMatch, Implicit, Requested;
    var perm := q.attrs.acl[i].perm;
    forall b | Single(b)
      ensures q.SaysAt(i, b).Undecided? || (q.SaysAt(i, b).Denied? && !Has(missing, b))
    {
      NoBit(b);
      HasAnd(perm, missing, b);
    }
    q.IdleStep(i, missing, allowed, denied);
    forall b | q.Wanted(b) && q.After(i, b).Undecided?
      ensures !q.SaysAt(i, b).Denied?
    {
      q.WantedIsSingle(b);
      assert q.BitIs(i, missing, allowed, denied, b);
    }
  }

  lemma MinusNothing(x: bv32)
    ensures Minus(x, 0) == x
  {
  }

  lemma NoneBlocksNext(q: Query, i: nat)
    requires i < |q.attrs.acl|
    ensures q.NoneBlocks(i) && !q.Blocks(i) ==> q.NoneBlocks(i + 1)
  {
    hide Query.Blocks;
  }

  lemma BlockedCode(q: Query, i: nat, perm: bool)
    requires i < |q.attrs.acl| && q.NoneBlocks(i) && q.Blocks(i) && (perm <==> q.BlocksWrite(i))
    ensures q.CodeIs(false, perm)
  {
    hide Query.Blocks, Query.BlocksWrite;
    forall j | 0 <= j < |q.attrs.acl| && q.NoneBlocks(j) && q.Blocks(j)
      ensures j == i
    {
    }
  }

  /** Once nothing is missing, no entry can block. */
  lemma NoneBlocksLater(q: Query, i: nat, allowed: bv32, denied: bv32)
    requires i <= |q.attrs.acl| && q.Scanned(i, 0, allowed, denied)
    ensures forall j :: i <= j < |q.attrs.acl| ==> !q.Blocks(j)
  {
    hide Has, Single, Says, FirstMatch, Implicit, Requested;
    forall j | i <= j < |q.attrs.acl|
      ensures !q.Blocks(j)
    {
      forall b | q.Wanted(b)
        ensures !q.After(j, b).Undecided?
      {
        q.WantedIsSingle(b);
        NoBit(b);
        assert q.BitIs(i, 0, allowed, denied, b);
        assert q.attrs.acl[..j][..i] == q.attrs.acl[..i];
        FirstMatchStable(q.attrs.acl[..j], i, q.creds, q.attrs, b);
      }
    }
  }

  /** At the end of the scan `denied` is exactly what the blocking entries name. */
  lemma FinalDenied(q: Query, i: nat, missing: bv32, allowed: bv32, denied: bv32)
    requires i <= |q.attrs.acl| && q.Scanned(i, missing, allowed, denied) && q.DeniedAfter(i, denied)
    requires i == |q.attrs.acl| || missing == 0
    ensures q.DeniedExactly(denied)
  {
    hide Query.Blocks, Query.Scanned, Query.DeniedAfter, Query.DeniedExactly;
    if missing == 0 {
      NoneBlocksLater(q, i, allowed, denied);
    }
    q.DeniedLast(i, denied);
  }

  /** The report of an evaluation that was not stopped. */
  lemma FinalReport(q: Query, i: nat, missing: bv32, shadow: bv32, wantAllowed: bool, wantDenied: bool, allowed: bv32)
    requires i <= |q.attrs.acl| && q.Scanned(i, missing, shadow, 0) && q.NoneBlocks(i) && q.AllowedExactly(shadow)
    requires (i == |q.attrs.acl| || missing == 0) && (wantAllowed ==> allowed == shadow)
    ensures q.StoppedReport(wantAllowed, wantDenied, allowed, 0)
  {
    hide Query.Blocks, Query.Scanned, Query.AllowedExactly, Query.AllowedAfter;
    if missing == 0 {
      NoneBlocksLater(q, i, shadow, 0);
    }
    assert forall j :: 0 <= j < |q.attrs.acl| ==> !q.Blocks(j);
  }

  /** The report of an evaluation stopped at entry i. */
  lemma BlockedReport(q: Query, i: nat, missing: bv32, shadow: bv32, wantAllowed: bool, wantDenied: bool, allowed: bv32,
                      denied: bv32)
    requires i < |q.attrs.acl| && q.Scanned(i, missing, shadow, 0) && q.NoneBlocks(i) && q.Blocks(i)
    requires wantAllowed ==> allowed == shadow
    requires wantDenied ==> denied == Or(0, And(q.v4mask, q.attrs.acl[i].perm))
    ensures q.StoppedReport(wantAllowed, wantDenied, allowed, denied)
  {
    hide Query.Blocks, Query.BitIs, Has, Single, And, Or, Implicit;
    OrNothing(And(q.v4mask, q.attrs.acl[i].perm));
    AllowedSoFar(q, i, missing, shadow);
    forall j | 0 <= j < |q.attrs.acl| && q.NoneBlocks(j) && q.Blocks(j)
      ensures j == i
    {
    }
  }

  lemma AllowedSoFar(q: Query, i: nat, missing: bv32, shadow: bv32)
    requires i < |q.attrs.acl| && q.Scanned(i, missing, shadow, 0)
    ensures q.AllowedAfter(i, shadow)
  {
    hide Has, Single, Implicit, FirstMatch;
    forall b | Single(b)
      ensures q.BitIs(i, missing, shadow, 0, b)
    {
    }
  }

  lemma OrNothing(x: bv32)
    ensures Or(0, x) == x
  {
  }

  lemma FinalCode(q: Query, i: nat, missing: bv32, allowed: bv32, denied: bv32, goesOn: bool)
    requires i <= |q.attrs.acl| && q.Scanned(i, missing, allowed, denied)
    requires i == |q.attrs.acl| || missing == 0
    requires !goesOn ==> q.NoneBlocks(i)
    requires And(missing, WRITES) != 0 <==> q.LeavesWrite()
    ensures q.CodeIs(goesOn, And(missing, WRITES) != 0)
    ensures missing == 0 ==> And(missing, WRITES) == 0
  {
    hide Query.Blocks, Query.BlocksWrite, Query.LeavesWrite, Query.Scanned;
    if !goesOn && missing == 0 {
      NoneBlocksLater(q, i, allowed, denied);
    }
    if !goesOn {
      assert q.NoneBlocks(|q.attrs.acl|);
      assert forall j :: 0 <= j < |q.attrs.acl| ==> !q.Blocks(j);
    }
  }

  lemma NoneBlocksYet(q: Query)
    ensures q.NoneBlocks(0)
  {
  }

  /** An entry that says nothing, or only allows, blocks nothing. */
  lemma NoDenial(q: Query, i: nat)
    requires i < |q.attrs.acl| && forall b :: !q.SaysAt(i, b).Denied?
    ensures !q.Blocks(i)
  {
  }

  lemma SilentStep(q: Query, i: nat, missing: bv32, allowed: bv32, denied: bv32)
    requires i < |q.attrs.acl| && q.Scanned(i, missing, allowed, denied)
    requires forall b :: q.SaysAt(i, b).Undecided?
    ensures q.Scanned(i + 1, missing, allowed, denied) && !q.Blocks(i)
  {
    hide Has, Single, Says, FirstMatch;
    q.IdleStep(i, missing, allowed, denied);
  }

  method CheckAccessAcl(creds: Credentials, v4mask: bv32, wantAllowed: bool, wantDenied: bool, attrs: Attributes)
    returns (status: Status, allowed: bv32, denied: bv32)
    ensures status.Granted? <==> AllHeld(creds, attrs, v4mask)
    ensures status.Granted? ==> denied == 0
    ensures wantAllowed && (status.Granted? || (wantDenied && Has(v4mask, CONTINUE))) ==>
      Query(creds, attrs, v4mask).AllowedExactly(allowed)
    ensures wantDenied && Has(v4mask, CONTINUE) ==> Query(creds, attrs, v4mask).DeniedIncludes(denied)
    ensures if wantDenied && Has(v4mask, CONTINUE) then Query(creds, attrs, v4mask).DeniedExactly(denied)
            else Query(creds, attrs, v4mask).StoppedReport(wantAllowed, wantDenied, allowed, denied)
    ensures Query(creds, attrs, v4mask).CodeIs(wantDenied && Has(v4mask, CONTINUE), status.Perm?)
    ensures !wantAllowed ==> allowed == 0
    ensures !wantDenied ==> denied == 0
  {
    hide *;
    var q := Query(creds, attrs, v4mask);
    var aces := attrs.acl;
    var isRoot, isOwner := creds.uid == 0, creds.uid == attrs.owner;
    var isGroup := CheckAceGroup(attrs.group, creds);
    var goesOn := wantDenied && Has(v4mask, CONTINUE);
    var missing;
    ghost var shadow;
    denied := 0;
    missing, allowed, shadow := Start(q, wantAllowed);
    var i := 0;
    NoneBlocksYet(q);
    q.NothingNamed();
    while i < |aces|
      invariant 0 <= i <= |aces| && q.Scanned(i, missing, shadow, denied) && q.DeniedAfter(i, denied)
      invariant allowed == if wantAllowed then shadow else 0
      invariant !goesOn ==> denied == 0 && q.NoneBlocks(i)
      decreases |aces| - i
    {
      var ace := aces[i];
      ghost var was := i;
      var applicable := false;
      if ace.aceType == ALLOW || ace.aceType == DENY {
        applicable := CheckAceApplicable(ace, creds, attrs, isOwner, isGroup, isRoot);
      }
      EntrySays(q, i);
      if applicable && ace.aceType == ALLOW {
        var tperm := if wantDenied then Minus(ace.perm, denied) else ace.perm;
        MinusNothing(ace.perm);
        if wantAllowed {
          allowed := Or(allowed, And(v4mask, tperm));
        }
        q.AllowStep(i, missing, shadow, denied);
        NoDenial(q, i);
        q.DeniedSame(i, denied);
        missing, shadow := Minus(missing, And(tperm, missing)), Or(shadow, And(v4mask, tperm));
        NoneBlocksNext(q, i);
        i := i + 1;
        if missing == 0 {
          break;
        }
      } else if applicable && And(ace.perm, missing) != 0 && !isRoot {
        q.Blocked(i, missing, shadow, denied);
        q.DenyStep(i, missing, shadow, denied);
        q.DeniedMore(i, denied);
        if wantDenied {
          denied := Or(denied, And(v4mask, ace.perm));
        }
        if !goesOn {
          BlockedCode(q, i, And(And(ace.perm, missing), WRITES) != 0);
          BlockedReport(q, i, missing, shadow, wantAllowed, wantDenied, allowed, denied);
          if And(And(ace.perm, missing), WRITES) != 0 {
            return Perm, allowed, denied;
          } else {
            return Access, allowed, denied;
          }
        }
        missing := Minus(missing, And(ace.perm, missing));
        i := i + 1;
        if missing == 0 {
          break;
        }
      } else {
        if applicable && !isRoot {
          DenialMisses(q, i, missing, shadow, denied);
        } else {
          SilentStep(q, i, missing, shadow, denied);
        }
        NoneBlocksNext(q, i);
        q.DeniedSame(i, denied);
        i := i + 1;
      }
    }
    if goesOn {
      FinalDenied(q, i, missing, shadow, denied);
    }
    q.ScanDecides(i, missing, shadow, denied);
    q.ScanReports(i, missing, shadow, denied);
    q.ScanLeaves(i, missing, shadow, denied);
    FinalCode(q, i, missing, shadow, denied, goesOn);
    if !goesOn {
      FinalReport(q, i, missing, shadow, wantAllowed, wantDenied, allowed);
    }
    if missing != 0 || (wantDenied && denied != 0) {
      if And(missing, WRITES) != 0 {
        status := Perm;
      } else {
        status := Access;
      }
    } else {
      status := Granted;
    }
  }

  // ------------------------------------------------------------ the superuser

  ghost predicate SomeAllows(acl: seq<Ace>, creds: Credentials, attrs: Attributes, b: bv32) {
    exists i :: 0 <= i < |acl| && Says(acl[i], creds, attrs, b).Allowed?
  }

  /** Nothing is denied to the superuser, so any allowing entry will do. */
  lemma {:induction false} RootFirstMatch(acl: seq<Ace>, creds: Credentials, attrs: Attributes, b: bv32)
    requires creds.uid == 0
    ensures FirstMatch(acl, creds, attrs, b).Allowed? <==> SomeAllows(acl, creds, attrs, b)
    decreases |acl|
  {
    hide Has, AceApplicable;
    if acl != [] {
      var rest := acl[1..];
      RootFirstMatch(rest, creds, attrs, b);
      if Says(acl[0], creds, attrs, b).Undecided? {
        assert forall i :: 0 <= i < |rest| ==> rest[i] == acl[i + 1];
        assert forall i :: 0 < i < |acl| ==> acl[i] == rest[i - 1];
      }
    }
  }

  /**
   * On files and on directories alike, the superuser is granted everything but EXECUTE, and EXECUTE exactly when some
   * entry for this type of object allows it to anyone.
   */
  lemma RootVerdict(creds: Credentials, attrs: Attributes, v4mask: bv32)
    requires creds.uid == 0
    ensures AllHeld(creds, attrs, v4mask) <==> !Has(v4mask, EXECUTE) || SomeAllows(attrs.acl, creds, attrs, EXECUTE)
  {
    RootFirstMatch(attrs.acl, creds, attrs, EXECUTE);
    ExecuteOnly(creds, attrs, v4mask);
    forall b | Requested(v4mask, b) && b != EXECUTE
      ensures Holds(creds, attrs, b)
    {
      Singles();
      HasSingle(EXECUTE, b);
    }
  }

  lemma ExecuteOnly(creds: Credentials, attrs: Attributes, v4mask: bv32)
    requires creds.uid == 0
    ensures Requested(v4mask, EXECUTE) <==> Has(v4mask, EXECUTE)
    ensures !Implicit(creds, attrs, EXECUTE)
  {
    Singles();
    HasSingle(EXECUTE, EXECUTE);
  }

  /** Root privilege on a directory is meant to cover everything; a directory with an empty list refuses the search. */
  lemma RootRefusedOnDirectory()
    ensures var root := Credentials(0, 0, []);
      var dir := Attributes(0, 0, true, []);
      !AllHeld(root, dir, EXECUTE)
  {
    var root := Credentials(0, 0, []);
    var dir := Attributes(0, 0, true, []);
    RootVerdict(root, dir, EXECUTE);
  }
}
