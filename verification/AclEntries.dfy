/** Which entries of an access control list have a say, read off their flags: the
    evaluation gives the same verdict, report and error code without all the others,
    and an entry that has a say and comes first decides every bit it names. */
module AclEntries {
  import opened Acl

  /** An entry for future children of the object, not for the object. */
  predicate InheritOnly(ace: Ace) {
    ace.flag & 0x8 != 0
  }

  predicate ExcludesType(ace: Ace, isDir: bool) {
    ace.iflag & (if isDir then 0x2000_0000 else 0x4000_0000) != 0
  }

  /** OWNER@ to one who is not the owner, GROUP@ or a group to no member of it, a user to another user. */
  predicate ForSomeoneElse(ace: Ace, creds: Credentials, attrs: Attributes) {
    if ace.iflag & 0x8000_0000 != 0 then
      (ace.who == 1 ==> creds.uid != attrs.owner)
      && (ace.who == 2 ==> creds.gid != attrs.group && attrs.group !in creds.groups)
      && ace.who != 3
    else if ace.flag & 0x40 != 0 then creds.gid != ace.who && ace.who !in creds.groups
    else creds.uid != ace.who
  }

  predicate Irrelevant(ace: Ace, creds: Credentials, attrs: Attributes) {
    || InheritOnly(ace)
    || ExcludesType(ace, attrs.isDir)
    || (ace.aceType != 0 && ace.aceType != 1)
    || (if creds.uid == 0 then ace.aceType == 1 else ForSomeoneElse(ace, creds, attrs))
  }

  lemma MatchesMeans(ace: Ace, creds: Credentials, attrs: Attributes)
    ensures AceMatches(ace, creds, attrs) <==> !ForSomeoneElse(ace, creds, attrs)
  {
    hide Has;
    FlagsMean(ace);
  }

  lemma FlagsMean(ace: Ace)
    ensures Has(ace.flag, FLAG_INHERIT_ONLY) <==> InheritOnly(ace)
    ensures Has(ace.iflag, IFLAG_EXCLUDE_DIRS) <==> ExcludesType(ace, true)
    ensures Has(ace.iflag, IFLAG_EXCLUDE_FILES) <==> ExcludesType(ace, false)
    ensures Has(ace.iflag, IFLAG_SPECIAL_ID) <==> ace.iflag & 0x8000_0000 != 0
    ensures Has(ace.flag, FLAG_GROUP_ID) <==> ace.flag & 0x40 != 0
  {
  }

  /** An entry decides the bits it names, as its type says, unless it is irrelevant; then it decides none. */
  lemma EntryDecides(ace: Ace, creds: Credentials, attrs: Attributes, b: bv32)
    ensures Says(ace, creds, attrs, b)
         == if Irrelevant(ace, creds, attrs) || !Has(ace.perm, b) then Undecided
            else if ace.aceType == 0 then Allowed else Denied
  {
    hide Has, AceMatches, ForSomeoneElse, InheritOnly, ExcludesType;
    FlagsMean(ace);
    MatchesMeans(ace, creds, attrs);
  }

  // ------------------------------------------------------------ one entry less

  function Without(q: Query, k: nat): (p: Query)
    requires k < |q.attrs.acl|
    ensures |p.attrs.acl| == |q.attrs.acl| - 1
  {
    var acl := q.attrs.acl;
    q.(attrs := q.attrs.(acl := acl[..k] + acl[k + 1..]))
  }

  /** Where entry i was before entry k was taken out. */
  function Original(i: nat, k: nat): (o: nat) {
    if i < k then i else i + 1
  }

  /** Two evaluations that nobody can tell apart. */
  ghost predicate Alike(p: Query, q: Query) {
    && (AllHeld(p.creds, p.attrs, p.v4mask) <==> AllHeld(q.creds, q.attrs, q.v4mask))
    && (forall allowed :: p.AllowedExactly(allowed) <==> q.AllowedExactly(allowed))
    && (forall denied :: p.DeniedIncludes(denied) <==> q.DeniedIncludes(denied))
    && (forall denied :: p.DeniedExactly(denied) <==> q.DeniedExactly(denied))
    && (forall wantAllowed, wantDenied, allowed, denied ::
          p.StoppedReport(wantAllowed, wantDenied, allowed, denied)
          <==> q.StoppedReport(wantAllowed, wantDenied, allowed, denied))
    && (forall goesOn, perm :: p.CodeIs(goesOn, perm) <==> q.CodeIs(goesOn, perm))
  }

  /** What the rest of the list says does not depend on the list it stands in. */
  lemma {:induction false} FirstMatchElsewhere(acl: seq<Ace>, list: seq<Ace>, creds: Credentials, attrs: Attributes, b: bv32)
    ensures FirstMatch(acl, creds, attrs.(acl := list), b) == FirstMatch(acl, creds, attrs, b)
    decreases |acl|
  {
    hide Has;
    if acl != [] {
      FirstMatchElsewhere(acl[1..], list, creds, attrs, b);
    }
  }

  lemma {:induction false} AfterWithout(q: Query, k: nat, i: nat, b: bv32)
    requires k < |q.attrs.acl| && i < |q.attrs.acl| && Irrelevant(q.attrs.acl[k], q.creds, q.attrs)
    ensures Without(q, k).After(i, b) == q.After(Original(i, k), b)
    decreases i
  {
    hide FirstMatch, Says, Irrelevant;
    var p := Without(q, k);
    if i <= k {
      assert p.attrs.acl[..i] == q.attrs.acl[..i];
      FirstMatchElsewhere(q.attrs.acl[..i], p.attrs.acl, q.creds, q.attrs, b);
      if i == k {
        EntryDecides(q.attrs.acl[k], q.creds, q.attrs, b);
        q.AfterNext(k, b);
      }
    } else {
      AfterWithout(q, k, i - 1, b);
      p.AfterNext(i - 1, b);
      q.AfterNext(i, b);
      SaysWithout(q, k, i - 1, b);
    }
  }

  lemma SaysWithout(q: Query, k: nat, i: nat, b: bv32)
    requires k < |q.attrs.acl| && i < |q.attrs.acl| - 1
    ensures Without(q, k).attrs.acl[i] == q.attrs.acl[Original(i, k)]
    ensures Without(q, k).SaysAt(i, b) == q.SaysAt(Original(i, k), b)
  {
    hide Has;
  }

  lemma WantedWithout(q: Query, k: nat, b: bv32)
    requires k < |q.attrs.acl|
    ensures Without(q, k).Wanted(b) <==> q.Wanted(b)
  {
    hide Has;
  }

  lemma BlocksWithout(q: Query, k: nat, i: nat)
    requires k < |q.attrs.acl| && i < |q.attrs.acl| - 1 && Irrelevant(q.attrs.acl[k], q.creds, q.attrs)
    ensures Without(q, k).Blocks(i) <==> q.Blocks(Original(i, k))
    ensures Without(q, k).BlocksWrite(i) <==> q.BlocksWrite(Original(i, k))
  {
    hide Without, Irrelevant, Query.Wanted, Query.After, Query.SaysAt, Has;
    var p := Without(q, k);
    forall b
      ensures p.Wanted(b) == q.Wanted(b) && p.After(i, b) == q.After(Original(i, k), b)
      ensures p.SaysAt(i, b) == q.SaysAt(Original(i, k), b)
    {
      WantedWithout(q, k, b);
      AfterWithout(q, k, i, b);
      SaysWithout(q, k, i, b);
    }
  }

  lemma IrrelevantBlocksNone(q: Query, k: nat)
    requires k < |q.attrs.acl| && Irrelevant(q.attrs.acl[k], q.creds, q.attrs)
    ensures !q.Blocks(k)
  {
    hide Irrelevant, Has, Query.After, Says, Query.Wanted;
    forall b
      ensures q.SaysAt(k, b).Undecided?
    {
      EntryDecides(q.attrs.acl[k], q.creds, q.attrs, b);
    }
  }

  lemma NoneBlocksWithout(q: Query, k: nat, i: nat)
    requires k < |q.attrs.acl| && i < |q.attrs.acl| && Irrelevant(q.attrs.acl[k], q.creds, q.attrs)
    ensures Without(q, k).NoneBlocks(i) <==> q.NoneBlocks(Original(i, k))
  {
    hide Without, Irrelevant, Query.Blocks, Query.BlocksWrite;
    var p := Without(q, k);
    IrrelevantBlocksNone(q, k);
    forall j: nat | j < i
      ensures p.Blocks(j) <==> q.Blocks(Original(j, k))
    {
      BlocksWithout(q, k, j);
    }
    if p.NoneBlocks(i) {
      forall j: nat | j < Original(i, k)
        ensures !q.Blocks(j)
      {
        if j != k {
          var before := if j < k then j else j - 1;
          assert Original(before, k) == j && !p.Blocks(before);
        }
      }
    }
    if q.NoneBlocks(Original(i, k)) {
      forall j: nat | j < i
        ensures !p.Blocks(j)
      {
        assert !q.Blocks(Original(j, k));
      }
    }
  }

  // ------------------------------------------------------------ every part of the result

  lemma FirstMatchWithout(q: Query, k: nat, b: bv32)
    requires k < |q.attrs.acl| && Irrelevant(q.attrs.acl[k], q.creds, q.attrs)
    ensures var p := Without(q, k);
      FirstMatch(p.attrs.acl, p.creds, p.attrs, b) == FirstMatch(q.attrs.acl, q.creds, q.attrs, b)
  {
    hide FirstMatch, Irrelevant;
    var p := Without(q, k);
    AfterWithout(q, k, |p.attrs.acl|, b);
    assert p.attrs.acl[..|p.attrs.acl|] == p.attrs.acl && q.attrs.acl[..|q.attrs.acl|] == q.attrs.acl;
  }

  lemma HoldsWithout(q: Query, k: nat)
    requires k < |q.attrs.acl| && Irrelevant(q.attrs.acl[k], q.creds, q.attrs)
    ensures var p := Without(q, k);
      && (AllHeld(p.creds, p.attrs, p.v4mask) <==> AllHeld(q.creds, q.attrs, q.v4mask))
      && (p.LeavesWrite() <==> q.LeavesWrite())
      && (forall allowed :: p.AllowedExactly(allowed) <==> q.AllowedExactly(allowed))
      && (forall denied :: p.DeniedIncludes(denied) <==> q.DeniedIncludes(denied))
  {
    hide Irrelevant, FirstMatch, Implicit, Has, Single;
    var p := Without(q, k);
    forall b
      ensures FirstMatch(p.attrs.acl, p.creds, p.attrs, b) == FirstMatch(q.attrs.acl, q.creds, q.attrs, b)
      ensures Implicit(p.creds, p.attrs, b) == Implicit(q.creds, q.attrs, b)
    {
      FirstMatchWithout(q, k, b);
      ImplicitElsewhere(q, k, b);
    }
  }

  lemma ImplicitElsewhere(q: Query, k: nat, b: bv32)
    requires k < |q.attrs.acl|
    ensures var p := Without(q, k); Implicit(p.creds, p.attrs, b) == Implicit(q.creds, q.attrs, b)
  {
  }

  lemma NamedWithout(q: Query, k: nat, b: bv32)
    requires k < |q.attrs.acl| && Irrelevant(q.attrs.acl[k], q.creds, q.attrs)
    ensures var p := Without(q, k); p.Named(|p.attrs.acl|, b) <==> q.Named(|q.attrs.acl|, b)
  {
    hide Without, Irrelevant, Query.Blocks, Query.BlocksWrite, Has;
    var p := Without(q, k);
    IrrelevantBlocksNone(q, k);
    forall j: nat | j < |p.attrs.acl|
      ensures (p.Blocks(j) <==> q.Blocks(Original(j, k))) && p.attrs.acl[j] == q.attrs.acl[Original(j, k)]
    {
      BlocksWithout(q, k, j);
      SaysWithout(q, k, j, b);
    }
    if q.Named(|q.attrs.acl|, b) {
      var j :| 0 <= j < |q.attrs.acl| && q.Blocks(j) && Has(q.attrs.acl[j].perm, b);
      var before := if j < k then j else j - 1;
      assert Original(before, k) == j && p.Blocks(before);
    }
  }

  lemma DeniedWithout(q: Query, k: nat, denied: bv32)
    requires k < |q.attrs.acl| && Irrelevant(q.attrs.acl[k], q.creds, q.attrs)
    ensures Without(q, k).DeniedExactly(denied) <==> q.DeniedExactly(denied)
  {
    hide Irrelevant, Query.Named, Has, Single;
    var p := Without(q, k);
    forall b
      ensures p.Named(|p.attrs.acl|, b) <==> q.Named(|q.attrs.acl|, b)
    {
      NamedWithout(q, k, b);
    }
  }

  /** Entry i of the shorter list blocks first exactly when its original does. */
  lemma FirstBlockWithout(q: Query, k: nat, i: nat)
    requires k < |q.attrs.acl| && i < |q.attrs.acl| - 1 && Irrelevant(q.attrs.acl[k], q.creds, q.attrs)
    ensures var p, o := Without(q, k), Original(i, k);
      && (p.NoneBlocks(i) && p.Blocks(i) <==> q.NoneBlocks(o) && q.Blocks(o))
      && (p.BlocksWrite(i) <==> q.BlocksWrite(o))
      && p.attrs.acl[i].perm == q.attrs.acl[o].perm
      && (forall allowed :: p.AllowedAfter(i, allowed) <==> q.AllowedAfter(o, allowed))
  {
    hide Irrelevant, Query.Blocks, Query.BlocksWrite, Query.After, Implicit, Has, Single;
    var p, o := Without(q, k), Original(i, k);
    NoneBlocksWithout(q, k, i);
    BlocksWithout(q, k, i);
    SaysWithout(q, k, i, 0);
    forall b
      ensures p.After(i, b) == q.After(o, b) && Implicit(p.creds, p.attrs, b) == Implicit(q.creds, q.attrs, b)
    {
      AfterWithout(q, k, i, b);
      ImplicitElsewhere(q, k, b);
    }
  }

  lemma StoppedWithout(q: Query, k: nat, wantAllowed: bool, wantDenied: bool, allowed: bv32, denied: bv32)
    requires k < |q.attrs.acl| && Irrelevant(q.attrs.acl[k], q.creds, q.attrs)
    ensures Without(q, k).StoppedReport(wantAllowed, wantDenied, allowed, denied)
       <==> q.StoppedReport(wantAllowed, wantDenied, allowed, denied)
  {
    hide Irrelevant, Query.Blocks, Query.BlocksWrite, Query.AllowedAfter, Query.NoneBlocks, Query.AllowedExactly, And;
    var p := Without(q, k);
    HoldsWithout(q, k);
    NoneBlocksWithout(q, k, |p.attrs.acl|);
    IrrelevantBlocksNone(q, k);
    forall i: nat | i < |p.attrs.acl|
      ensures p.NoneBlocks(i) && p.Blocks(i) <==> q.NoneBlocks(Original(i, k)) && q.Blocks(Original(i, k))
      ensures p.attrs.acl[i].perm == q.attrs.acl[Original(i, k)].perm
      ensures p.AllowedAfter(i, allowed) <==> q.AllowedAfter(Original(i, k), allowed)
    {
      FirstBlockWithout(q, k, i);
    }
    if p.StoppedReport(wantAllowed, wantDenied, allowed, denied) {
      forall o: nat | o < |q.attrs.acl| && q.NoneBlocks(o) && q.Blocks(o)
        ensures wantAllowed ==> q.AllowedAfter(o, allowed)
        ensures wantDenied ==> denied == And(q.v4mask, q.attrs.acl[o].perm)
      {
        var i := if o < k then o else o - 1;
        assert Original(i, k) == o && p.Blocks(i);
      }
    }
    if q.StoppedReport(wantAllowed, wantDenied, allowed, denied) {
      forall i: nat | i < |p.attrs.acl| && p.NoneBlocks(i) && p.Blocks(i)
        ensures wantAllowed ==> p.AllowedAfter(i, allowed)
        ensures wantDenied ==> denied == And(p.v4mask, p.attrs.acl[i].perm)
      {
        assert q.Blocks(Original(i, k));
      }
    }
  }

  lemma CodeWithout(q: Query, k: nat, goesOn: bool, perm: bool)
    requires k < |q.attrs.acl| && Irrelevant(q.attrs.acl[k], q.creds, q.attrs)
    ensures Without(q, k).CodeIs(goesOn, perm) <==> q.CodeIs(goesOn, perm)
  {
    hide Irrelevant, Query.Blocks, Query.BlocksWrite, Query.NoneBlocks, Query.LeavesWrite, Query.AllowedExactly;
    var p := Without(q, k);
    HoldsWithout(q, k);
    NoneBlocksWithout(q, k, |p.attrs.acl|);
    IrrelevantBlocksNone(q, k);
    forall i: nat | i < |p.attrs.acl|
      ensures p.NoneBlocks(i) && p.Blocks(i) <==> q.NoneBlocks(Original(i, k)) && q.Blocks(Original(i, k))
      ensures p.BlocksWrite(i) <==> q.BlocksWrite(Original(i, k))
    {
      FirstBlockWithout(q, k, i);
    }
    if p.CodeIs(goesOn, perm) {
      forall o: nat | !goesOn && o < |q.attrs.acl| && q.NoneBlocks(o) && q.Blocks(o)
        ensures perm <==> q.BlocksWrite(o)
      {
        var i := if o < k then o else o - 1;
        assert Original(i, k) == o && p.Blocks(i);
      }
    }
    if q.CodeIs(goesOn, perm) {
      forall i: nat | !goesOn && i < |p.attrs.acl| && p.NoneBlocks(i) && p.Blocks(i)
        ensures perm <==> p.BlocksWrite(i)
      {
        assert q.Blocks(Original(i, k));
      }
    }
  }

  /** An entry that has no say can be taken out. */
  lemma IrrelevantEntry(q: Query, k: nat)
    requires k < |q.attrs.acl| && Irrelevant(q.attrs.acl[k], q.creds, q.attrs)
    ensures Alike(Without(q, k), q)
  {
    hide Irrelevant, Query.AllowedExactly, Query.DeniedIncludes, Query.DeniedExactly, Query.StoppedReport, Query.CodeIs,
      AllHeld, Without;
    HoldsWithout(q, k);
    forall denied
      ensures Without(q, k).DeniedExactly(denied) <==> q.DeniedExactly(denied)
    {
      DeniedWithout(q, k, denied);
    }
    forall wantAllowed, wantDenied, allowed, denied
      ensures Without(q, k).StoppedReport(wantAllowed, wantDenied, allowed, denied)
         <==> q.StoppedReport(wantAllowed, wantDenied, allowed, denied)
    {
      StoppedWithout(q, k, wantAllowed, wantDenied, allowed, denied);
    }
    forall goesOn, perm
      ensures Without(q, k).CodeIs(goesOn, perm) <==> q.CodeIs(goesOn, perm)
    {
      CodeWithout(q, k, goesOn, perm);
    }
  }

  // ------------------------------------------------------------ all of them

  function Kept(acl: seq<Ace>, drop: Ace -> bool): (kept: seq<Ace>)
    ensures forall ace :: ace in kept <==> ace in acl && !drop(ace)
  {
    if acl == [] then []
    else (if drop(acl[0]) then [] else [acl[0]]) + Kept(acl[1..], drop)
  }

  /** The evaluation on the entries that remain. */
  function Thinned(q: Query, drop: Ace -> bool): (p: Query) {
    q.(attrs := q.attrs.(acl := Kept(q.attrs.acl, drop)))
  }

  ghost function ThinnedFrom(q: Query, drop: Ace -> bool, i: nat): (p: Query)
    requires i <= |q.attrs.acl|
  {
    q.(attrs := q.attrs.(acl := q.attrs.acl[..i] + Kept(q.attrs.acl[i..], drop)))
  }

  lemma AlikeTransitive(p: Query, q: Query, r: Query)
    requires Alike(p, q) && Alike(q, r)
    ensures Alike(p, r)
  {
    hide Query.AllowedExactly, Query.DeniedIncludes, Query.DeniedExactly, Query.StoppedReport, Query.CodeIs, AllHeld;
  }

  lemma {:induction false} ThinnedAlike(q: Query, drop: Ace -> bool, i: nat)
    requires i <= |q.attrs.acl| && forall ace :: ace in q.attrs.acl && drop(ace) ==> Irrelevant(ace, q.creds, q.attrs)
    ensures Alike(ThinnedFrom(q, drop, i), q)
    decreases |q.attrs.acl| - i
  {
    hide Alike, Irrelevant;
    var acl := q.attrs.acl;
    if i == |acl| {
      assert acl[..i] + Kept(acl[i..], drop) == acl;
      AlikeSelf(q);
    } else {
      ThinnedAlike(q, drop, i + 1);
      ThinnedOnce(q, drop, i);
      AlikeTransitive(ThinnedFrom(q, drop, i), ThinnedFrom(q, drop, i + 1), q);
    }
  }

  lemma ThinnedOnce(q: Query, drop: Ace -> bool, i: nat)
    requires i < |q.attrs.acl| && (drop(q.attrs.acl[i]) ==> Irrelevant(q.attrs.acl[i], q.creds, q.attrs))
    ensures Alike(ThinnedFrom(q, drop, i), ThinnedFrom(q, drop, i + 1))
  {
    hide Alike, Irrelevant, Kept;
    var acl := q.attrs.acl;
    var before, after := ThinnedFrom(q, drop, i), ThinnedFrom(q, drop, i + 1);
    KeptFrom(acl, drop, i);
    var rest := Kept(acl[i + 1..], drop);
    assert after.attrs.acl == acl[..i] + [acl[i]] + rest;
    if drop(acl[i]) {
      IrrelevantElsewhere(acl[i], q.creds, q.attrs, after.attrs.acl);
      IrrelevantEntry(after, i);
      assert Without(after, i).attrs.acl == before.attrs.acl;
    } else {
      assert before.attrs.acl == after.attrs.acl;
      AlikeSelf(before);
    }
  }

  lemma KeptFrom(acl: seq<Ace>, drop: Ace -> bool, i: nat)
    requires i < |acl|
    ensures Kept(acl[i..], drop) == (if drop(acl[i]) then [] else [acl[i]]) + Kept(acl[i + 1..], drop)
  {
    assert acl[i..][1..] == acl[i + 1..];
  }

  lemma AlikeSelf(q: Query)
    ensures Alike(q, q)
  {
    hide Query.AllowedExactly, Query.DeniedIncludes, Query.DeniedExactly, Query.StoppedReport, Query.CodeIs, AllHeld;
  }

  lemma IrrelevantElsewhere(ace: Ace, creds: Credentials, attrs: Attributes, list: seq<Ace>)
    ensures Irrelevant(ace, creds, attrs.(acl := list)) <==> Irrelevant(ace, creds, attrs)
  {
  }

  /** Any entries that have no say can be taken out together. */
  lemma IrrelevantEntries(q: Query, drop: Ace -> bool)
    requires forall ace :: ace in q.attrs.acl && drop(ace) ==> Irrelevant(ace, q.creds, q.attrs)
    ensures Alike(Thinned(q, drop), q)
  {
    hide Alike, Irrelevant;
    ThinnedAlike(q, drop, 0);
    assert q.attrs.acl[0..] == q.attrs.acl && ThinnedFrom(q, drop, 0).attrs.acl == Thinned(q, drop).attrs.acl;
  }

  /** Entries that only children inherit do not matter to anybody, nor do those that exclude the type of the object. */
  lemma NotForThisObject(q: Query)
    ensures Alike(Thinned(q, ace => InheritOnly(ace)), q)
    ensures Alike(Thinned(q, ace => ExcludesType(ace, q.attrs.isDir)), q)
  {
    hide Alike;
    IrrelevantEntries(q, ace => InheritOnly(ace));
    IrrelevantEntries(q, ace => ExcludesType(ace, q.attrs.isDir));
  }

  /** Entries for others do not matter, except to root. */
  lemma NotForThisCaller(q: Query)
    requires q.creds.uid != 0
    ensures Alike(Thinned(q, ace => ForSomeoneElse(ace, q.creds, q.attrs)), q)
  {
    hide Alike;
    IrrelevantEntries(q, ace => ForSomeoneElse(ace, q.creds, q.attrs));
  }

  /** Denials do not matter to root. */
  lemma DenialsSpareRoot(q: Query)
    requires q.creds.uid == 0
    ensures Alike(Thinned(q, (ace: Ace) => ace.aceType == 1), q)
  {
    hide Alike;
    IrrelevantEntries(q, (ace: Ace) => ace.aceType == 1);
  }

  // ------------------------------------------------------------ the entries that matter

  /** An entry with a say, put first, decides what it names; what it does not name is decided as before. */
  lemma FirstEntryDecides(ace: Ace, creds: Credentials, attrs: Attributes, b: bv32)
    requires !Irrelevant(ace, creds, attrs)
    ensures var longer := attrs.(acl := [ace] + attrs.acl);
      Holds(creds, longer, b)
      <==> Implicit(creds, attrs, b) || (if Has(ace.perm, b) then ace.aceType == 0
                                         else FirstMatch(attrs.acl, creds, attrs, b).Allowed?)
  {
    hide FirstMatch;
    var longer := attrs.(acl := [ace] + attrs.acl);
    assert longer.acl[0] == ace && longer.acl[1..] == attrs.acl;
    FirstMatchFirst(longer.acl, creds, longer, b);
    FirstMatchElsewhere(attrs.acl, longer.acl, creds, attrs, b);
    EntryDecides(ace, creds, longer, b);
    IrrelevantElsewhere(ace, creds, attrs, longer.acl);
  }

  lemma FirstMatchFirst(acl: seq<Ace>, creds: Credentials, attrs: Attributes, b: bv32)
    requires acl != []
    ensures FirstMatch(acl, creds, attrs, b)
         == if Says(acl[0], creds, attrs, b).Undecided? then FirstMatch(acl[1..], creds, attrs, b)
            else Says(acl[0], creds, attrs, b)
  {
  }

  /** An EVERYONE@ entry that allows, put first, grants everyone what it names. */
  lemma EveryoneAllowed(perm: bv32, creds: Credentials, attrs: Attributes)
    ensures AllHeld(creds, attrs.(acl := [Ace(0, perm, 0, 0x8000_0000, 3)] + attrs.acl), perm)
  {
    hide Holds, FirstMatch;
    var ace := Ace(0, perm, 0, 0x8000_0000, 3);
    assert !Irrelevant(ace, creds, attrs);
    forall b | Requested(perm, b)
      ensures Holds(creds, attrs.(acl := [ace] + attrs.acl), b)
    {
      FirstEntryDecides(ace, creds, attrs, b);
    }
  }

  /** Without a list, the owner may read and write attributes and list, and others may do nothing. */
  lemma NoListNoRights(creds: Credentials, attrs: Attributes, b: bv32)
    requires attrs.acl == [] && creds.uid != 0
    ensures Holds(creds, attrs, b) <==> creds.uid == attrs.owner && b in {0x4_0000, 0x2_0000, 0x100, 0x80}
  {
  }

  /** And the list cannot take these from the owner. */
  lemma OwnerKeepsRights(creds: Credentials, attrs: Attributes, b: bv32)
    requires creds.uid == attrs.owner && b in {0x4_0000, 0x2_0000, 0x100, 0x80}
    ensures Holds(creds, attrs, b)
  {
  }

  // ------------------------------------------------------------ the error code

  /** To write attributes, the list or the owner. */
  lemma WritesAre(b: bv32)
    requires Single(b)
    ensures Has(WRITES, b) <==> b in {0x100, 0x4_0000, 0x8_0000}
  {
    HasWrites(b);
  }

  lemma HasWrites(b: bv32)
    requires b & (b - 1) == 0
    ensures 0xC_0100 & b != 0 <==> b == 0x100 || b == 0x4_0000 || b == 0x8_0000
  {
  }

  /** PERM is only ever said to one who asked to write attributes, list or owner and does not hold it anyway. */
  lemma PermIsOfWrites(q: Query, goesOn: bool)
    requires q.CodeIs(goesOn, true)
    ensures exists b :: b in {0x100, 0x4_0000, 0x8_0000} && q.Wanted(b)
  {
    hide Has, Single, Implicit, Says, FirstMatch;
    var b: bv32;
    if goesOn || q.NoneBlocks(|q.attrs.acl|) {
      b :| q.Wanted(b) && Has(WRITES, b) && FirstMatch(q.attrs.acl, q.creds, q.attrs, b).Undecided?;
    } else {
      var i := FirstBlock(q, |q.attrs.acl|);
      assert q.BlocksWrite(i);
      b :| q.Wanted(b) && Has(WRITES, b) && q.After(i, b).Undecided? && q.SaysAt(i, b).Denied?;
    }
    WritesAre(b);
  }

  lemma {:induction false} FirstBlock(q: Query, n: nat) returns (i: nat)
    requires n <= |q.attrs.acl| && !q.NoneBlocks(n)
    ensures i < n && q.NoneBlocks(i) && q.Blocks(i)
  {
    hide Query.Blocks;
    if q.NoneBlocks(n - 1) {
      i := n - 1;
    } else {
      i := FirstBlock(q, n - 1);
    }
  }

  /** And with no list it is said of each of these that the caller asks for, except what the owner holds anyway. */
  lemma NoListCode(q: Query, goesOn: bool, perm: bool)
    requires q.attrs.acl == [] && q.creds.uid != 0
    ensures q.CodeIs(goesOn, perm)
       <==> (perm <==> Has(q.v4mask, 0x8_0000)
                       || (q.creds.uid != q.attrs.owner && (Has(q.v4mask, 0x100) || Has(q.v4mask, 0x4_0000))))
  {
    hide Has, Single;
    forall b | Single(b)
      ensures Has(WRITES, b) <==> b in {0x100, 0x4_0000, 0x8_0000}
    {
      WritesAre(b);
    }
    SinglesAre();
    assert q.LeavesWrite() <==> q.Wanted(0x100) || q.Wanted(0x4_0000) || q.Wanted(0x8_0000);
  }

  lemma SinglesAre()
    ensures Single(0x100) && Single(0x4_0000) && Single(0x8_0000)
  {
  }
}
