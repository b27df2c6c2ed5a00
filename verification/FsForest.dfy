/** Parents of mounted file systems, and claiming a file system together with those mounted below it. */
module FsForest {
  import opened Options
  import opened Lists
  import opened FsIndex
  import opened FsRegistry

  // ------------------------------------------------------------ parents

  /** g could be the parent of x: its path is a proper prefix. */
  predicate Candidate(fss: Systems, x: nat, g: nat) {
    x in fss && g in fss && |fss[g].path| < |fss[x].path| && fss[g].path <= fss[x].path
  }

  predicate IsRoot(fs: Fs) {
    fs.path == "/"
  }

  /** p, at position k, is a candidate of greatest length, and the last listed of those. */
  ghost predicate IsBest(fss: Systems, list: seq<nat>, x: nat, p: nat, k: int)
    requires x in fss && forall g :: g in list ==> g in fss
  {
    0 <= k < |list| && list[k] == p && Candidate(fss, x, p)
    && (forall i :: 0 <= i < |list| && Candidate(fss, x, list[i]) ==> |fss[list[i]].path| <= |fss[p].path|)
    && (forall i :: k < i < |list| && Candidate(fss, x, list[i]) ==> |fss[list[i]].path| < |fss[p].path|)
  }

  /** The parent is the candidate with the longest path, the last listed if several are mounted there; the root has none. */
  ghost predicate IsParent(fss: Systems, list: seq<nat>, x: nat, parent: Option<nat>)
    requires x in fss && forall g :: g in list ==> g in fss
  {
    match parent
    case None => IsRoot(fss[x]) || forall g :: g in list ==> !Candidate(fss, x, g)
    case Some(p) => !IsRoot(fss[x]) && exists k :: IsBest(fss, list, x, p, k)
  }

  method FindParent(fss: Systems, list: seq<nat>, x: nat) returns (parent: Option<nat>)
    requires x in fss && forall g :: g in list ==> g in fss
    ensures IsParent(fss, list, x, parent)
  {
    parent := None;
    var self := fss[x];
    if |self.path| == 1 && self.path[0] == '/' {
      assert self.path == "/";
      return;
    }
    assert !IsRoot(self);
    var plen := 0;
    ghost var k := 0;
    for i := 0 to |list|
      invariant parent.None? ==> plen == 0 && forall j :: 0 <= j < i ==> !Candidate(fss, x, list[j])
      invariant parent.Some? ==> 0 <= k < i && list[k] == parent.value && Candidate(fss, x, parent.value)
      invariant parent.Some? ==> plen == |fss[parent.value].path|
      invariant forall j :: 0 <= j < i && Candidate(fss, x, list[j]) ==> |fss[list[j]].path| <= plen
      invariant parent.Some? ==> forall j :: k < j < i && Candidate(fss, x, list[j]) ==> |fss[list[j]].path| < plen
    {
      var fs := fss[list[i]];
      if |fs.path| >= |self.path| || |fs.path| < plen {
        continue;
      }
      if fs.path != self.path[..|fs.path|] {
        continue;
      }
      parent, plen, k := Some(list[i]), |fs.path|, i;
    }
    if parent.Some? {
      assert IsBest(fss, list, x, parent.value, k);
    }
  }

  // ------------------------------------------------------------ the forest

  /** Parent links go to shorter paths, and the lists of children say the same as the parent links. */
  ghost predicate Forest(fss: Systems) {
    (forall x :: x in fss && fss[x].parent.Some? ==>
      Candidate(fss, x, fss[x].parent.value) && x in fss[fss[x].parent.value].children)
    && (forall x, i :: x in fss && 0 <= i < |fss[x].children| ==>
      fss[x].children[i] in fss && fss[fss[x].children[i]].parent == Some(x))
    && (forall x :: x in fss ==> NoRepeats(fss[x].children))
  }

  /** Fields other than the links are as before. */
  ghost predicate SameFiles(a: Systems, b: Systems) {
    a.Keys == b.Keys && forall x :: x in a ==> b[x] == a[x].(parent := b[x].parent, children := b[x].children)
  }

  function Linked(fss: Systems, x: nat, p: nat): Systems
    requires x in fss && p in fss && x != p
  {
    fss[x := fss[x].(parent := Some(p))][p := fss[p].(children := fss[p].children + [x])]
  }

  lemma LinkKeepsForest(fss: Systems, x: nat, p: nat)
    requires Forest(fss) && Candidate(fss, x, p) && fss[x].parent.None?
    ensures Forest(Linked(fss, x, p)) && SameFiles(fss, Linked(fss, x, p))
  {
    CandidateApart(fss, x, p);
    hide Linked, Candidate, NoRepeats;
    var t := Linked(fss, x, p);
    LinkedFields(fss, x, p);
    forall y | y in t
      ensures t[y].parent.Some? ==> Candidate(t, y, t[y].parent.value) && y in t[t[y].parent.value].children
    {
      SameFilesSameCandidates(fss, t, y, if t[y].parent.Some? then t[y].parent.value else y);
    }
    forall y | y in t
      ensures NoRepeats(t[y].children)
    {
      NewChild(fss[p].children, x);
    }
    forall y, i | y in t && 0 <= i < |t[y].children|
      ensures t[y].children[i] in t && t[t[y].children[i]].parent == Some(y)
    {
    }
  }

  lemma CandidateApart(fss: Systems, x: nat, p: nat)
    requires Candidate(fss, x, p)
    ensures x in fss && p in fss && x != p
  {
  }

  lemma LinkedFields(fss: Systems, x: nat, p: nat)
    requires x in fss && p in fss && x != p
    ensures var t := Linked(fss, x, p);
      t.Keys == fss.Keys && t[x].parent == Some(p) && t[p].children == fss[p].children + [x]
      && (forall y :: y in fss && y != x ==> t[y].parent == fss[y].parent)
      && (forall y :: y in fss && y != p ==> t[y].children == fss[y].children)
    ensures SameFiles(fss, Linked(fss, x, p))
  {
  }

  lemma NewChild(children: seq<nat>, x: nat)
    ensures NoRepeats(children) && x !in children ==> NoRepeats(children + [x])
  {
  }

  lemma SameFilesSameCandidates(a: Systems, b: Systems, x: nat, g: nat)
    requires SameFiles(a, b)
    ensures Candidate(a, x, g) == Candidate(b, x, g)
  {
  }

  lemma SameFilesTransitive(a: Systems, b: Systems, c: Systems)
    requires SameFiles(a, b) && SameFiles(b, c)
    ensures SameFiles(a, c)
  {
  }

  lemma SameCandidates(a: Systems, b: Systems, list: seq<nat>, x: nat, p: Option<nat>)
    requires SameFiles(a, b) && x in b && (forall g :: g in list ==> g in b) && IsParent(b, list, x, p)
    ensures IsParent(a, list, x, p)
  {
    forall g
      ensures Candidate(a, x, g) == Candidate(b, x, g)
    {
    }
    if p.Some? {
      var k :| IsBest(b, list, x, p.value, k);
      assert IsBest(a, list, x, p.value, k);
    }
  }

  ghost predicate Unlinked(fss: Systems) {
    forall x :: x in fss ==> fss[x].parent.None? && fss[x].children == []
  }

  /** A file system looks for its parent and joins its children. */
  method AttachToParent(r: Registry, x: nat)
    requires Agree(r.State()) && x in r.fss && r.fss[x].parent.None? && Forest(r.fss)
    modifies r`fss
    ensures Agree(r.State()) && Forest(r.fss) && SameFiles(old(r.fss), r.fss)
    ensures IsParent(old(r.fss), r.list, x, r.fss[x].parent)
    ensures r.fss.Keys == old(r.fss).Keys
    ensures forall y :: y in r.fss && y != x ==> r.fss[y].parent == old(r.fss[y].parent)
  {
    hide Forest, Candidate, Indexed, IsParent, NoRepeats;
    ghost var c := r.State();
    var parent := FindParent(r.fss, r.list, x);
    SameAsItself(r.fss);
    if parent.Some? {
      ParentIsCandidate(r.fss, r.list, x, parent.value);
      LinkKeepsForest(r.fss, x, parent.value);
      LinkedFields(r.fss, x, parent.value);
      r.fss := Linked(r.fss, x, parent.value);
      SameFilesAgree(c, r.State());
    }
  }

  lemma SameAsItself(fss: Systems)
    ensures SameFiles(fss, fss)
  {
  }

  lemma SameFilesAgree(c: Contents, d: Contents)
    requires Agree(c) && SameFiles(c.fss, d.fss) && d == c.(fss := d.fss)
    ensures Agree(d)
  {
    hide Agree;
    AgreesAlike(c, d);
  }

  /** The first i file systems of the list have looked for their parents. */
  ghost predicate Attached(fss: Systems, list: seq<nat>, linked: Systems, i: int) {
    0 <= i <= |list| && SameFiles(fss, linked) && (forall g :: g in list ==> g in fss)
    && (forall j :: i <= j < |list| ==> linked[list[j]].parent.None?)
    && (forall j :: 0 <= j < i ==> IsParent(fss, list, list[j], linked[list[j]].parent))
  }

  lemma AttachedNext(fss: Systems, list: seq<nat>, before: Systems, after: Systems, i: int)
    requires Attached(fss, list, before, i) && i < |list| && NoRepeats(list) && SameFiles(before, after)
    requires (forall g :: g in list ==> g in before) && IsParent(before, list, list[i], after[list[i]].parent)
    requires forall y :: y in after && y != list[i] ==> after[y].parent == before[y].parent
    ensures Attached(fss, list, after, i + 1)
  {
    hide IsParent;
    SameFilesTransitive(fss, before, after);
    SameCandidates(fss, before, list, list[i], after[list[i]].parent);
    forall j | 0 <= j < |list| && j != i
      ensures after[list[j]].parent == before[list[j]].parent
    {
    }
  }

  /** Once every file system has looked for its parent, the links are a forest with the right parents. */
  method BuildForest(r: Registry)
    requires Agree(r.State()) && Unlinked(r.fss)
    modifies r`fss
    ensures Agree(r.State()) && Forest(r.fss) && Attached(old(r.fss), r.list, r.fss, |r.list|)
  {
    ghost var fss := r.fss;
    StartsAsForest(fss);
    hide Forest, IsParent, Agree, SameFiles;
    for i := 0 to |r.list|
      invariant Agree(r.State()) && Forest(r.fss) && Attached(fss, r.list, r.fss, i)
    {
      ListedOnce(r.State());
      ghost var before := r.fss;
      AttachToParent(r, r.list[i]);
      AttachedNext(fss, r.list, before, r.fss, i);
    }
  }

  lemma ListedOnce(c: Contents)
    requires Agree(c)
    ensures NoRepeats(c.list) && forall x :: x in c.list <==> x in c.fss
  {
  }

  lemma StartsAsForest(fss: Systems)
    requires Unlinked(fss)
    ensures Forest(fss) && SameFiles(fss, fss)
  {
  }

  lemma ParentIsCandidate(fss: Systems, list: seq<nat>, x: nat, p: nat)
    requires x in fss && (forall g :: g in list ==> g in fss) && IsParent(fss, list, x, Some(p))
    ensures Candidate(fss, x, p) && p in fss && x != p
  {
  }

  /** A file system that goes leaves a forest behind exactly when nothing is mounted on it. */
  lemma RemovalKeepsForest(fss: Systems, f: nat)
    requires Forest(fss) && f in fss
    ensures Forest(Detached(fss, f) - {f}) <==> fss[f].children == []
  {
    var t := Detached(fss, f) - {f};
    if fss[f].children != [] {
      var g := fss[f].children[0];
      assert fss[g].parent == Some(f) && g != f;
      assert g in t && t[g].parent == Some(f);
    } else {
      LeafGoes(fss, f);
    }
  }

  lemma LeafGoes(fss: Systems, f: nat)
    requires Forest(fss) && f in fss && fss[f].children == []
    ensures Forest(Detached(fss, f) - {f})
  {
    hide NoRepeats, Without;
    var t := Detached(fss, f) - {f};
    DetachedFields(fss, f);
    forall x | x in t && t[x].parent.Some?
      ensures Candidate(t, x, t[x].parent.value) && x in t[t[x].parent.value].children
    {
      assert t[x].parent.value != f;
    }
    forall x, i | x in t && 0 <= i < |t[x].children|
      ensures t[x].children[i] in t && t[t[x].children[i]].parent == Some(x)
    {
      var g := t[x].children[i];
      assert g in t[x].children;
      assert g in fss[x].children;
      var j :| 0 <= j < |fss[x].children| && fss[x].children[j] == g;
    }
  }

  lemma DetachedFields(fss: Systems, f: nat)
    requires Forest(fss) && f in fss
    ensures var t := Detached(fss, f);
      t.Keys == fss.Keys
      && (forall x :: x in fss ==> t[x].parent == fss[x].parent && t[x].path == fss[x].path && NoRepeats(t[x].children))
      && (forall x, g :: x in fss ==> (g in t[x].children <==> g in fss[x].children && (g == f ==> fss[f].parent != Some(x))))
  {
    hide NoRepeats, Without;
    if fss[f].parent.Some? {
      var p := fss[f].parent.value;
      WithoutFits(fss[p].children, f);
    }
    forall x | x in fss && f in fss[x].children
      ensures fss[f].parent == Some(x)
    {
      var j :| 0 <= j < |fss[x].children| && fss[x].children[j] == f;
    }
  }

  // ------------------------------------------------------------ claims

  const ENXIO := 6
  const EINVAL := 22

  /** What an FSAL answers when it is asked to take a file system: 0, ENXIO if it cannot, or another error. */
  type Answers = nat -> int

  /** An export of x for an FSAL; a path is given for the root of the export only. */
  datatype Claim = Claim(path: Option<string>, x: nat, fsal: nat)

  /** A child of p that is tried: not exported itself, and below the path if p is the root of the export. */
  predicate Eligible(fss: Systems, c: Claim, p: nat, g: nat)
    requires g in fss
  {
    !fss[g].exported && (p == c.x && c.path.Some? ==> c.path.value <= fss[g].path)
  }

  /** The claim comes to g: down the links from x, past file systems that are taken, to eligible ones. */
  ghost predicate Comes(fss: Systems, ask: Answers, c: Claim, g: nat)
    requires Forest(fss) && g in fss
    decreases |fss[g].path|
  {
    g == c.x || (fss[g].parent.Some? && var p := fss[g].parent.value;
      Comes(fss, ask, c, p) && ask(p) == 0 && Eligible(fss, c, p, g))
  }

  function Unclaimed(fs: Fs): Fs {
    fs.(fsal := None, unclaim := false, exported := false)
  }

  /** A file system the claim came to: taken from another FSAL, and given to this one if it agrees. */
  function Settled(fs: Fs, answer: int, fsal: nat, asRoot: bool): Fs {
    var self := if fs.fsal != Some(fsal) then Unclaimed(fs) else fs;
    if answer == 0 then self.(fsal := Some(fsal), unclaim := true, exported := self.exported || asRoot) else self
  }

  predicate AsRoot(c: Claim, g: nat) {
    g == c.x && c.path.Some?
  }

  /** The answer lets the claim go on: taken, or not takeable and not the root of the export. */
  predicate Passable(ask: Answers, c: Claim, g: nat) {
    ask(g) == 0 || (ask(g) == ENXIO && !AsRoot(c, g))
  }

  /** The error that an answer that is not passable becomes. */
  function Failure(answer: int): int {
    if answer == ENXIO then EINVAL else answer
  }

  /** g is as it was, or as the claim leaves what it comes to. */
  ghost predicate Handled(a: Systems, b: Systems, ask: Answers, c: Claim, g: nat)
    requires Forest(a) && g in a && g in b
  {
    b[g] == a[g] || (Comes(a, ask, c, g) && b[g] == Settled(a[g], ask(g), c.fsal, AsRoot(c, g)))
  }

  /** The claim went through: it settled exactly what it comes to, and every answer was passable. */
  ghost predicate WentThrough(a: Systems, b: Systems, ask: Answers, c: Claim)
    requires Forest(a)
  {
    a.Keys == b.Keys
    && (forall g :: g in a && Comes(a, ask, c, g) ==>
         b[g] == Settled(a[g], ask(g), c.fsal, AsRoot(c, g)) && Passable(ask, c, g))
    && (forall g :: g in a && !Comes(a, ask, c, g) ==> b[g] == a[g])
  }

  /** The claim on a child, seen from its parent. */
  function Below(c: Claim, g: nat): Claim {
    Claim(None, g, c.fsal)
  }

  /** The claim comes to g through one of the first i children. */
  ghost predicate Covered(fss: Systems, ask: Answers, c: Claim, children: seq<nat>, i: nat, g: nat)
    requires Forest(fss) && g in fss && i <= |children| && forall j :: 0 <= j < |children| ==> children[j] in fss
  {
    exists j :: 0 <= j < i && Eligible(fss, c, c.x, children[j]) && Comes(fss, ask, Below(c, children[j]), g)
  }

  /** What was asked by the time f was: x, what the claim comes to through the children before the one that leads to f,
      and on from that child likewise. */
  ghost predicate Reached(fss: Systems, ask: Answers, c: Claim, f: nat, g: nat)
    requires Forest(fss) && c.x in fss && f in fss && g in fss
    decreases |fss[f].path| - |fss[c.x].path|
  {
    ChildrenAre(fss, c.x);
    g == c.x
    || (exists j :: 0 <= j < |fss[c.x].children| && Leads(fss, ask, c, j, f)
         && (Covered(fss, ask, c, fss[c.x].children, j, g) || Reached(fss, ask, Below(c, fss[c.x].children[j]), f, g)))
  }

  /** The claim comes to f through child j. */
  ghost predicate Leads(fss: Systems, ask: Answers, c: Claim, j: nat, f: nat)
    requires Forest(fss) && c.x in fss && f in fss && j < |fss[c.x].children|
  {
    var h := fss[c.x].children[j];
    h in fss && |fss[h].path| <= |fss[f].path| && Eligible(fss, c, c.x, h) && Comes(fss, ask, Below(c, h), f)
  }

  /** The claim stopped at f, whose answer was not passable: it settled exactly what it had asked by then. */
  ghost predicate StoppedAt(a: Systems, b: Systems, ask: Answers, c: Claim, code: int, f: nat)
    requires Forest(a) && a.Keys == b.Keys && c.x in a
  {
    f in a && Comes(a, ask, c, f) && !Passable(ask, c, f) && code == Failure(ask(f))
    && (forall g :: g in a && Reached(a, ask, c, f, g) ==>
         b[g] == Settled(a[g], ask(g), c.fsal, AsRoot(c, g)) && (g == f || Passable(ask, c, g)))
    && (forall g :: g in a && !Reached(a, ask, c, f, g) ==> b[g] == a[g])
  }

  ghost predicate Stopped(a: Systems, b: Systems, ask: Answers, c: Claim, code: int)
    requires Forest(a)
  {
    a.Keys == b.Keys && c.x in a && exists f :: StoppedAt(a, b, ask, c, code, f)
  }

  ghost predicate Result(a: Systems, b: Systems, ask: Answers, c: Claim, code: int)
    requires Forest(a)
  {
    if code == 0 then WentThrough(a, b, ask, c) else Stopped(a, b, ask, c, code)
  }

  // ------------------------------------------------------------ the shape of a subtree

  lemma {:induction false} ComesBelow(fss: Systems, ask: Answers, c: Claim, g: nat)
    requires Forest(fss) && c.x in fss && g in fss && Comes(fss, ask, c, g)
    ensures |fss[c.x].path| <= |fss[g].path| && (g != c.x ==> |fss[c.x].path| < |fss[g].path|)
    decreases |fss[g].path|
  {
    if g != c.x {
      ComesBelow(fss, ask, c, fss[g].parent.value);
    }
  }

  ghost predicate IsChild(fss: Systems, x: nat, g: nat) {
    x in fss && g in fss && g in fss[x].children && fss[g].parent == Some(x)
  }

  /** What a claim comes to beyond x it comes to through one of the children of x. */
  lemma {:induction false} ComesThrough(fss: Systems, ask: Answers, c: Claim, g: nat) returns (h: nat)
    requires Forest(fss) && c.x in fss && g in fss && Comes(fss, ask, c, g) && g != c.x
    ensures IsChild(fss, c.x, h) && Eligible(fss, c, c.x, h) && ask(c.x) == 0 && Comes(fss, ask, Below(c, h), g)
    decreases |fss[g].path|
  {
    var p := fss[g].parent.value;
    if p == c.x {
      h := g;
    } else {
      h := ComesThrough(fss, ask, c, p);
    }
  }

  /** And conversely. */
  lemma {:induction false} ComesFrom(fss: Systems, ask: Answers, c: Claim, h: nat, g: nat)
    requires Forest(fss) && c.x in fss && g in fss && IsChild(fss, c.x, h) && Eligible(fss, c, c.x, h) && ask(c.x) == 0
    requires Comes(fss, ask, Below(c, h), g)
    ensures Comes(fss, ask, c, g) && g != c.x
    decreases |fss[g].path|
  {
    ComesBelow(fss, ask, Below(c, h), g);
    assert |fss[c.x].path| < |fss[h].path|;
    if g == h {
      assert Comes(fss, ask, c, c.x);
    } else {
      ComesFrom(fss, ask, c, h, fss[g].parent.value);
    }
  }

  /** The subtrees of two children have nothing in common. */
  lemma {:induction false} SubtreesApart(fss: Systems, ask: Answers, c: Claim, h: nat, k: nat, g: nat)
    requires Forest(fss) && c.x in fss && g in fss && IsChild(fss, c.x, h) && IsChild(fss, c.x, k)
    requires Comes(fss, ask, Below(c, h), g) && Comes(fss, ask, Below(c, k), g)
    ensures h == k
    decreases |fss[g].path|
  {
    assert |fss[c.x].path| < |fss[h].path| && |fss[c.x].path| < |fss[k].path|;
    if g == h && g != k {
      ComesBelow(fss, ask, Below(c, k), c.x);
    } else if g == k && g != h {
      ComesBelow(fss, ask, Below(c, h), c.x);
    } else if g != h {
      SubtreesApart(fss, ask, c, h, k, fss[g].parent.value);
    }
  }

  /** Nothing differs but who claims what, and nothing becomes or ceases to be exported below the length n. */
  ghost predicate SameShape(a: Systems, b: Systems, n: nat) {
    a.Keys == b.Keys && (forall g :: g in a ==> SameButClaim(a[g], b[g]))
    && forall g :: g in a && |a[g].path| > n ==> b[g].exported == a[g].exported
  }

  ghost predicate SameButClaim(a: Fs, b: Fs) {
    b == a.(fsal := b.fsal, unclaim := b.unclaim, exported := b.exported)
  }

  lemma ShapeKeepsForest(a: Systems, b: Systems, n: nat)
    requires Forest(a) && SameShape(a, b, n)
    ensures Forest(b)
  {
    forall x, g
      ensures Candidate(a, x, g) == Candidate(b, x, g)
    {
    }
  }

  lemma {:induction false} ComesAlike(a: Systems, b: Systems, ask: Answers, c: Claim, n: nat, g: nat)
    requires Forest(a) && Forest(b) && SameShape(a, b, n) && c.x in a && n <= |a[c.x].path| && g in a
    ensures Comes(a, ask, c, g) == Comes(b, ask, c, g)
    decreases |a[g].path|
  {
    if g != c.x && a[g].parent.Some? {
      var p := a[g].parent.value;
      ComesAlike(a, b, ask, c, n, p);
      if Comes(a, ask, c, p) {
        ComesBelow(a, ask, c, p);
      }
    }
  }

  // ------------------------------------------------------------ claiming

  ghost predicate Bounded(fss: Systems, bound: nat) {
    forall x :: x in fss ==> |fss[x].path| <= bound
  }

  /** Another FSAL exports it. */
  predicate Refused(fs: Fs, fsal: nat) {
    fs.fsal.Some? && fs.fsal != Some(fsal) && fs.exported
  }

  /** What is claimed beyond x, once x itself is settled. */
  ghost predicate ChildrenResult(a: Systems, b: Systems, ask: Answers, c: Claim, code: int)
    requires Forest(a)
  {
    a.Keys == b.Keys && c.x in a
    && (if code == 0 then
          (forall g :: g in a && (g == c.x || !Comes(a, ask, c, g)) ==> b[g] == a[g])
          && (forall g :: g in a && g != c.x && Comes(a, ask, c, g) ==>
               b[g] == Settled(a[g], ask(g), c.fsal, false) && Passable(ask, c, g))
        else exists f :: ChildrenStopped(a, b, ask, c, code, f))
  }

  ghost predicate ChildrenStopped(a: Systems, b: Systems, ask: Answers, c: Claim, code: int, f: nat)
    requires Forest(a) && a.Keys == b.Keys && c.x in a
  {
    f in a && f != c.x && Comes(a, ask, c, f) && !Passable(ask, c, f) && code == Failure(ask(f))
    && (forall g :: g in a && g != c.x && Reached(a, ask, c, f, g) ==>
         b[g] == Settled(a[g], ask(g), c.fsal, false) && (g == f || Passable(ask, c, g)))
    && (forall g :: g in a && (g == c.x || !Reached(a, ask, c, f, g)) ==> b[g] == a[g])
  }

  /** The first i children, with all below them, are settled. */
  ghost predicate Progress(a: Systems, b: Systems, ask: Answers, c: Claim, i: nat)
    requires Forest(a) && c.x in a && i <= |a[c.x].children|
  {
    a.Keys == b.Keys
    && forall g :: g in a ==>
      if Covered(a, ask, c, a[c.x].children, i, g) then
        b[g] == Settled(a[g], ask(g), c.fsal, false) && (ask(g) == 0 || ask(g) == ENXIO)
      else b[g] == a[g]
  }

  lemma ChildrenAre(fss: Systems, x: nat)
    requires Forest(fss) && x in fss
    ensures NoRepeats(fss[x].children)
    ensures forall j :: 0 <= j < |fss[x].children| ==> IsChild(fss, x, fss[x].children[j])
    ensures forall j :: 0 <= j < |fss[x].children| ==> |fss[x].path| < |fss[fss[x].children[j]].path|
  {
    forall j | 0 <= j < |fss[x].children|
      ensures IsChild(fss, x, fss[x].children[j]) && |fss[x].path| < |fss[fss[x].children[j]].path|
    {
      var g := fss[x].children[j];
      assert fss[g].parent == Some(x);
    }
  }

  /** All the children together cover what the claim comes to beyond x. */
  lemma CoveredAll(fss: Systems, ask: Answers, c: Claim, g: nat)
    requires Forest(fss) && c.x in fss && g in fss && ask(c.x) == 0
    requires forall j :: 0 <= j < |fss[c.x].children| ==> fss[c.x].children[j] in fss
    ensures Covered(fss, ask, c, fss[c.x].children, |fss[c.x].children|, g) <==> g != c.x && Comes(fss, ask, c, g)
  {
    hide Forest, Comes, Eligible;
    ChildrenAre(fss, c.x);
    if g != c.x && Comes(fss, ask, c, g) {
      var h := ComesThrough(fss, ask, c, g);
      var j :| 0 <= j < |fss[c.x].children| && fss[c.x].children[j] == h;
    }
    forall j | 0 <= j < |fss[c.x].children| && Eligible(fss, c, c.x, fss[c.x].children[j])
        && Comes(fss, ask, Below(c, fss[c.x].children[j]), g)
      ensures g != c.x && Comes(fss, ask, c, g)
    {
      ComesFrom(fss, ask, c, fss[c.x].children[j], g);
    }
  }

  /** What the next child covers was not covered before. */
  lemma NotCoveredYet(fss: Systems, ask: Answers, c: Claim, i: nat, g: nat)
    requires Forest(fss) && c.x in fss && g in fss && i < |fss[c.x].children|
    requires forall j :: 0 <= j < |fss[c.x].children| ==> fss[c.x].children[j] in fss
    requires Comes(fss, ask, Below(c, fss[c.x].children[i]), g)
    ensures !Covered(fss, ask, c, fss[c.x].children, i, g)
  {
    hide Forest, Comes, Eligible;
    ChildrenAre(fss, c.x);
    forall j | 0 <= j < i && Comes(fss, ask, Below(c, fss[c.x].children[j]), g)
      ensures false
    {
      SubtreesApart(fss, ask, c, fss[c.x].children[j], fss[c.x].children[i], g);
    }
  }

  lemma CoveredNext(fss: Systems, ask: Answers, c: Claim, children: seq<nat>, i: nat, g: nat)
    requires Forest(fss) && g in fss && i < |children| && forall j :: 0 <= j < |children| ==> children[j] in fss
    ensures Covered(fss, ask, c, children, i + 1, g) <==>
      Covered(fss, ask, c, children, i, g) || (Eligible(fss, c, c.x, children[i]) && Comes(fss, ask, Below(c, children[i]), g))
  {
    hide Comes, Eligible, Forest;
  }

  /** An eligible child that went through is one more. */
  lemma ChildWentThrough(a: Systems, b: Systems, b': Systems, ask: Answers, c: Claim, i: nat)
    requires Forest(a) && Forest(b) && c.x in a && i < |a[c.x].children| && a[c.x].children[i] in a
    requires Progress(a, b, ask, c, i) && SameShape(a, b, |a[c.x].path|) && Eligible(a, c, c.x, a[c.x].children[i])
    requires WentThrough(b, b', ask, Below(c, a[c.x].children[i]))
    ensures Progress(a, b', ask, c, i + 1)
  {
    hide Forest, Comes, Eligible, Settled, Covered, SameShape;
    ChildrenAre(a, c.x);
    SameKeys(a, b, |a[c.x].path|);
    var h := a[c.x].children[i];
    forall g | g in a
      ensures if Covered(a, ask, c, a[c.x].children, i + 1, g) then
                b'[g] == Settled(a[g], ask(g), c.fsal, false) && (ask(g) == 0 || ask(g) == ENXIO)
              else b'[g] == a[g]
    {
      CoveredNext(a, ask, c, a[c.x].children, i, g);
      ComesAlike(a, b, ask, Below(c, h), |a[c.x].path|, g);
      if Comes(a, ask, Below(c, h), g) {
        NotCoveredYet(a, ask, c, i, g);
      }
    }
  }

  lemma SameKeys(a: Systems, b: Systems, n: nat)
    requires SameShape(a, b, n)
    ensures a.Keys == b.Keys && forall g :: g in a ==> b[g].path == a[g].path && b[g].children == a[g].children
    ensures forall g :: g in a && |a[g].path| > n ==> b[g].exported == a[g].exported
  {
  }

  lemma ChildSkipped(a: Systems, b: Systems, ask: Answers, c: Claim, i: nat)
    requires Forest(a) && c.x in a && i < |a[c.x].children| && a[c.x].children[i] in a
    requires Progress(a, b, ask, c, i) && !Eligible(a, c, c.x, a[c.x].children[i])
    ensures Progress(a, b, ask, c, i + 1)
  {
    hide Forest, Comes, Eligible, Settled, Covered;
    ChildrenAre(a, c.x);
    forall g | g in a
      ensures Covered(a, ask, c, a[c.x].children, i + 1, g) == Covered(a, ask, c, a[c.x].children, i, g)
    {
      CoveredNext(a, ask, c, a[c.x].children, i, g);
    }
  }

  lemma AllChildrenDone(a: Systems, b: Systems, ask: Answers, c: Claim)
    requires Forest(a) && c.x in a && ask(c.x) == 0 && Progress(a, b, ask, c, |a[c.x].children|)
    ensures ChildrenResult(a, b, ask, c, 0)
  {
    hide Forest, Comes, Eligible, Settled, Covered;
    ChildrenAre(a, c.x);
    forall g | g in a
      ensures Covered(a, ask, c, a[c.x].children, |a[c.x].children|, g) <==> g != c.x && Comes(a, ask, c, g)
    {
      CoveredAll(a, ask, c, g);
    }
  }

  /** How far the claim has come with g when the next child is tried. */
  lemma BeforeChild(a: Systems, b: Systems, ask: Answers, c: Claim, i: nat, g: nat)
    requires Forest(a) && Forest(b) && c.x in a && i < |a[c.x].children| && a[c.x].children[i] in a && ask(c.x) == 0
    requires Progress(a, b, ask, c, i) && SameShape(a, b, |a[c.x].path|) && Eligible(a, c, c.x, a[c.x].children[i])
    requires g in a && g in b
    ensures var h := a[c.x].children[i];
      && Comes(a, ask, Below(c, h), g) == Comes(b, ask, Below(c, h), g)
      && (Comes(a, ask, Below(c, h), g) ==> g != c.x && Comes(a, ask, c, g) && b[g] == a[g])
      && (b[g] == a[g] || (g != c.x && Comes(a, ask, c, g) && b[g] == Settled(a[g], ask(g), c.fsal, false)))
  {
    hide Forest, Comes, Eligible, Settled, Covered;
    var h := a[c.x].children[i];
    ChildrenAre(a, c.x);
    ComesAlike(a, b, ask, Below(c, h), |a[c.x].path|, g);
    if Comes(a, ask, Below(c, h), g) {
      NotCoveredYet(a, ask, c, i, g);
      ComesFrom(a, ask, c, h, g);
    }
    CoveredGrows(a, ask, c, a[c.x].children, i, g);
    CoveredAll(a, ask, c, g);
  }

  /** What is reached lies on the claim's way. */
  lemma {:induction false} ReachedComes(fss: Systems, ask: Answers, c: Claim, f: nat, g: nat)
    requires Forest(fss) && c.x in fss && f in fss && g in fss && Comes(fss, ask, c, f) && Reached(fss, ask, c, f, g)
    ensures Comes(fss, ask, c, g)
    decreases |fss[f].path| - |fss[c.x].path|
  {
    hide Forest, Comes, Eligible, Covered;
    RootComes(fss, ask, c);
    ChildrenAre(fss, c.x);
    if g != c.x {
      var j :| 0 <= j < |fss[c.x].children| && Leads(fss, ask, c, j, f)
        && (Covered(fss, ask, c, fss[c.x].children, j, g) || Reached(fss, ask, Below(c, fss[c.x].children[j]), f, g));
      var h := fss[c.x].children[j];
      TakenOnTheWay(fss, ask, c, h, f);
      if Covered(fss, ask, c, fss[c.x].children, j, g) {
        CoveredGrows(fss, ask, c, fss[c.x].children, j, g);
        CoveredAll(fss, ask, c, g);
      } else {
        ReachedComes(fss, ask, Below(c, h), f, g);
        ComesFrom(fss, ask, c, h, g);
      }
    }
  }

  /** A claim that comes to something below x has taken x. */
  lemma TakenOnTheWay(fss: Systems, ask: Answers, c: Claim, h: nat, f: nat)
    requires Forest(fss) && c.x in fss && f in fss && IsChild(fss, c.x, h) && Comes(fss, ask, c, f)
    requires Comes(fss, ask, Below(c, h), f)
    ensures ask(c.x) == 0
  {
    hide Comes, Eligible;
    assert |fss[c.x].path| < |fss[h].path|;
    ComesBelow(fss, ask, Below(c, h), f);
    var k := ComesThrough(fss, ask, c, f);
  }

  /** Only one child leads to f, so what was reached beyond x is what the children before it cover, and what was reached
      from it. */
  lemma ReachedThrough(fss: Systems, ask: Answers, c: Claim, i: nat, f: nat, g: nat)
    requires Forest(fss) && c.x in fss && f in fss && g in fss && i < |fss[c.x].children| && fss[c.x].children[i] in fss
    requires Eligible(fss, c, c.x, fss[c.x].children[i]) && Comes(fss, ask, Below(c, fss[c.x].children[i]), f)
    requires forall j :: 0 <= j < |fss[c.x].children| ==> fss[c.x].children[j] in fss
    ensures g != c.x ==> (Reached(fss, ask, c, f, g) <==>
      Covered(fss, ask, c, fss[c.x].children, i, g) || Reached(fss, ask, Below(c, fss[c.x].children[i]), f, g))
  {
    hide Forest, Comes, Eligible, Covered;
    ChildrenAre(fss, c.x);
    ComesBelow(fss, ask, Below(c, fss[c.x].children[i]), f);
    assert Leads(fss, ask, c, i, f);
    forall j | 0 <= j < |fss[c.x].children| && Leads(fss, ask, c, j, f)
      ensures j == i
    {
      SubtreesApart(fss, ask, c, fss[c.x].children[j], fss[c.x].children[i], f);
    }
  }

  lemma {:induction false} ReachedAlike(a: Systems, b: Systems, ask: Answers, c: Claim, n: nat, f: nat, g: nat)
    requires Forest(a) && Forest(b) && SameShape(a, b, n) && c.x in a && c.x in b && n <= |a[c.x].path|
    requires f in a && f in b && g in a && g in b
    ensures Reached(a, ask, c, f, g) == Reached(b, ask, c, f, g)
    decreases |a[f].path| - |a[c.x].path|
  {
    hide Forest, Comes, Eligible, Covered, SameShape;
    SameKeys(a, b, n);
    ChildrenAre(a, c.x);
    forall j | 0 <= j < |a[c.x].children|
      ensures Leads(a, ask, c, j, f) == Leads(b, ask, c, j, f)
      ensures Covered(a, ask, c, a[c.x].children, j, g) == Covered(b, ask, c, b[c.x].children, j, g)
      ensures var d := Below(c, a[c.x].children[j]);
        Leads(a, ask, c, j, f) ==> Reached(a, ask, d, f, g) == Reached(b, ask, d, f, g)
    {
      LeadsAlike(a, b, ask, c, n, j, f);
      CoveredAlike(a, b, ask, c, n, j, g);
      if Leads(a, ask, c, j, f) {
        ReachedAlike(a, b, ask, Below(c, a[c.x].children[j]), n, f, g);
      }
    }
  }

  lemma LeadsAlike(a: Systems, b: Systems, ask: Answers, c: Claim, n: nat, j: nat, f: nat)
    requires Forest(a) && Forest(b) && SameShape(a, b, n) && c.x in a && c.x in b && n <= |a[c.x].path| && f in a && f in b
    requires j < |a[c.x].children| && j < |b[c.x].children|
    ensures Leads(a, ask, c, j, f) == Leads(b, ask, c, j, f)
  {
    hide Forest, Comes;
    ChildrenAre(a, c.x);
    ComesAlike(a, b, ask, Below(c, a[c.x].children[j]), n, f);
  }

  lemma CoveredAlike(a: Systems, b: Systems, ask: Answers, c: Claim, n: nat, i: nat, g: nat)
    requires Forest(a) && Forest(b) && SameShape(a, b, n) && c.x in a && c.x in b && n <= |a[c.x].path| && g in a && g in b
    requires i <= |a[c.x].children| && i <= |b[c.x].children|
    requires forall j :: 0 <= j < |a[c.x].children| ==> a[c.x].children[j] in a
    requires forall j :: 0 <= j < |b[c.x].children| ==> b[c.x].children[j] in b
    ensures Covered(a, ask, c, a[c.x].children, i, g) == Covered(b, ask, c, b[c.x].children, i, g)
  {
    hide Forest, Comes;
    ChildrenAre(a, c.x);
    forall j | 0 <= j < i
      ensures Eligible(a, c, c.x, a[c.x].children[j]) == Eligible(b, c, c.x, b[c.x].children[j])
      ensures Comes(a, ask, Below(c, a[c.x].children[j]), g) == Comes(b, ask, Below(c, b[c.x].children[j]), g)
    {
      ComesAlike(a, b, ask, Below(c, a[c.x].children[j]), n, g);
    }
  }

  /** A child that stopped stops the claim. */
  lemma ChildStopped(a: Systems, b: Systems, b': Systems, ask: Answers, c: Claim, i: nat, code: int)
    requires Forest(a) && Forest(b) && c.x in a && i < |a[c.x].children| && a[c.x].children[i] in a && ask(c.x) == 0
    requires Progress(a, b, ask, c, i) && SameShape(a, b, |a[c.x].path|) && Eligible(a, c, c.x, a[c.x].children[i])
    requires code != 0 && Stopped(b, b', ask, Below(c, a[c.x].children[i]), code)
    ensures ChildrenResult(a, b', ask, c, code)
  {
    hide Forest, Comes, Eligible, Settled, Covered, SameShape, Failure, Progress, Reached, StoppedAt;
    SameKeys(a, b, |a[c.x].path|);
    var f :| StoppedAt(b, b', ask, Below(c, a[c.x].children[i]), code, f);
    ChildStoppedAt(a, b, b', ask, c, i, code, f);
  }

  lemma ChildStoppedAt(a: Systems, b: Systems, b': Systems, ask: Answers, c: Claim, i: nat, code: int, f: nat)
    requires Forest(a) && Forest(b) && c.x in a && i < |a[c.x].children| && a[c.x].children[i] in a && ask(c.x) == 0
    requires Progress(a, b, ask, c, i) && SameShape(a, b, |a[c.x].path|) && Eligible(a, c, c.x, a[c.x].children[i])
    requires a.Keys == b.Keys == b'.Keys && StoppedAt(b, b', ask, Below(c, a[c.x].children[i]), code, f)
    ensures ChildrenStopped(a, b', ask, c, code, f)
  {
    hide Forest, Comes, Eligible, Settled, Covered, SameShape, Failure, Progress, Reached;
    var h := a[c.x].children[i];
    ChildrenAre(a, c.x);
    BeforeChild(a, b, ask, c, i, f);
    forall g | g in a
      ensures g != c.x && Reached(a, ask, c, f, g) ==>
        b'[g] == Settled(a[g], ask(g), c.fsal, false) && (g == f || Passable(ask, c, g))
      ensures g == c.x || !Reached(a, ask, c, f, g) ==> b'[g] == a[g]
    {
      ReachedHere(a, b, ask, c, i, f, g);
    }
  }

  /** What was reached when a child stopped at f: what was settled before, and what was reached from the child. */
  lemma ReachedHere(a: Systems, b: Systems, ask: Answers, c: Claim, i: nat, f: nat, g: nat)
    requires Forest(a) && Forest(b) && c.x in a && i < |a[c.x].children| && a[c.x].children[i] in a && ask(c.x) == 0
    requires Progress(a, b, ask, c, i) && SameShape(a, b, |a[c.x].path|) && Eligible(a, c, c.x, a[c.x].children[i])
    requires f in a && g in a && a.Keys == b.Keys && Comes(b, ask, Below(c, a[c.x].children[i]), f)
    ensures var now := Reached(b, ask, Below(c, a[c.x].children[i]), f, g);
      && (now ==> b[g] == a[g] && g != c.x && Reached(a, ask, c, f, g))
      && (!now && g != c.x && Reached(a, ask, c, f, g) ==>
           b[g] == Settled(a[g], ask(g), c.fsal, false) && Passable(ask, c, g))
      && (!now && (g == c.x || !Reached(a, ask, c, f, g)) ==> b[g] == a[g])
  {
    hide Forest, Comes, Eligible, Settled, Covered, SameShape, Reached;
    var h, n := a[c.x].children[i], |a[c.x].path|;
    ChildrenAre(a, c.x);
    ComesAlike(a, b, ask, Below(c, h), n, f);
    ReachedAlike(a, b, ask, Below(c, h), n, f, g);
    ReachedThrough(a, ask, c, i, f, g);
    CoveredGrows(a, ask, c, a[c.x].children, i, g);
    CoveredAll(a, ask, c, g);
    if Reached(a, ask, Below(c, h), f, g) {
      ReachedComes(a, ask, Below(c, h), f, g);
      NotCoveredYet(a, ask, c, i, g);
      ComesFrom(a, ask, c, h, g);
    }
  }

  lemma CoveredGrows(fss: Systems, ask: Answers, c: Claim, children: seq<nat>, i: nat, g: nat)
    requires Forest(fss) && g in fss && i <= |children| && forall j :: 0 <= j < |children| ==> children[j] in fss
    ensures Covered(fss, ask, c, children, i, g) ==> Covered(fss, ask, c, children, |children|, g)
  {
    hide Comes, Eligible, Forest;
  }

  lemma SettledShape(fs: Fs, answer: int, fsal: nat, asRoot: bool)
    ensures SameButClaim(fs, Settled(fs, answer, fsal, asRoot))
    ensures !fs.exported && !asRoot ==> !Settled(fs, answer, fsal, asRoot).exported
  {
  }

  /** However it ends, each file system is as it was, or as the claim leaves what it comes to. */
  lemma ResultHandles(a: Systems, b: Systems, ask: Answers, c: Claim, code: int, g: nat)
    requires Forest(a) && Result(a, b, ask, c, code) && g in a
    ensures a.Keys == b.Keys && Handled(a, b, ask, c, g)
  {
    hide Forest, Comes, Settled, Failure, Reached;
    if code != 0 {
      var f :| StoppedAt(a, b, ask, c, code, f);
      if Reached(a, ask, c, f, g) {
        ReachedComes(a, ask, c, f, g);
      }
    }
  }

  /** A claim changes no links and no paths, and exports nothing but x. */
  lemma ResultShape(a: Systems, b: Systems, ask: Answers, c: Claim, code: int, n: nat)
    requires Forest(a) && c.x in a && Result(a, b, ask, c, code) && n <= |a[c.x].path|
    requires n < |a[c.x].path| ==> c.path.None? && !a[c.x].exported
    ensures SameShape(a, b, n)
  {
    hide Forest, Settled, Failure, Reached, Result, SameButClaim;
    ResultHandles(a, b, ask, c, code, c.x);
    forall g | g in a
      ensures SameButClaim(a[g], b[g]) && (|a[g].path| > n ==> b[g].exported == a[g].exported)
    {
      SameButItself(a[g]);
      ResultHandles(a, b, ask, c, code, g);
      SettledShape(a[g], ask(g), c.fsal, AsRoot(c, g));
    }
  }

  lemma SameButItself(fs: Fs)
    ensures SameButClaim(fs, fs)
  {
  }

  /** An FSAL that does not take x is asked for nothing else. */
  lemma RootOnly(a: Systems, ask: Answers, c: Claim)
    requires Forest(a) && c.x in a && ask(c.x) != 0
    ensures Result(a, a[c.x := Settled(a[c.x], ask(c.x), c.fsal, AsRoot(c, c.x))], ask, c,
                   if Passable(ask, c, c.x) then 0 else Failure(ask(c.x)))
  {
    hide Forest, Settled, Comes, Reached;
    RootComes(a, ask, c);
    forall g | g in a
      ensures Comes(a, ask, c, g) <==> g == c.x
      ensures Reached(a, ask, c, c.x, g) <==> g == c.x
    {
      ReachedFirst(a, ask, c, g);
      if g != c.x && Comes(a, ask, c, g) {
        var h := ComesThrough(a, ask, c, g);
      }
    }
    var b := a[c.x := Settled(a[c.x], ask(c.x), c.fsal, AsRoot(c, c.x))];
    if !Passable(ask, c, c.x) {
      assert StoppedAt(a, b, ask, c, Failure(ask(c.x)), c.x);
    }
  }

  lemma ReachedFirst(fss: Systems, ask: Answers, c: Claim, g: nat)
    requires Forest(fss) && c.x in fss && g in fss
    ensures Reached(fss, ask, c, c.x, g) <==> g == c.x
  {
    hide Forest, Comes, Covered;
    ChildrenAre(fss, c.x);
  }

  /** An FSAL that takes x is asked for the children. */
  lemma RootAndChildren(a: Systems, b: Systems, b': Systems, ask: Answers, c: Claim, code: int)
    requires Forest(a) && Forest(b) && c.x in a && ask(c.x) == 0
    requires b == a[c.x := Settled(a[c.x], 0, c.fsal, AsRoot(c, c.x))] && ChildrenResult(b, b', ask, c, code)
    ensures Result(a, b', ask, c, code)
  {
    hide Forest, Settled, Comes, ChildrenResult, Result;
    SettledShape(a[c.x], 0, c.fsal, AsRoot(c, c.x));
    assert SameShape(a, b, |a[c.x].path|);
    forall g | g in a
      ensures Comes(a, ask, c, g) == Comes(b, ask, c, g)
    {
      ComesAlike(a, b, ask, c, |a[c.x].path|, g);
    }
    if code == 0 {
      AroundRoot(a, b, b', ask, c);
    } else {
      var f := WhereChildrenStopped(b, b', ask, c, code);
      forall g | g in a
        ensures Reached(a, ask, c, f, g) == Reached(b, ask, c, f, g)
      {
        ReachedAlike(a, b, ask, c, |a[c.x].path|, f, g);
      }
      StoppedAroundRoot(a, b, b', ask, c, code, f);
    }
  }

  lemma WhereChildrenStopped(a: Systems, b: Systems, ask: Answers, c: Claim, code: int) returns (f: nat)
    requires Forest(a) && ChildrenResult(a, b, ask, c, code) && code != 0
    ensures a.Keys == b.Keys && c.x in a && ChildrenStopped(a, b, ask, c, code, f) && f in a
  {
    hide Forest, Comes, Settled, Reached, Failure;
    f :| ChildrenStopped(a, b, ask, c, code, f);
  }

  lemma AroundRoot(a: Systems, b: Systems, b': Systems, ask: Answers, c: Claim)
    requires Forest(a) && Forest(b) && c.x in a && ask(c.x) == 0 && ChildrenResult(b, b', ask, c, 0)
    requires a.Keys == b.Keys && b[c.x] == Settled(a[c.x], 0, c.fsal, AsRoot(c, c.x))
    requires forall g :: g in a && g != c.x ==> b[g] == a[g]
    requires forall g :: g in a ==> Comes(a, ask, c, g) == Comes(b, ask, c, g)
    ensures Result(a, b', ask, c, 0)
  {
    hide Forest, Settled, Failure, Comes, Passable;
    RootComes(a, ask, c);
    RootPasses(ask, c);
    assert WentThrough(a, b', ask, c);
  }

  lemma StoppedAroundRoot(a: Systems, b: Systems, b': Systems, ask: Answers, c: Claim, code: int, f: nat)
    requires Forest(a) && Forest(b) && c.x in a && ask(c.x) == 0 && a.Keys == b.Keys == b'.Keys && code != 0
    requires ChildrenStopped(b, b', ask, c, code, f) && b[c.x] == Settled(a[c.x], 0, c.fsal, AsRoot(c, c.x))
    requires forall g :: g in a && g != c.x ==> b[g] == a[g]
    requires Comes(a, ask, c, f) && forall g :: g in a ==> Reached(a, ask, c, f, g) == Reached(b, ask, c, f, g)
    ensures Result(a, b', ask, c, code)
  {
    hide Forest, Settled, Failure, Comes, Passable, Reached;
    RootPasses(ask, c);
    RootReached(a, ask, c, f);
    assert StoppedAt(a, b', ask, c, code, f);
  }

  lemma RootReached(a: Systems, ask: Answers, c: Claim, f: nat)
    requires Forest(a) && c.x in a && f in a
    ensures Reached(a, ask, c, f, c.x)
  {
  }

  lemma RootPasses(ask: Answers, c: Claim)
    requires ask(c.x) == 0
    ensures Passable(ask, c, c.x) && forall g :: g != c.x ==> !AsRoot(c, g)
  {
  }

  lemma RootComes(a: Systems, ask: Answers, c: Claim)
    requires Forest(a) && c.x in a
    ensures Comes(a, ask, c, c.x)
  {
  }

  lemma ClaimedForest(a: Systems, x: nat, fs: Fs)
    requires Forest(a) && x in a && SameButClaim(a[x], fs)
    ensures Forest(a[x := fs])
  {
    ShapeKeepsForest(a, a[x := fs], |a[x].path|);
  }

  /** A claim goes through exactly when every answer on the way is passable. */
  lemma GoesThroughExactly(a: Systems, b: Systems, ask: Answers, c: Claim, code: int)
    requires Forest(a) && Result(a, b, ask, c, code)
    ensures code == 0 <==> forall g :: g in a && Comes(a, ask, c, g) ==> Passable(ask, c, g)
  {
    hide Forest, Comes, Settled;
  }

  /** An exported file system belongs to some FSAL. */
  ghost predicate ExportsOwned(fss: Systems) {
    forall x :: x in fss && fss[x].exported ==> fss[x].fsal.Some?
  }

  /** g is x or lies below it, by the parent links. */
  ghost predicate Descends(fss: Systems, g: nat, x: nat)
    requires Forest(fss) && g in fss
    decreases |fss[g].path|
  {
    g == x || (fss[g].parent.Some? && Descends(fss, fss[g].parent.value, x))
  }

  lemma {:induction false} ComesDescends(fss: Systems, ask: Answers, c: Claim, g: nat)
    requires Forest(fss) && g in fss && Comes(fss, ask, c, g)
    ensures Descends(fss, g, c.x) && (g != c.x ==> !fss[g].exported)
    decreases |fss[g].path|
  {
    if g != c.x {
      ComesDescends(fss, ask, c, fss[g].parent.value);
    }
  }

  /** However it ends, a claim touches nothing outside the subtree, unexports nothing, and leaves alone what another FSAL
      exports. */
  lemma ClaimRespectsExports(a: Systems, b: Systems, ask: Answers, c: Claim, code: int)
    requires Forest(a) && c.x in a && ExportsOwned(a) && !Refused(a[c.x], c.fsal) && Result(a, b, ask, c, code)
    ensures a.Keys == b.Keys && ExportsOwned(b)
    ensures forall g :: g in a && a[g].exported ==> b[g].exported
    ensures forall g :: g in a && a[g].exported && a[g].fsal != Some(c.fsal) ==> b[g] == a[g]
    ensures forall g :: g in a && b[g] != a[g] ==> Descends(a, g, c.x) && b[g].fsal in {None, Some(c.fsal)}
  {
    hide Forest, Comes, Descends;
    forall g | g in a
      ensures b[g].exported ==> b[g].fsal.Some?
      ensures a[g].exported ==> b[g].exported && (a[g].fsal != Some(c.fsal) ==> b[g] == a[g])
      ensures b[g] != a[g] ==> Descends(a, g, c.x) && b[g].fsal in {None, Some(c.fsal)}
    {
      ResultHandles(a, b, ask, c, code, g);
      if Comes(a, ask, c, g) {
        ComesDescends(a, ask, c, g);
      }
    }
  }

  /**
   * Claims x for an FSAL, and then what is mounted below it and not exported. What another FSAL exports is refused.
   * Otherwise the claim goes through exactly when every answer on the way is passable; then it has settled exactly what
   * it comes to.
   */
  method ProcessClaim(r: Registry, ask: Answers, path: Option<string>, x: nat, fsal: nat, ghost bound: nat)
    returns (code: int)
    requires x in r.fss && Forest(r.fss) && Bounded(r.fss, bound)
    modifies r`fss
    ensures Refused(old(r.fss[x]), fsal) ==> code == EINVAL && r.fss == old(r.fss)
    ensures !Refused(old(r.fss[x]), fsal) ==> Result(old(r.fss), r.fss, ask, Claim(path, x, fsal), code)
    decreases bound - |r.fss[x].path|, 1
  {
    hide Forest, Result, ChildrenResult, SameButClaim;
    ghost var a, c := r.fss, Claim(path, x, fsal);
    var self := r.fss[x];
    if self.fsal.Some? && self.fsal != Some(fsal) && self.exported {
      return EINVAL;
    }
    if self.fsal != Some(fsal) {
      self := Unclaimed(self);
    }
    r.fss := r.fss[x := self];
    code := ask(x);
    if code != 0 {
      RootOnly(a, ask, c);
    }
    if code == ENXIO {
      return if path.Some? then EINVAL else 0;
    }
    if code != 0 {
      return;
    }
    self := self.(fsal := Some(fsal), unclaim := true);
    if path.Some? {
      self := self.(exported := true);
    }
    r.fss := r.fss[x := self];
    ghost var b := r.fss;
    assert b == a[x := Settled(a[x], 0, fsal, AsRoot(c, x))];
    SettledShape(a[x], 0, fsal, AsRoot(c, x));
    ClaimedForest(a, x, self);
    ClaimedBounds(a, x, self, bound);
    code := ClaimChildren(r, ask, path, x, fsal, bound);
    RootAndChildren(a, b, r.fss, ask, c, code);
  }

  lemma ClaimedBounds(a: Systems, x: nat, fs: Fs, bound: nat)
    requires x in a && SameButClaim(a[x], fs) && Bounded(a, bound)
    ensures Bounded(a[x := fs], bound) && fs.path == a[x].path && fs.children == a[x].children
  {
  }

  /** The children are claimed one by one until one of them fails. */
  method ClaimChildren(r: Registry, ask: Answers, path: Option<string>, x: nat, fsal: nat, ghost bound: nat)
    returns (code: int)
    requires x in r.fss && Forest(r.fss) && Bounded(r.fss, bound) && ask(x) == 0
    modifies r`fss
    ensures ChildrenResult(old(r.fss), r.fss, ask, Claim(path, x, fsal), code)
    decreases bound - |r.fss[x].path|, 0
  {
    hide Forest, ChildrenResult, Progress, SameShape, Result;
    ghost var a, c := r.fss, Claim(path, x, fsal);
    NoProgress(a, ask, c);
    ChildrenAre(a, x);
    var children := r.fss[x].children;
    code := 0;
    for i := 0 to |children|
      invariant Progress(a, r.fss, ask, c, i) && SameShape(a, r.fss, |a[x].path|) && Forest(r.fss) && Bounded(r.fss, bound)
      invariant code == 0
    {
      ghost var b := r.fss;
      SameKeys(a, b, |a[x].path|);
      var g := children[i];
      if (path.Some? && !(path.value <= r.fss[g].path)) || r.fss[g].exported {
        ChildSkipped(a, b, ask, c, i);
        continue;
      }
      code := ProcessClaim(r, ask, None, g, fsal, bound);
      if code != 0 {
        ChildFails(a, b, r.fss, ask, c, i, code);
        return;
      }
      ChildPasses(a, b, r.fss, ask, c, i, bound);
    }
    AllChildrenDone(a, r.fss, ask, c);
  }

  lemma NoProgress(a: Systems, ask: Answers, c: Claim)
    requires Forest(a) && c.x in a
    ensures Progress(a, a, ask, c, 0) && SameShape(a, a, |a[c.x].path|)
  {
    hide Forest, Comes;
    ChildrenAre(a, c.x);
  }

  lemma ChildFails(a: Systems, b: Systems, b': Systems, ask: Answers, c: Claim, i: nat, code: int)
    requires Forest(a) && Forest(b) && c.x in a && i < |a[c.x].children| && a[c.x].children[i] in a && ask(c.x) == 0
    requires Progress(a, b, ask, c, i) && SameShape(a, b, |a[c.x].path|) && Eligible(a, c, c.x, a[c.x].children[i])
    requires code != 0 && Result(b, b', ask, Below(c, a[c.x].children[i]), code)
    ensures ChildrenResult(a, b', ask, c, code)
  {
    hide Forest, Progress, SameShape, Stopped, ChildrenResult;
    ChildStopped(a, b, b', ask, c, i, code);
  }

  lemma ChildPasses(a: Systems, b: Systems, b': Systems, ask: Answers, c: Claim, i: nat, bound: nat)
    requires Forest(a) && Forest(b) && c.x in a && i < |a[c.x].children| && a[c.x].children[i] in a && Bounded(b, bound)
    requires Progress(a, b, ask, c, i) && SameShape(a, b, |a[c.x].path|) && Eligible(a, c, c.x, a[c.x].children[i])
    requires Result(b, b', ask, Below(c, a[c.x].children[i]), 0)
    ensures Progress(a, b', ask, c, i + 1) && SameShape(a, b', |a[c.x].path|) && Forest(b') && Bounded(b', bound)
  {
    hide Forest, Progress, WentThrough;
    var h, n := a[c.x].children[i], |a[c.x].path|;
    ChildrenAre(a, c.x);
    ChildWentThrough(a, b, b', ask, c, i);
    ResultShape(b, b', ask, Below(c, h), 0, n);
    ShapeKeepsForest(b, b', n);
  }

  // ------------------------------------------------------------ from nothing

  /** What is mounted over NFS is not exported again. */
  ghost predicate NoneNfs(fss: Systems) {
    forall x :: x in fss ==> !IsNfs(fss[x].fsType)
  }

  /** Nobody claims anything yet. */
  ghost predicate NothingClaimed(fss: Systems) {
    forall x :: x in fss ==> fss[x].fsal.None? && !fss[x].exported
  }

  ghost predicate IdsBelow(fss: Systems, n: nat) {
    forall x :: x in fss ==> x < n
  }

  lemma FreshMount(fss: Systems, m: Mount, id: nat)
    requires Unlinked(fss) && NothingClaimed(fss) && IdsBelow(fss, id) && NoneNfs(fss)
    ensures id !in fss
    ensures IdsBelow(fss, id + 1)
    ensures !IsNfs(m.fsType) ==>
      var t := fss[id := Registered(FsOf(m))]; Unlinked(t) && NothingClaimed(t) && IdsBelow(t, id + 1) && NoneNfs(t)
    ensures !IsNfs(m.fsType) ==> forall g :: g in fss ==>
      var t := fss[g := TakesOver(fss[g], FsOf(m))]; Unlinked(t) && NothingClaimed(t) && IdsBelow(t, id + 1) && NoneNfs(t)
  {
    hide IsNfs;
  }

  /** An empty registry is filled from the mount table, and then the forest is built; a filled one is left as it is. */
  method Populate(r: Registry, mounts: seq<Mount>)
    requires Agree(r.State())
    modifies r
    ensures Agree(r.State())
    ensures old(r.list) != [] ==> r.State() == old(r.State())
    ensures old(r.list) == [] ==> Forest(r.fss) && NothingClaimed(r.fss) && ExportsOwned(r.fss) && NoneNfs(r.fss)
    ensures old(r.list) == [] ==> forall x :: x in r.list ==> x in r.fss && IsParent(r.fss, r.list, x, r.fss[x].parent)
  {
    if r.list != [] {
      return;
    }
    NothingLeft(r.State());
    hide Agree, Forest, IsParent, Unlinked, NothingClaimed, IdsBelow, Registered, FsOf, TakesOver, NoneNfs, IsNfs, Duplicates;
    NothingYet();
    for i := 0 to |mounts|
      invariant Agree(r.State()) && Unlinked(r.fss) && NothingClaimed(r.fss) && IdsBelow(r.fss, i) && NoneNfs(r.fss)
    {
      FreshMount(r.fss, mounts[i], i);
      ghost var before := r.fss;
      var _ := r.CreateFileSystem(mounts[i], i);
      DuplicatesAreThere(before, FsOf(mounts[i]));
    }
    ghost var fss := r.fss;
    BuildForest(r);
    ForestBuilt(fss, r.fss, r.list);
    ListedOnce(r.State());
  }

  lemma DuplicatesAreThere(fss: Systems, fs: Fs)
    ensures forall g :: Duplicates(fss, fs, g) ==> g in fss
  {
  }

  lemma NothingYet()
    ensures Unlinked(map[]) && NothingClaimed(map[]) && IdsBelow(map[], 0) && NoneNfs(map[])
  {
  }

  lemma ForestBuilt(fss: Systems, linked: Systems, list: seq<nat>)
    requires Attached(fss, list, linked, |list|) && NothingClaimed(fss) && NoneNfs(fss)
    ensures NothingClaimed(linked) && ExportsOwned(linked) && NoneNfs(linked)
    ensures forall x :: x in list ==> x in linked && IsParent(linked, list, x, linked[x].parent)
  {
    hide IsParent, IsNfs;
    SameFilesBack(fss, linked);
    forall x | x in list
      ensures x in linked && IsParent(linked, list, x, linked[x].parent)
    {
      var j :| 0 <= j < |list| && list[j] == x;
      SameCandidates(linked, fss, list, x, linked[x].parent);
    }
  }

  lemma SameFilesBack(a: Systems, b: Systems)
    requires SameFiles(a, b)
    ensures SameFiles(b, a)
  {
  }

  /** From an empty registry: mounts are registered and linked, and one of them is exported. */
  method PopulateAndClaim(mounts: seq<Mount>, ask: Answers, path: string, x: nat, fsal: nat)
    returns (r: Registry, code: Option<int>, ghost a: Systems)
    ensures fresh(r) && Forest(a) && ExportsOwned(a) && Agree(r.State()) && Forest(r.fss) && ExportsOwned(r.fss)
    ensures code.Some? <==> x in a
    ensures code.Some? ==> Result(a, r.fss, ask, Claim(Some(path), x, fsal), code.value)
    ensures code == Some(0) ==> r.fss[x].exported && r.fss[x].fsal == Some(fsal)
  {
    hide Agree, Forest, Result, ExportsOwned, NothingClaimed, SameShape, IsParent;
    r := new Registry();
    Populate(r, mounts);
    a, code := r.fss, None;
    if x in r.fss {
      ghost var before := r.State();
      ghost var bound := LongestPath(r.fss);
      NotRefused(a, x, fsal);
      var result := ProcessClaim(r, ask, Some(path), x, fsal, bound);
      code := Some(result);
      Exported(a, r.fss, ask, Claim(Some(path), x, fsal), result);
      ResultShape(a, r.fss, ask, Claim(Some(path), x, fsal), result, |a[x].path|);
      ShapeAgrees(before, r.State(), |a[x].path|);
    }
  }

  lemma ShapeAgrees(c: Contents, d: Contents, n: nat)
    requires Agree(c) && SameShape(c.fss, d.fss, n) && d == c.(fss := d.fss)
    ensures Agree(d)
  {
    hide Agree;
    AgreesAlike(c, d);
  }

  lemma NotRefused(a: Systems, x: nat, fsal: nat)
    requires x in a && NothingClaimed(a)
    ensures !Refused(a[x], fsal)
  {
  }

  lemma Exported(a: Systems, b: Systems, ask: Answers, c: Claim, code: int)
    requires Forest(a) && ExportsOwned(a) && c.x in a && !Refused(a[c.x], c.fsal) && Result(a, b, ask, c, code)
    ensures Forest(b) && ExportsOwned(b) && c.x in b
    ensures code == 0 && c.path.Some? ==> b[c.x].exported && b[c.x].fsal == Some(c.fsal)
  {
    hide Forest;
    ClaimRespectsExports(a, b, ask, c, code);
    ResultShape(a, b, ask, c, code, |a[c.x].path|);
    ShapeKeepsForest(a, b, |a[c.x].path|);
    RootComes(a, ask, c);
  }

  /** Paths are bounded, there being finitely many. */
  lemma LongestPath(fss: Systems) returns (bound: nat)
    ensures Bounded(fss, bound)
  {
    bound := 0;
    var rest := fss.Keys;
    while rest != {}
      invariant rest <= fss.Keys && forall x :: x in fss && x !in rest ==> |fss[x].path| <= bound
      decreases |rest|
    {
      var x :| x in rest;
      if |fss[x].path| > bound {
        bound := |fss[x].path|;
      }
      rest := rest - {x};
    }
  }
}
