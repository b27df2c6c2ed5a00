/** Exporting a path: which file system it is on, and what becomes of the others. */
module FsClaims {
  import opened Options
  import opened Lists
  import opened FsIndex
  import opened FsRegistry
  import opened FsForest

  // ------------------------------------------------------------ what a claim leaves alone

  lemma {:induction false} DescendsLonger(fss: Systems, g: nat, h: nat)
    requires Forest(fss) && g in fss && h in fss && Descends(fss, g, h)
    ensures |fss[h].path| <= |fss[g].path| && (g != h ==> |fss[h].path| < |fss[g].path|)
    decreases |fss[g].path|
  {
    if g != h {
      DescendsLonger(fss, fss[g].parent.value, h);
    }
  }

  /** A claim that does not come to h comes to nothing below it. */
  lemma {:induction false} NothingBeyond(fss: Systems, ask: Answers, c: Claim, h: nat, g: nat)
    requires Forest(fss) && c.x in fss && h in fss && g in fss && |fss[c.x].path| < |fss[h].path|
    requires Descends(fss, g, h) && !Comes(fss, ask, c, h)
    ensures !Comes(fss, ask, c, g)
    decreases |fss[g].path|
  {
    hide Eligible;
    DescendsLonger(fss, g, h);
    if g != h {
      NothingBeyond(fss, ask, c, h, fss[g].parent.value);
    }
  }

  /** However an export ends, a file system below x that is outside the exported path stays as it was, with all that is
      mounted below it. */
  lemma PathKeepsOut(a: Systems, b: Systems, ask: Answers, path: string, x: nat, fsal: nat, code: int, h: nat, g: nat)
    requires Forest(a) && x in a && Result(a, b, ask, Claim(Some(path), x, fsal), code) && h in a && g in a
    requires a[h].parent == Some(x) && !(path <= a[h].path) && Descends(a, g, h)
    ensures g in b && b[g] == a[g]
  {
    hide Result, Descends;
    assert |a[x].path| < |a[h].path|;
    NothingBeyond(a, ask, Claim(Some(path), x, fsal), h, g);
    ResultHandles(a, b, ask, Claim(Some(path), x, fsal), code, g);
  }

  /** So does an exported one anywhere below x. */
  lemma ExportKeepsOut(a: Systems, b: Systems, ask: Answers, c: Claim, code: int, h: nat, g: nat)
    requires Forest(a) && c.x in a && Result(a, b, ask, c, code) && h in a && g in a
    requires a[h].exported && h != c.x && Descends(a, h, c.x) && Descends(a, g, h)
    ensures g in b && b[g] == a[g]
  {
    hide Result, Descends;
    DescendsLonger(a, h, c.x);
    NothingBeyond(a, ask, c, h, g);
    ResultHandles(a, b, ask, c, code, g);
  }

  /** And so does all that is mounted below one that the FSAL did not take. */
  lemma DeclinedKeepsOut(a: Systems, b: Systems, ask: Answers, c: Claim, code: int, h: nat, g: nat)
    requires Forest(a) && c.x in a && Result(a, b, ask, c, code) && h in a && g in a
    requires ask(h) != 0 && Descends(a, h, c.x) && Descends(a, g, h) && g != h
    ensures g in b && b[g] == a[g]
  {
    hide Result, Descends;
    DescendsLonger(a, h, c.x);
    NothingBeyondDeclined(a, ask, c, h, g);
    ResultHandles(a, b, ask, c, code, g);
  }

  lemma {:induction false} NothingBeyondDeclined(fss: Systems, ask: Answers, c: Claim, h: nat, g: nat)
    requires Forest(fss) && c.x in fss && h in fss && g in fss && |fss[c.x].path| <= |fss[h].path|
    requires ask(h) != 0 && Descends(fss, g, h) && g != h
    ensures !Comes(fss, ask, c, g)
    decreases |fss[g].path|
  {
    hide Eligible;
    DescendsLonger(fss, g, h);
    var p := fss[g].parent.value;
    if p != h {
      NothingBeyondDeclined(fss, ask, c, h, p);
    }
  }

  // ------------------------------------------------------------ what it takes

  /** From g up to h nothing is exported. */
  ghost predicate Open(fss: Systems, h: nat, g: nat)
    requires Forest(fss) && g in fss
    decreases |fss[g].path|
  {
    !fss[g].exported && (g == h || (fss[g].parent.Some? && Open(fss, h, fss[g].parent.value)))
  }

  /** h is mounted on x, and on the exported path if there is one. */
  ghost predicate MountedOn(fss: Systems, x: nat, path: Option<string>, h: nat) {
    h in fss && fss[h].parent == Some(x) && (path.Some? ==> path.value <= fss[h].path)
  }

  ghost predicate Within(fss: Systems, x: nat, path: Option<string>, g: nat)
    requires Forest(fss) && g in fss
  {
    exists h :: MountedOn(fss, x, path, h) && Open(fss, h, g)
  }

  lemma {:induction false} ComesWithin(fss: Systems, ask: Answers, c: Claim, g: nat)
    requires Forest(fss) && c.x in fss && g in fss && g != c.x && forall k :: k in fss ==> ask(k) == 0
    ensures Comes(fss, ask, c, g) <==> Within(fss, c.x, c.path, g)
    decreases |fss[g].path|
  {
    RootComes(fss, ask, c);
    if fss[g].parent.Some? {
      var p := fss[g].parent.value;
      if p == c.x {
        if Comes(fss, ask, c, g) {
          assert MountedOn(fss, c.x, c.path, g) && Open(fss, g, g);
        }
        forall h | MountedOn(fss, c.x, c.path, h) && Open(fss, h, g)
          ensures h == g
        {
          if h != g {
            OpenDescends(fss, h, c.x);
          }
        }
      } else {
        ComesWithin(fss, ask, c, p);
        assert Comes(fss, ask, c, g) <==> Comes(fss, ask, c, p) && !fss[g].exported;
        if Comes(fss, ask, c, g) {
          var h :| MountedOn(fss, c.x, c.path, h) && Open(fss, h, p);
          assert Open(fss, h, g);
        }
        forall h | MountedOn(fss, c.x, c.path, h) && Open(fss, h, g)
          ensures Open(fss, h, p)
        {
          assert h != g;
        }
      }
    }
  }

  /** Nothing mounted on x is above x. */
  lemma OpenDescends(fss: Systems, h: nat, x: nat)
    requires Forest(fss) && x in fss && h in fss && fss[h].parent == Some(x)
    ensures !Open(fss, h, x)
  {
    hide Open;
    assert |fss[x].path| < |fss[h].path|;
    if Open(fss, h, x) {
      OpenLonger(fss, h, x);
    }
  }

  lemma {:induction false} OpenLonger(fss: Systems, h: nat, g: nat)
    requires Forest(fss) && h in fss && g in fss && Open(fss, h, g)
    ensures |fss[h].path| <= |fss[g].path|
    decreases |fss[g].path|
  {
    if g != h {
      OpenLonger(fss, h, fss[g].parent.value);
    }
  }

  /** An FSAL that takes all it is asked for gets x, and all that is mounted on the path below it and not cut off by an
      exported file system, and nothing else changes. */
  lemma TakesAllWithin(a: Systems, b: Systems, ask: Answers, c: Claim, code: int)
    requires Forest(a) && c.x in a && Result(a, b, ask, c, code) && forall g :: g in a ==> ask(g) == 0
    ensures code == 0 && a.Keys == b.Keys
    ensures b[c.x] == a[c.x].(fsal := Some(c.fsal), unclaim := true,
                              exported := c.path.Some? || (a[c.x].exported && a[c.x].fsal == Some(c.fsal)))
    ensures forall g :: g in a && g != c.x ==>
      b[g] == if Within(a, c.x, c.path, g) then a[g].(fsal := Some(c.fsal), unclaim := true) else a[g]
  {
    hide Forest, Comes, Within, Reached;
    GoesThroughExactly(a, b, ask, c, code);
    RootComes(a, ask, c);
    forall g | g in a && g != c.x
      ensures b[g] == if Within(a, c.x, c.path, g) then a[g].(fsal := Some(c.fsal), unclaim := true) else a[g]
    {
      ComesWithin(a, ask, c, g);
      if Comes(a, ask, c, g) {
        ComesDescends(a, ask, c, g);
      }
    }
  }

  /** An FSAL that does not take x: the export fails, except that a nested file system may be declined; x is taken from
      another FSAL all the same, and nothing else changes. */
  lemma DeclinesRoot(a: Systems, b: Systems, ask: Answers, c: Claim, code: int)
    requires Forest(a) && c.x in a && Result(a, b, ask, c, code) && ask(c.x) != 0
    ensures code == if ask(c.x) == 6 then (if c.path.Some? then 22 else 0) else ask(c.x)
    ensures a.Keys == b.Keys && forall g :: g in a && g != c.x ==> b[g] == a[g]
    ensures b[c.x] == if a[c.x].fsal == Some(c.fsal) then a[c.x] else a[c.x].(fsal := None, unclaim := false, exported := false)
  {
    hide Forest, Comes, Reached;
    RootComes(a, ask, c);
    forall g | g in a && Comes(a, ask, c, g)
      ensures g == c.x
    {
      if g != c.x {
        var h := ComesThrough(a, ask, c, g);
      }
    }
    if code != 0 {
      var f :| StoppedAt(a, b, ask, c, code, f);
      forall g | g in a
        ensures Reached(a, ask, c, f, g) <==> g == c.x
      {
        ReachedFirst(a, ask, c, g);
      }
    }
  }

  /** A file system mounted on an exported one, which the FSAL declines while the export goes through, is taken from any
      other FSAL that had it. */
  lemma DeclinedIsUnclaimed(a: Systems, b: Systems, ask: Answers, c: Claim, h: nat)
    requires Forest(a) && c.x in a && Result(a, b, ask, c, 0) && ask(c.x) == 0
    requires MountedOn(a, c.x, c.path, h) && !a[h].exported && ask(h) != 0
    ensures ask(h) == 6 && h in b
    ensures b[h] == if a[h].fsal == Some(c.fsal) then a[h] else a[h].(fsal := None, unclaim := false)
  {
    hide Forest;
    RootComes(a, ask, c);
    assert Comes(a, ask, c, h);
  }

  // ------------------------------------------------------------ in which order

  /** Child i of x is asked if its turn comes. */
  ghost predicate Tried(fss: Systems, c: Claim, i: nat)
    requires c.x in fss && i < |fss[c.x].children|
  {
    MountedOn(fss, c.x, c.path, fss[c.x].children[i]) && !fss[fss[c.x].children[i]].exported
  }

  /** If a child had been asked by the time f was, so had the children before it, and f is not below one of those. */
  lemma ReachedInOrder(fss: Systems, ask: Answers, c: Claim, f: nat, i: nat, j: nat)
    requires Forest(fss) && c.x in fss && f in fss && i < j < |fss[c.x].children| && fss[c.x].children[j] in fss
    requires Tried(fss, c, i) && Comes(fss, ask, c, f) && f != c.x && Reached(fss, ask, c, f, fss[c.x].children[j])
    ensures Reached(fss, ask, c, f, fss[c.x].children[i]) && f != fss[c.x].children[i]
  {
    hide Forest, Comes, Reached;
    ChildrenAre(fss, c.x);
    var before, child := fss[c.x].children[i], fss[c.x].children[j];
    RootComes(fss, ask, Below(c, before));
    var h := ComesThrough(fss, ask, c, f);
    var k :| 0 <= k < |fss[c.x].children| && fss[c.x].children[k] == h;
    ReachedThrough(fss, ask, c, k, f, child);
    ReachedThrough(fss, ask, c, k, f, before);
    assert j <= k by {
      ReachedByThen(fss, ask, c, f, j, k);
    }
    assert Covered(fss, ask, c, fss[c.x].children, k, before);
    if f == before {
      SubtreesApart(fss, ask, c, before, h, f);
    }
  }

  lemma ReachedByThen(fss: Systems, ask: Answers, c: Claim, f: nat, j: nat, k: nat)
    requires Forest(fss) && c.x in fss && f in fss && j < |fss[c.x].children| && k < |fss[c.x].children|
    requires forall i :: 0 <= i < |fss[c.x].children| ==> fss[c.x].children[i] in fss
    requires Comes(fss, ask, Below(c, fss[c.x].children[k]), f)
    requires Covered(fss, ask, c, fss[c.x].children, k, fss[c.x].children[j])
      || Reached(fss, ask, Below(c, fss[c.x].children[k]), f, fss[c.x].children[j])
    ensures j <= k
  {
    hide Forest, Comes, Reached, Eligible;
    ChildrenAre(fss, c.x);
    var children := fss[c.x].children;
    var child := children[j];
    RootComes(fss, ask, Below(c, child));
    var i: nat;
    if Covered(fss, ask, c, children, k, child) {
      i :| 0 <= i < k && Eligible(fss, c, c.x, children[i]) && Comes(fss, ask, Below(c, children[i]), child);
    } else {
      i := k;
      ReachedComes(fss, ask, Below(c, children[k]), f, child);
    }
    SubtreesApart(fss, ask, c, children[i], child, child);
    OnePlace(children, i, j);
  }

  lemma OnePlace(s: seq<nat>, i: nat, j: nat)
    requires NoRepeats(s) && i < |s| && j < |s| && s[i] == s[j]
    ensures i == j
  {
  }

  /** The children are asked in their order: if one is changed, each one before it was taken or declined, and if taken, it
      is the FSAL's by then. */
  lemma ClaimedInOrder(a: Systems, b: Systems, ask: Answers, c: Claim, code: int, i: nat, j: nat)
    requires Forest(a) && c.x in a && Result(a, b, ask, c, code) && ask(c.x) == 0
    requires i < j < |a[c.x].children| && Tried(a, c, i)
    ensures a.Keys == b.Keys && a[c.x].children[i] in a && a[c.x].children[j] in a
    ensures var before, child := a[c.x].children[i], a[c.x].children[j];
      b[child] != a[child] ==>
        (ask(before) == 0 || ask(before) == 6) && (ask(before) == 0 ==> b[before].fsal == Some(c.fsal))
  {
    hide Forest, Reached, Comes;
    var before, child := a[c.x].children[i], a[c.x].children[j];
    ChildrenAre(a, c.x);
    ChildComes(a, ask, c, before);
    ResultHandles(a, b, ask, c, code, c.x);
    if code != 0 && b[child] != a[child] {
      var f :| StoppedAt(a, b, ask, c, code, f);
      ReachedInOrder(a, ask, c, f, i, j);
    }
  }

  lemma ChildComes(a: Systems, ask: Answers, c: Claim, h: nat)
    requires Forest(a) && c.x in a && ask(c.x) == 0 && MountedOn(a, c.x, c.path, h) && !a[h].exported
    ensures Comes(a, ask, c, h)
  {
    hide Forest;
    RootComes(a, ask, c);
  }

  // ------------------------------------------------------------ the root of an export

  const ENOENT := 2

  /** The path leads through the mount point. */
  predicate Covers(fs: Fs, path: string) {
    |fs.path| > 0 && (fs.path == "/" || (fs.path <= path && (|path| == |fs.path| || path[|fs.path|] == '/')))
  }

  /** root, at position k, covers the path with the longest mount point, and is the first listed that does. */
  ghost predicate IsDeepest(fss: Systems, list: seq<nat>, path: string, root: nat, k: int)
    requires forall g :: g in list ==> g in fss
  {
    0 <= k < |list| && list[k] == root && Covers(fss[root], path)
    && (forall i :: 0 <= i < |list| && Covers(fss[list[i]], path) ==> |fss[list[i]].path| <= |fss[root].path|)
    && (forall i :: 0 <= i < k && Covers(fss[list[i]], path) ==> |fss[list[i]].path| < |fss[root].path|)
  }

  ghost predicate IsExportRoot(fss: Systems, list: seq<nat>, path: string, root: Option<nat>)
    requires forall g :: g in list ==> g in fss
  {
    match root
    case None => forall g :: g in list ==> !Covers(fss[g], path)
    case Some(x) => exists k :: IsDeepest(fss, list, path, x, k)
  }

  method FindExportRoot(fss: Systems, list: seq<nat>, path: string) returns (root: Option<nat>)
    requires forall g :: g in list ==> g in fss
    ensures IsExportRoot(fss, list, path, root)
  {
    root := None;
    var outlen := 0;
    ghost var k := 0;
    for i := 0 to |list|
      invariant root.None? ==> outlen == 0
      invariant root.Some? ==> 0 <= k < i && list[k] == root.value && Covers(fss[root.value], path)
      invariant root.Some? ==> outlen == |fss[root.value].path|
      invariant root.Some? ==> forall j :: 0 <= j < k && Covers(fss[list[j]], path) ==> |fss[list[j]].path| < outlen
      invariant forall j :: 0 <= j < i && Covers(fss[list[j]], path) ==> |fss[list[j]].path| <= outlen
    {
      var fs := fss[list[i]];
      if |fs.path| > outlen {
        if fs.path == "/" {
          outlen, root, k := |fs.path|, Some(list[i]), i;
        } else if |fs.path| <= |path| && fs.path == path[..|fs.path|]
               && (|fs.path| == |path| || path[|fs.path|] == '/') {
          outlen, root, k := |fs.path|, Some(list[i]), i;
        }
      }
    }
    if root.Some? {
      assert IsDeepest(fss, list, path, root.value, k);
    }
  }

  /** A path that is itself a mount point is exported from a file system mounted there; only a path of one letter can
      lose to the root, which covers every path. */
  lemma MountPointIsRoot(fss: Systems, list: seq<nat>, path: string, root: Option<nat>, g: nat)
    requires (forall g :: g in list ==> g in fss) && IsExportRoot(fss, list, path, root)
    requires g in list && fss[g].path == path && path != []
    ensures root.Some? && root.value in fss
    ensures fss[root.value].path == path || (|path| == 1 && fss[root.value].path == "/")
  {
    assert Covers(fss[g], path);
    var i :| 0 <= i < |list| && list[i] == g;
    assert Covers(fss[list[i]], path);
    var k :| IsDeepest(fss, list, path, root.value, k);
    var p := fss[root.value].path;
    assert |p| >= |path| && (p == "/" || p <= path);
    if p <= path {
      assert p == path;
    }
  }

  /**
   * Exports a path: the file system it is on is claimed, with what is mounted below the path. There is no such file
   * system exactly when ENOENT comes back and nothing changes; the root is returned exactly when the claim went through.
   */
  method ClaimPosixFilesystems(r: Registry, ask: Answers, path: string, fsal: nat)
    returns (code: int, rootFs: Option<nat>, ghost root: Option<nat>)
    requires Agree(r.State()) && Forest(r.fss) && ExportsOwned(r.fss)
    modifies r`fss
    ensures forall g :: g in r.list ==> g in old(r.fss)
    ensures IsExportRoot(old(r.fss), r.list, path, root)
    ensures root.None? ==> code == ENOENT && r.fss == old(r.fss)
    ensures root.Some? ==> root.value in old(r.fss) && var fs := old(r.fss)[root.value];
      if Refused(fs, fsal) then code == EINVAL && r.fss == old(r.fss)
      else Result(old(r.fss), r.fss, ask, Claim(Some(path), root.value, fsal), code)
    ensures rootFs == if code == 0 then root else None
    ensures code == 0 ==> root.Some? && root.value in r.fss && r.fss[root.value].exported && r.fss[root.value].fsal == Some(fsal)
    ensures Agree(r.State()) && Forest(r.fss) && ExportsOwned(r.fss)
  {
    hide Agree, Forest, Result, ExportsOwned, SameShape, IsDeepest;
    ghost var a := r.fss;
    ListedOnce(r.State());
    var found := FindExportRoot(r.fss, r.list, path);
    root, rootFs := found, None;
    if found.None? {
      return ENOENT, None, None;
    }
    var x := found.value;
    RootIsListed(r.fss, r.list, path, x);
    ghost var before := r.State();
    ghost var bound := LongestPath(r.fss);
    code := ProcessClaim(r, ask, Some(path), x, fsal, bound);
    if code == 0 {
      rootFs := found;
    }
    if !Refused(a[x], fsal) {
      Exported(a, r.fss, ask, Claim(Some(path), x, fsal), code);
      ResultShape(a, r.fss, ask, Claim(Some(path), x, fsal), code, |a[x].path|);
      ShapeAgrees(before, r.State(), |a[x].path|);
    }
  }

  lemma RootIsListed(fss: Systems, list: seq<nat>, path: string, x: nat)
    requires (forall g :: g in list ==> g in fss) && IsExportRoot(fss, list, path, Some(x))
    ensures x in fss && x in list
  {
    var k :| IsDeepest(fss, list, path, x, k);
  }
}
