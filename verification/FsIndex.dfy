/** File systems, the two orders they are indexed by, and ordered indexes with unique keys. */
module FsIndex {
  import opened Lists
  import opened Options

  datatype FsidType = NoType | OneUint64 | Major64 | TwoUint64 | TwoUint32 | Device

  /** A file system: where it is mounted, its two keys, its place in the forest, and the FSAL that claims it. */
  datatype Fs = Fs(
    path: string, device: string, fsType: string,
    fsidType: FsidType, major: nat, minor: nat, devMajor: nat, devMinor: nat,
    inFsid: bool, inDev: bool,
    parent: Option<nat>, children: seq<nat>,
    fsal: Option<nat>, unclaim: bool, exported: bool)

  // ------------------------------------------------------------ the two comparators

  function CompareFsid(l: Fs, r: Fs): int {
    if l.major < r.major then -1
    else if l.major > r.major then 1
    else if l.fsidType.Major64? && r.fsidType.Major64? then 0
    else if l.fsidType.Major64? then -1
    else if r.fsidType.Major64? then 1
    else if l.minor < r.minor then -1
    else if l.minor > r.minor then 1
    else 0
  }

  function CompareDev(l: Fs, r: Fs): int {
    if l.devMajor < r.devMajor then -1
    else if l.devMajor > r.devMajor then 1
    else if l.devMinor < r.devMinor then -1
    else if l.devMinor > r.devMinor then 1
    else 0
  }

  /** What a comparator looks at; no minor sorts before any minor. */
  datatype Key = Key(major: nat, minor: Option<nat>)

  function FsidKey(fs: Fs): Key {
    Key(fs.major, if fs.fsidType.Major64? then None else Some(fs.minor))
  }

  function DevKey(fs: Fs): Key {
    Key(fs.devMajor, Some(fs.devMinor))
  }

  predicate Less(a: Key, b: Key) {
    a.major < b.major
    || (a.major == b.major && b.minor.Some? && (a.minor.None? || a.minor.value < b.minor.value))
  }

  /** Both comparators decide a strict total order on keys, and call equal exactly what has the same key. */
  lemma ComparatorsAreOrders(l: Fs, r: Fs)
    ensures CompareFsid(l, r) < 0 <==> Less(FsidKey(l), FsidKey(r))
    ensures CompareFsid(l, r) == 0 <==> FsidKey(l) == FsidKey(r)
    ensures CompareFsid(l, r) > 0 <==> Less(FsidKey(r), FsidKey(l))
    ensures CompareDev(l, r) < 0 <==> Less(DevKey(l), DevKey(r))
    ensures CompareDev(l, r) == 0 <==> DevKey(l) == DevKey(r)
    ensures CompareDev(l, r) > 0 <==> Less(DevKey(r), DevKey(l))
  {
  }

  lemma LessIsStrictTotal(a: Key, b: Key, c: Key)
    ensures !Less(a, a)
    ensures Less(a, b) || a == b || Less(b, a)
    ensures !(Less(a, b) && Less(b, a))
    ensures Less(a, b) && Less(b, c) ==> Less(a, c)
  {
  }

  // ------------------------------------------------------------ ordered indexes

  type Keys = map<nat, Key>

  predicate Keyed(index: seq<nat>, keys: Keys) {
    forall i :: 0 <= i < |index| ==> index[i] in keys
  }

  ghost predicate Ordered(index: seq<nat>, keys: Keys) {
    Keyed(index, keys) && forall i, j :: 0 <= i < j < |index| ==> Less(keys[index[i]], keys[index[j]])
  }

  /** The entry with a given key. */
  function Find(index: seq<nat>, keys: Keys, key: Key): (r: Option<nat>)
    requires Keyed(index, keys)
    ensures r.Some? ==> r.value in index && keys[r.value] == key
    ensures r.None? ==> forall x :: x in index ==> keys[x] != key
  {
    if index == [] then None
    else if keys[index[0]] == key then Some(index[0])
    else Find(index[1..], keys, key)
  }

  /** The index with x put before the first entry of a greater key. */
  function Inserted(index: seq<nat>, keys: Keys, x: nat): (r: seq<nat>)
    requires Keyed(index, keys) && x in keys
    ensures forall y :: y in r <==> y in index || y == x
  {
    if index == [] then [x]
    else if Less(keys[x], keys[index[0]]) then [x] + index
    else [index[0]] + Inserted(index[1..], keys, x)
  }

  lemma OrderedTail(index: seq<nat>, keys: Keys)
    requires Ordered(index, keys) && index != []
    ensures Ordered(index[1..], keys)
    ensures forall y :: y in index[1..] ==> Less(keys[index[0]], keys[y])
  {
  }

  lemma OrderedCons(x: nat, index: seq<nat>, keys: Keys)
    requires Ordered(index, keys) && x in keys && forall y :: y in index ==> Less(keys[x], keys[y])
    ensures Ordered([x] + index, keys)
  {
    var r := [x] + index;
    forall i, j | 0 <= i < j < |r|
      ensures Less(keys[r[i]], keys[r[j]])
    {
      assert r[j] == index[j - 1];
      if i > 0 {
        assert r[i] == index[i - 1];
      }
    }
  }

  lemma {:induction false} InsertKeepsOrder(index: seq<nat>, keys: Keys, x: nat)
    requires Ordered(index, keys) && x in keys && forall y :: y in index ==> keys[y] != keys[x]
    ensures Ordered(Inserted(index, keys, x), keys)
    decreases |index|
  {
    if index == [] {
    } else if Less(keys[x], keys[index[0]]) {
      forall y | y in index
        ensures Less(keys[x], keys[y])
      {
        if y != index[0] {
          OrderedTail(index, keys);
          LessIsStrictTotal(keys[x], keys[index[0]], keys[y]);
        }
      }
      OrderedCons(x, index, keys);
    } else {
      OrderedTail(index, keys);
      InsertKeepsOrder(index[1..], keys, x);
      LessIsStrictTotal(keys[x], keys[index[0]], keys[x]);
      OrderedCons(index[0], Inserted(index[1..], keys, x), keys);
    }
  }

  lemma {:induction false} RemoveKeepsOrder(index: seq<nat>, keys: Keys, x: nat)
    requires Ordered(index, keys)
    ensures Ordered(Without(index, x), keys) && forall y :: y in Without(index, x) ==> y in index
    decreases |index|
  {
    if index != [] {
      OrderedTail(index, keys);
      if index[0] != x {
        RemoveKeepsOrder(index[1..], keys, x);
        OrderedCons(index[0], Without(index[1..], x), keys);
      }
    }
  }

  lemma OrderedHasNoRepeats(index: seq<nat>, keys: Keys)
    requires Ordered(index, keys)
    ensures NoRepeats(index)
  {
    forall i, j | 0 <= i < j < |index|
      ensures index[i] != index[j]
    {
      assert Less(keys[index[i]], keys[index[j]]);
    }
  }

  /** Putting back an entry that was taken out restores the index. */
  lemma {:induction false} ReinsertRestores(index: seq<nat>, keys: Keys, x: nat)
    requires Ordered(index, keys) && x in index
    ensures Keyed(Without(index, x), keys) && Inserted(Without(index, x), keys, x) == index
    decreases |index|
  {
    hide Ordered, Less;
    var rest := index[1..];
    assert index == [index[0]] + rest;
    OrderedTail(index, keys);
    KeyedByOrder(index, keys);
    KeyedByOrder(rest, keys);
    if index[0] == x {
      if rest != [] {
        FirstIsIn(rest);
      }
    } else {
      ReinsertRestores(rest, keys, x);
      LessIsStrictTotal(keys[index[0]], keys[x], keys[index[0]]);
      InsertedAfter(index[0], Without(rest, x), keys, x);
    }
  }

  lemma InsertedAfter(y: nat, index: seq<nat>, keys: Keys, x: nat)
    requires y in keys && x in keys && Keyed(index, keys) && !Less(keys[x], keys[y])
    ensures Keyed([y] + index, keys) && Inserted([y] + index, keys, x) == [y] + Inserted(index, keys, x)
  {
    assert ([y] + index)[1..] == index;
  }

  lemma HeadIsLeast(index: seq<nat>, keys: Keys, x: nat)
    requires Ordered(index, keys) && x in index
    ensures x == index[0] || Less(keys[index[0]], keys[x])
    ensures forall y :: y in index[1..] <==> y in index && y != index[0]
  {
    OrderedTail(index, keys);
    OrderedHasNoRepeats(index, keys);
    HeadFits(index);
  }

  lemma FirstIsIn(index: seq<nat>)
    requires index != []
    ensures index[0] in index
  {
  }

  /** An ordered index is determined by its entries. */
  lemma {:induction false} OrderedIsUnique(a: seq<nat>, b: seq<nat>, keys: Keys)
    requires Ordered(a, keys) && Ordered(b, keys) && forall x :: x in a <==> x in b
    ensures a == b
    decreases |a|
  {
    if a == [] {
      if b != [] {
        FirstIsIn(b);
      }
    } else {
      FirstIsIn(a);
      var x := a[0];
      HeadIsLeast(b, keys, x);
      FirstIsIn(b);
      HeadIsLeast(a, keys, b[0]);
      LessIsStrictTotal(keys[x], keys[b[0]], keys[x]);
      OrderedTail(a, keys);
      OrderedTail(b, keys);
      OrderedIsUnique(a[1..], b[1..], keys);
    }
  }

  /** The order depends only on the keys of the entries. */
  lemma SameKeysSameOrder(index: seq<nat>, keys: Keys, other: Keys)
    requires Ordered(index, keys) && Keyed(index, other) && forall y :: y in index ==> other[y] == keys[y]
    ensures Ordered(index, other)
  {
  }

  // ------------------------------------------------------------ an index and the entries marked as being in it

  /** The index is in order and holds exactly the marked entries. */
  ghost predicate IndexFits(index: seq<nat>, keys: Keys, marked: set<nat>) {
    Ordered(index, keys) && forall x :: x in index <==> x in marked
  }

  /** Some other entry has the key already. */
  ghost predicate Taken(index: seq<nat>, keys: Keys, f: nat, key: Key) {
    exists g :: g in index && g != f && g in keys && keys[g] == key
  }

  /** The key of f itself does not matter. */
  lemma TakenByOthers(index: seq<nat>, keys: Keys, f: nat, own: Key, key: Key)
    ensures Taken(index, keys[f := own], f, key) <==> Taken(index, keys, f, key)
  {
    var moved := keys[f := own];
    forall g | g in index && g != f && g in keys && keys[g] == key
      ensures moved[g] == key
    {
    }
    forall g | g in index && g != f && g in moved && moved[g] == key
      ensures g in keys && keys[g] == key
    {
    }
  }

  /** The index with f taken out, if it was in. */
  function Outside(index: seq<nat>, marked: set<nat>, f: nat): seq<nat> {
    if f in marked then Without(index, f) else index
  }

  lemma OutsideFits(index: seq<nat>, keys: Keys, marked: set<nat>, f: nat)
    requires IndexFits(index, keys, marked)
    ensures IndexFits(Outside(index, marked, f), keys, marked - {f})
  {
    if f in marked {
      OrderedHasNoRepeats(index, keys);
      WithoutFits(index, f);
      RemoveKeepsOrder(index, keys, f);
    }
  }

  /** Outside the index, f may take any key. */
  lemma OutsideRekeyed(index: seq<nat>, keys: Keys, marked: set<nat>, f: nat, key: Key)
    requires IndexFits(index, keys, marked)
    ensures IndexFits(Outside(index, marked, f), keys[f := key], marked - {f})
  {
    hide Ordered;
    OutsideFits(index, keys, marked, f);
    var out := Outside(index, marked, f);
    KeyedByOrder(out, keys);
    SameKeysSameOrder(out, keys, keys[f := key]);
  }

  lemma KeyedByOrder(index: seq<nat>, keys: Keys)
    requires Ordered(index, keys)
    ensures Keyed(index, keys)
  {
  }

  /** A free key is accepted. */
  lemma MoveAccepted(index: seq<nat>, keys: Keys, marked: set<nat>, f: nat, key: Key)
    requires IndexFits(index, keys, marked) && f in keys
    ensures var out := Outside(index, marked, f);
      Keyed(out, keys[f := key]) && (Find(out, keys[f := key], key).Some? <==> Taken(index, keys, f, key))
    ensures !Taken(index, keys, f, key) ==>
      IndexFits(Inserted(Outside(index, marked, f), keys[f := key], f), keys[f := key], marked + {f})
  {
    var out, moved := Outside(index, marked, f), keys[f := key];
    OutsideRekeyed(index, keys, marked, f, key);
    assert forall x :: x in out <==> x in index && x != f;
    var node := Find(out, moved, key);
    if node.Some? {
      assert moved[node.value] == keys[node.value];
    } else {
      InsertKeepsOrder(out, moved, f);
    }
  }

  /** After a rejected move the old key goes back in, and the index is what it was. */
  lemma MoveUndone(index: seq<nat>, keys: Keys, marked: set<nat>, f: nat)
    requires IndexFits(index, keys, marked) && f in marked
    ensures f in keys && Keyed(Outside(index, marked, f), keys)
    ensures Find(Outside(index, marked, f), keys, keys[f]).None?
    ensures Inserted(Outside(index, marked, f), keys, f) == index
  {
    ReinsertRestores(index, keys, f);
    UniqueKeys(index, keys, f);
    OutsideFits(index, keys, marked, f);
  }

  lemma UniqueKeys(index: seq<nat>, keys: Keys, x: nat)
    requires Ordered(index, keys) && x in index
    ensures forall y :: y in index && y != x ==> keys[y] != keys[x]
  {
    var i :| 0 <= i < |index| && index[i] == x;
    forall y | y in index && y != x
      ensures keys[y] != keys[x]
    {
      var j :| 0 <= j < |index| && index[j] == y;
      if i < j {
        assert Less(keys[index[i]], keys[index[j]]);
      } else {
        assert Less(keys[index[j]], keys[index[i]]);
      }
    }
  }

  // ------------------------------------------------------------ looking up in a tree

  /** A search tree over an index. */
  datatype Tree = Leaf | Node(left: Tree, fs: nat, right: Tree)

  function InOrder(t: Tree): seq<nat> {
    match t
    case Leaf => []
    case Node(left, fs, right) => InOrder(left) + [fs] + InOrder(right)
  }

  type Systems = map<nat, Fs>

  function FsidKeys(fss: Systems): (keys: Keys)
    ensures keys.Keys == fss.Keys && forall x :: x in fss ==> keys[x] == FsidKey(fss[x])
  {
    map x | x in fss :: FsidKey(fss[x])
  }

  function DevKeys(fss: Systems): (keys: Keys)
    ensures keys.Keys == fss.Keys && forall x :: x in fss ==> keys[x] == DevKey(fss[x])
  {
    map x | x in fss :: DevKey(fss[x])
  }

  /** The file systems marked as being in each index. */
  function FsidMarked(fss: Systems): set<nat> {
    set x | x in fss && fss[x].inFsid
  }

  function DevMarked(fss: Systems): set<nat> {
    set x | x in fss && fss[x].inDev
  }

  lemma FsidUpdate(fss: Systems, f: nat, fs: Fs)
    ensures FsidKeys(fss[f := fs]) == FsidKeys(fss)[f := FsidKey(fs)]
    ensures FsidMarked(fss[f := fs]) == if fs.inFsid then FsidMarked(fss) + {f} else FsidMarked(fss) - {f}
  {
    hide FsidKey;
  }

  lemma DevUpdate(fss: Systems, f: nat, fs: Fs)
    ensures DevKeys(fss[f := fs]) == DevKeys(fss)[f := DevKey(fs)]
    ensures DevMarked(fss[f := fs]) == if fs.inDev then DevMarked(fss) + {f} else DevMarked(fss) - {f}
  {
    hide DevKey;
  }

  lemma SubtreesOrdered(t: Tree, keys: Keys)
    requires t.Node? && Ordered(InOrder(t), keys)
    ensures Ordered(InOrder(t.left), keys) && Ordered(InOrder(t.right), keys) && t.fs in keys
    ensures forall x :: x in InOrder(t.left) ==> Less(keys[x], keys[t.fs])
    ensures forall x :: x in InOrder(t.right) ==> Less(keys[t.fs], keys[x])
    ensures forall x :: x in InOrder(t) <==> x in InOrder(t.left) || x == t.fs || x in InOrder(t.right)
  {
    hide Ordered, Less;
    var l, r := InOrder(t.left), InOrder(t.right);
    LeftOf(l, t.fs, r, keys);
    RightOf(l, t.fs, r, keys);
  }

  lemma LeftOf(l: seq<nat>, y: nat, r: seq<nat>, keys: Keys)
    requires Ordered(l + [y] + r, keys)
    ensures y in keys && Ordered(l, keys) && forall x :: x in l ==> Less(keys[x], keys[y])
  {
    hide Ordered, Less;
    var all, n := l + [y] + r, |l|;
    KeyedByOrder(all, keys);
    assert all[n] == y && all[0..n] == l;
    OrderedSlice(all, keys, 0, n);
    KeyedByOrder(l, keys);
    forall i | 0 <= i < n
      ensures Less(keys[l[i]], keys[y])
    {
      OrderedLess(all, keys, i, n);
    }
  }

  lemma RightOf(l: seq<nat>, y: nat, r: seq<nat>, keys: Keys)
    requires Ordered(l + [y] + r, keys)
    ensures y in keys && Ordered(r, keys) && forall x :: x in r ==> Less(keys[y], keys[x])
  {
    hide Ordered, Less;
    var all, n := l + [y] + r, |l|;
    KeyedByOrder(all, keys);
    assert all[n] == y && all[n + 1..|all|] == r;
    OrderedSlice(all, keys, n + 1, |all|);
    KeyedByOrder(r, keys);
    forall i | 0 <= i < |r|
      ensures Less(keys[y], keys[r[i]])
    {
      OrderedLess(all, keys, n, n + 1 + i);
    }
  }

  lemma OrderedSlice(index: seq<nat>, keys: Keys, lo: nat, hi: nat)
    requires Ordered(index, keys) && lo <= hi <= |index|
    ensures Ordered(index[lo..hi], keys)
  {
  }

  lemma OrderedLess(index: seq<nat>, keys: Keys, i: nat, j: nat)
    requires Ordered(index, keys) && i < j < |index|
    ensures index[i] in keys && index[j] in keys && Less(keys[index[i]], keys[index[j]])
  {
  }

  /** A key other than the root's can only be on its own side. */
  lemma SearchSide(t: Tree, keys: Keys, key: Key, x: nat)
    requires t.Node? && Ordered(InOrder(t), keys) && x in InOrder(t) && x in keys && keys[x] == key
    ensures t.fs in keys
    ensures Less(keys[t.fs], key) ==> x in InOrder(t.right)
    ensures Less(key, keys[t.fs]) ==> x in InOrder(t.left)
  {
    SubtreesOrdered(t, keys);
    LessIsStrictTotal(keys[t.fs], key, keys[t.fs]);
  }

  /** What a lookup finds, on any search tree over the index. */
  ghost predicate Finds(root: Tree, keys: Keys, key: Key, r: Option<nat>) {
    match r
    case Some(x) => x in InOrder(root) && x in keys && keys[x] == key
    case None => forall x :: x in InOrder(root) && x in keys ==> keys[x] != key
  }

  ghost predicate Narrowed(root: Tree, node: Tree, keys: Keys, key: Key) {
    Ordered(InOrder(node), keys)
    && (forall x :: x in InOrder(node) ==> x in InOrder(root))
    && forall x :: x in InOrder(root) && x in keys && keys[x] == key ==> x in InOrder(node)
  }

  lemma NarrowStep(root: Tree, node: Tree, keys: Keys, key: Key)
    requires node.Node? && Narrowed(root, node, keys, key)
    ensures node.fs in keys && node.fs in InOrder(root)
    ensures Less(key, keys[node.fs]) ==> Narrowed(root, node.left, keys, key)
    ensures Less(keys[node.fs], key) ==> Narrowed(root, node.right, keys, key)
  {
    SubtreesOrdered(node, keys);
    forall x | x in InOrder(root) && x in keys && keys[x] == key
      ensures Less(key, keys[node.fs]) ==> x in InOrder(node.left)
      ensures Less(keys[node.fs], key) ==> x in InOrder(node.right)
    {
      SearchSide(node, keys, key, x);
    }
  }

  method FsidLookup(root: Tree, fss: Systems, key: Fs) returns (r: Option<nat>)
    requires Ordered(InOrder(root), FsidKeys(fss))
    ensures Finds(root, FsidKeys(fss), FsidKey(key), r)
  {
    hide InOrder, Ordered;
    var node := root;
    while node.Node?
      invariant Narrowed(root, node, FsidKeys(fss), FsidKey(key))
      decreases node
    {
      NarrowStep(root, node, FsidKeys(fss), FsidKey(key));
      ComparatorsAreOrders(fss[node.fs], key);
      var res := CompareFsid(fss[node.fs], key);
      if res == 0 {
        return Some(node.fs);
      }
      node := if res > 0 then node.left else node.right;
    }
    NothingInLeaf();
    return None;
  }

  method DevLookup(root: Tree, fss: Systems, key: Fs) returns (r: Option<nat>)
    requires Ordered(InOrder(root), DevKeys(fss))
    ensures Finds(root, DevKeys(fss), DevKey(key), r)
  {
    hide InOrder, Ordered;
    var node := root;
    while node.Node?
      invariant Narrowed(root, node, DevKeys(fss), DevKey(key))
      decreases node
    {
      NarrowStep(root, node, DevKeys(fss), DevKey(key));
      ComparatorsAreOrders(fss[node.fs], key);
      var res := CompareDev(fss[node.fs], key);
      if res == 0 {
        return Some(node.fs);
      }
      node := if res > 0 then node.left else node.right;
    }
    NothingInLeaf();
    return None;
  }

  lemma NothingInLeaf()
    ensures InOrder(Leaf) == []
  {
  }
}
