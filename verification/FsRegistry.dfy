/** The registry of POSIX file systems: a list and two ordered indexes that must agree. */
module FsRegistry {
  import opened Options
  import opened Lists
  import opened FsIndex
  import opened FsidTypes

  datatype Code = Ok | Einval | Eexist

  /** What mount table and kernel report of a mounted file system; `probed` is false when it could not be examined. */
  datatype Mount = Mount(
    path: string, device: string, fsType: string, probed: bool,
    fsidType: FsidType, major: nat, minor: nat, devMajor: nat, devMinor: nat)

  function Lower(c: char): char {
    if 'A' <= c <= 'Z' then c - 'A' + 'a' else c
  }

  predicate IsNfs(fsType: string) {
    |fsType| >= 3 && Lower(fsType[0]) == 'n' && Lower(fsType[1]) == 'f' && Lower(fsType[2]) == 's'
  }

  lemma NfsNames(fsType: string)
    ensures IsNfs(fsType)
       <==> |fsType| >= 3 && fsType[0] in {'n', 'N'} && fsType[1] in {'f', 'F'} && fsType[2] in {'s', 'S'}
  {
  }

  predicate OnDevice(fs: Fs) {
    |fs.device| > 0 && fs.device[0] == '/'
  }

  function FsOf(m: Mount): Fs {
    Fs(m.path, m.device, m.fsType, m.fsidType, m.major, m.minor, m.devMajor, m.devMinor,
       false, false, None, [], None, false, false)
  }

  /** A registered file system takes over device and type from a duplicate that has a real device. */
  function TakesOver(kept: Fs, duplicate: Fs): (r: Fs)
    ensures OnDevice(r) <==> OnDevice(kept) || OnDevice(duplicate)
    ensures OnDevice(kept) || !OnDevice(duplicate) ==> r == kept
    ensures (r.device, r.fsType) in {(kept.device, kept.fsType), (duplicate.device, duplicate.fsType)}
    ensures r == kept.(device := r.device, fsType := r.fsType)
  {
    if !OnDevice(kept) && OnDevice(duplicate) then kept.(device := duplicate.device, fsType := duplicate.fsType) else kept
  }

  /** The registry as a value. */
  datatype Contents = Contents(fss: Systems, list: seq<nat>, fsidIndex: seq<nat>, devIndex: seq<nat>)

  /** Both indexes are ordered by the current keys and hold exactly the file systems marked as indexed. */
  ghost predicate Indexed(c: Contents) {
    IndexFits(c.fsidIndex, FsidKeys(c.fss), FsidMarked(c.fss)) && IndexFits(c.devIndex, DevKeys(c.fss), DevMarked(c.fss))
  }

  /** List and indexes hold the same file systems. */
  ghost predicate Agree(c: Contents) {
    Indexed(c) && NoRepeats(c.list) && (forall x :: x in c.list <==> x in c.fss)
    && FsidMarked(c.fss) == c.fss.Keys && DevMarked(c.fss) == c.fss.Keys
  }

  /** What a change of one file system means for the indexes. */
  lemma FsidUntouched(fss: Systems, f: nat, fs: Fs)
    requires f in fss && FsidKey(fs) == FsidKey(fss[f]) && fs.inFsid == fss[f].inFsid
    ensures FsidKeys(fss[f := fs]) == FsidKeys(fss) && FsidMarked(fss[f := fs]) == FsidMarked(fss)
  {
    hide FsidKey;
  }

  lemma DevUntouched(fss: Systems, f: nat, fs: Fs)
    requires f in fss && DevKey(fs) == DevKey(fss[f]) && fs.inDev == fss[f].inDev
    ensures DevKeys(fss[f := fs]) == DevKeys(fss) && DevMarked(fss[f := fs]) == DevMarked(fss)
  {
    hide DevKey;
  }

  function Moved(fs: Fs, fsidType: FsidType, major: nat, minor: nat, inFsid: bool): (r: Fs)
    ensures FsidKey(r) == Key(major, if fsidType.Major64? then None else Some(minor)) && r.inFsid == inFsid
    ensures r.fsidType == fsidType
    ensures DevKey(r) == DevKey(fs) && r.inDev == fs.inDev
  {
    fs.(fsidType := fsidType, major := major, minor := minor, inFsid := inFsid)
  }

  function MovedDev(fs: Fs, devMajor: nat, devMinor: nat, inDev: bool): (r: Fs)
    ensures DevKey(r) == Key(devMajor, Some(devMinor)) && r.inDev == inDev
    ensures FsidKey(r) == FsidKey(fs) && r.inFsid == fs.inFsid
  {
    fs.(devMajor := devMajor, devMinor := devMinor, inDev := inDev)
  }

  datatype Op =
    | Create(m: Mount, id: nat)
    | MoveFsid(f: nat, fsidType: FsidType, major: nat, minor: nat)
    | MoveDev(f: nat, dev: Option<(nat, nat)>)
    | Retype(f: nat, fsidType: FsidType)
    | Release

  lemma AgreeIndexes(c: Contents)
    requires Agree(c)
    ensures Indexed(c)
  {
  }

  class Registry {
    var fss: Systems
    var list: seq<nat>
    var fsidIndex: seq<nat>
    var devIndex: seq<nat>

    ghost function State(): Contents
      reads this
    {
      Contents(fss, list, fsidIndex, devIndex)
    }

    constructor ()
      ensures Agree(State()) && list == []
    {
      fss, list, fsidIndex, devIndex := map[], [], [], [];
    }

    /** An entry of the same key keeps the newcomer out, and is returned. */
    method InsertFsid(x: nat) returns (node: Option<nat>)
      requires x in fss && Keyed(fsidIndex, FsidKeys(fss))
      modifies this`fsidIndex
      ensures node == Find(old(fsidIndex), FsidKeys(fss), FsidKey(fss[x]))
      ensures fsidIndex == if node.None? then Inserted(old(fsidIndex), FsidKeys(fss), x) else old(fsidIndex)
      ensures node.Some? ==> node.value in old(fsidIndex) && node.value in fss
    {
      node := Find(fsidIndex, FsidKeys(fss), FsidKey(fss[x]));
      if node.None? {
        fsidIndex := Inserted(fsidIndex, FsidKeys(fss), x);
      }
    }

    method InsertDev(x: nat) returns (node: Option<nat>)
      requires x in fss && Keyed(devIndex, DevKeys(fss))
      modifies this`devIndex
      ensures node == Find(old(devIndex), DevKeys(fss), DevKey(fss[x]))
      ensures devIndex == if node.None? then Inserted(old(devIndex), DevKeys(fss), x) else old(devIndex)
      ensures node.Some? ==> node.value in old(devIndex) && node.value in fss
    {
      node := Find(devIndex, DevKeys(fss), DevKey(fss[x]));
      if node.None? {
        devIndex := Inserted(devIndex, DevKeys(fss), x);
      }
    }

    /**
     * Moves a file system to a new fsid. A rejected move leaves everything as it was; putting the old key back cannot
     * fail.
     */
    method ReIndexFsid(f: nat, fsidType: FsidType, major: nat, minor: nat) returns (code: Code)
      requires Indexed(State()) && f in fss
      modifies this
      ensures Indexed(State())
      ensures code.Einval? <==> fsidType.NoType?
      ensures code.Eexist? <==> !fsidType.NoType? && FsidTaken(old(State()), f, FsidKey(Moved(old(fss[f]), fsidType, major, minor, true)))
      ensures !code.Ok? ==> State() == old(State())
      ensures code.Ok? ==> fss == old(fss)[f := Moved(old(fss[f]), fsidType, major, minor, true)]
      ensures code.Ok? ==> list == old(list) && devIndex == old(devIndex)
      ensures old(Agree(State())) ==> Agree(State())
    {
      hide Indexed, Agree, Keyed, FsidKeys, FsidKey, DevKeys, DevKey, Find, Inserted, Without, Moved, FsidTaken;
      if fsidType.NoType? {
        return Einval;
      }
      ghost var c := State();
      var fs := fss[f];
      if fs.inFsid {
        fsidIndex := Without(fsidIndex, f);
      }
      var moved := Moved(fs, fsidType, major, minor, fs.inFsid);
      fss := fss[f := moved];
      FsidLeft(c, f, moved);
      var node := InsertFsid(f);
      if node.Some? {
        fss := fss[f := fs];
        assert fss == c.fss;
        if fs.inFsid {
          FsidReturned(c, f);
          node := InsertFsid(f);
          assert node.None?;
        }
        return Eexist;
      }
      fss := fss[f := Moved(fs, fsidType, major, minor, true)];
      FsidSettled(c, f, moved, fss[f]);
      assert fss == c.fss[f := fss[f]];
      MovedAgrees(c, State(), f);
      return Ok;
    }

    /** The same for the device number; no device at all is not valid. */
    method ReIndexDev(f: nat, dev: Option<(nat, nat)>) returns (code: Code)
      requires Indexed(State()) && f in fss
      modifies this
      ensures Indexed(State())
      ensures code.Einval? <==> dev.None?
      ensures code.Eexist? <==> dev.Some? && DevTaken(old(State()), f, Key(dev.value.0, Some(dev.value.1)))
      ensures !code.Ok? ==> State() == old(State())
      ensures code.Ok? ==> fss == old(fss)[f := MovedDev(old(fss[f]), dev.value.0, dev.value.1, true)]
      ensures code.Ok? ==> list == old(list) && fsidIndex == old(fsidIndex)
      ensures old(Agree(State())) ==> Agree(State())
    {
      hide Indexed, Agree, Keyed, FsidKeys, FsidKey, DevKeys, DevKey, Find, Inserted, Without, MovedDev, DevTaken;
      if dev.None? {
        return Einval;
      }
      ghost var c := State();
      var fs := fss[f];
      if fs.inDev {
        devIndex := Without(devIndex, f);
      }
      var moved := MovedDev(fs, dev.value.0, dev.value.1, fs.inDev);
      fss := fss[f := moved];
      DevLeft(c, f, moved);
      var node := InsertDev(f);
      if node.Some? {
        fss := fss[f := fs];
        assert fss == c.fss;
        if fs.inDev {
          DevReturned(c, f);
          node := InsertDev(f);
          assert node.None?;
        }
        return Eexist;
      }
      fss := fss[f := MovedDev(fs, dev.value.0, dev.value.1, true)];
      DevSettled(c, f, moved, fss[f]);
      assert fss == c.fss[f := fss[f]];
      MovedAgrees(c, State(), f);
      return Ok;
    }

    /** Another name for the same key. */
    method Relabel(f: nat, fsidType: FsidType)
      requires Indexed(State()) && f in fss && Relabels(fss[f].fsidType, fsidType)
      modifies this`fss
      ensures Indexed(State()) && fss == old(fss)[f := old(fss[f]).(fsidType := fsidType)]
      ensures old(Agree(State())) ==> Agree(State())
    {
      hide Agree, Indexed;
      ghost var c := State();
      var fs := fss[f].(fsidType := fsidType);
      RelabelKeepsIndexes(c, f, fs);
      fss := fss[f := fs];
      MovedAgrees(c, State(), f);
    }

    /**
     * Changes how a file system's id is represented. A change that leaves the key alone is made in place, without
     * touching the index; any other is a move to the id in its new representation, and is refused if that is taken.
     */
    method ChangeFsidType(f: nat, fsidType: FsidType) returns (code: Code)
      requires Indexed(State()) && f in fss
      modifies this
      ensures Indexed(State())
      ensures code.Einval? <==> old(fss[f]).fsidType != fsidType && !Convertible(old(fss[f]).fsidType, fsidType)
      ensures code.Eexist? <==>
        Moves(old(fss[f]).fsidType, fsidType) && FsidTaken(old(State()), f, FsidKey(Converted(old(fss[f]), fsidType)))
      ensures !code.Ok? || old(fss[f]).fsidType == fsidType ==> State() == old(State())
      ensures code.Ok? && Moves(old(fss[f]).fsidType, fsidType) ==>
        fss == old(fss)[f := Converted(old(fss[f]), fsidType).(inFsid := true)]
      ensures code.Ok? && !Moves(old(fss[f]).fsidType, fsidType) ==>
        fss == old(fss)[f := old(fss[f]).(fsidType := fsidType)] && fsidIndex == old(fsidIndex)
      ensures list == old(list) && devIndex == old(devIndex)
      ensures old(Agree(State())) ==> Agree(State())
    {
      hide FsidTaken, Agree, NewIds, Indexed, Taken;
      var fs := fss[f];
      if fs.fsidType == fsidType {
        assert fss == fss[f := fs.(fsidType := fsidType)];
        return Ok;
      }
      if !Convertible(fs.fsidType, fsidType) {
        return Einval;
      }
      if Relabels(fs.fsidType, fsidType) {
        Relabel(f, fsidType);
        return Ok;
      }
      var ids := NewIds(fs, fsidType);
      code := ReIndexFsid(f, fsidType, ids.0, ids.1);
    }

    /**
     * A mounted file system is registered unless it is an NFS mount, cannot be examined, or has the fsid or the device
     * number of one already registered; such a duplicate may lend its device and type, and leaves nothing else behind.
     */
    method CreateFileSystem(m: Mount, id: nat) returns (created: bool)
      requires Agree(State()) && id !in fss
      modifies this
      ensures Agree(State())
      ensures created <==> Registrable(old(State()), m, id)
      ensures created ==> fss == old(fss)[id := Registered(FsOf(m))] && list == old(list) + [id]
      ensures !created ==> list == old(list) && fsidIndex == old(fsidIndex) && devIndex == old(devIndex)
      ensures IsNfs(m.fsType) || !m.probed ==> State() == old(State())
      ensures !created && !IsNfs(m.fsType) && m.probed ==>
        exists g :: Duplicates(old(fss), FsOf(m), g) && fss == old(fss)[g := TakesOver(old(fss)[g], FsOf(m))]
    {
      hide Indexed, Agree, Keyed, FsidKeys, FsidKey, DevKeys, DevKey, Find, Inserted, Without, FsidTaken, DevTaken,
           TakesOver, FsidMarked, DevMarked, Registered, FsOf;
      if IsNfs(m.fsType) || !m.probed {
        return false;
      }
      ghost var c := State();
      var fs := FsOf(m);
      Unmarked(m);
      fss := fss[id := fs];
      ghost var c1 := State();
      Allocated(c, c1, id, fs);
      FsidLeft(c1, id, fs);
      var node := InsertFsid(id);
      if node.Some? {
        fss := fss[node.value := TakesOver(fss[node.value], fs)] - {id};
        DuplicateFsid(c, c1, State(), id, node.value, fs);
        KnownByFsid(c, c1, id, fs, node.value);
        return false;
      }
      fss := fss[id := HalfMarked(fs)];
      ghost var c2 := State();
      HalfRegistered(c, c1, c2, id, fs);
      DevLeft(c2, id, fss[id]);
      node := InsertDev(id);
      if node.Some? {
        fss := fss[node.value := TakesOver(fss[node.value], fs)];
        DuplicateDev(c, c2, State(), id, node.value, fs);
        RemoveFs(id);
        Withdrawn(c, State(), node.value, fs);
        KnownByDevice(c, c2, id, fs, node.value);
        return false;
      }
      fss := fss[id := Registered(fs)];
      list := list + [id];
      FullyRegistered(c, c2, State(), id, fs);
      return true;
    }

    /** A file system leaves its parent's children, the list, and whichever indexes it is in. */
    method RemoveFs(f: nat)
      requires Indexed(State()) && f in fss && NoRepeats(list)
      modifies this
      ensures Indexed(State()) && fss == Detached(old(fss), f) - {f} && NoRepeats(list)
      ensures forall x :: x in list <==> x in old(list) && x != f
      ensures f !in old(list) ==> list == old(list)
    {
      hide Indexed, Keyed, FsidKeys, DevKeys, Without;
      ghost var c := State();
      if fss[f].inFsid {
        fsidIndex := Without(fsidIndex, f);
      }
      if fss[f].inDev {
        devIndex := Without(devIndex, f);
      }
      fss := Detached(fss, f);
      if f in list {
        WithoutFits(list, f);
        list := Without(list, f);
      }
      fss := fss - {f};
      Removed(c, f, list);
    }

    /** List and indexes agree after any run of operations. */
    method Run(ops: seq<Op>)
      requires Agree(State())
      modifies this
      ensures Agree(State())
    {
      hide Agree, Indexed;
      for i := 0 to |ops|
        invariant Agree(State())
      {
        AgreeIndexes(State());
        match ops[i]
        case Create(m, id) => if id !in fss { var _ := CreateFileSystem(m, id); }
        case MoveFsid(f, fsidType, major, minor) => if f in fss { var _ := ReIndexFsid(f, fsidType, major, minor); }
        case MoveDev(f, dev) => if f in fss { var _ := ReIndexDev(f, dev); }
        case Retype(f, fsidType) => if f in fss { var _ := ChangeFsidType(f, fsidType); }
        case Release => ReleaseFileSystems();
      }
    }

    /** The registry is emptied one file system at a time. */
    method ReleaseFileSystems()
      requires Agree(State())
      modifies this
      ensures Agree(State()) && list == [] && fsidIndex == [] && devIndex == [] && fss == map[]
    {
      while list != []
        invariant Agree(State())
        decreases |list|
      {
        ghost var c := State();
        var f := list[0];
        assert f in c.list;
        WithoutFits(list, f);
        RemoveFs(f);
        RemovedAgrees(c, State(), f);
        ShorterList(c.list, list, f);
      }
      NothingLeft(State());
    }
  }

  /** Some other file system holds the key already. */
  ghost predicate FsidTaken(c: Contents, f: nat, key: Key) {
    Taken(c.fsidIndex, FsidKeys(c.fss), f, key)
  }

  ghost predicate DevTaken(c: Contents, f: nat, key: Key) {
    Taken(c.devIndex, DevKeys(c.fss), f, key)
  }

  function FsidOutside(c: Contents, f: nat): seq<nat>
    requires f in c.fss
  {
    if c.fss[f].inFsid then Without(c.fsidIndex, f) else c.fsidIndex
  }

  lemma FsidLeft(c: Contents, f: nat, moved: Fs)
    requires Indexed(c) && f in c.fss
    ensures Keyed(FsidOutside(c, f), FsidKeys(c.fss[f := moved]))
    ensures Find(FsidOutside(c, f), FsidKeys(c.fss[f := moved]), FsidKey(moved)).Some? <==> FsidTaken(c, f, FsidKey(moved))
  {
    hide Ordered, IndexFits, FsidKeys, FsidKey, Find;
    FsidUpdate(c.fss, f, moved);
    MoveAccepted(c.fsidIndex, FsidKeys(c.fss), FsidMarked(c.fss), f, FsidKey(moved));
  }

  lemma FsidReturned(c: Contents, f: nat)
    requires Indexed(c) && f in c.fss && c.fss[f].inFsid
    ensures Keyed(FsidOutside(c, f), FsidKeys(c.fss))
    ensures Find(FsidOutside(c, f), FsidKeys(c.fss), FsidKey(c.fss[f])).None?
    ensures Inserted(FsidOutside(c, f), FsidKeys(c.fss), f) == c.fsidIndex
  {
    hide Ordered, IndexFits, FsidKeys, FsidKey, Find;
    MoveUndone(c.fsidIndex, FsidKeys(c.fss), FsidMarked(c.fss), f);
  }

  lemma FsidSettled(c: Contents, f: nat, moved: Fs, settled: Fs)
    requires Indexed(c) && f in c.fss && !FsidTaken(c, f, FsidKey(moved)) && FsidKey(settled) == FsidKey(moved)
    requires settled.inFsid && DevKey(settled) == DevKey(c.fss[f]) && settled.inDev == c.fss[f].inDev
    ensures Keyed(FsidOutside(c, f), FsidKeys(c.fss[f := moved]))
    ensures Indexed(c.(fss := c.fss[f := settled], fsidIndex := Inserted(FsidOutside(c, f), FsidKeys(c.fss[f := moved]), f)))
  {
    hide Ordered, IndexFits, FsidKeys, FsidKey, DevKeys, DevKey, Inserted;
    FsidUpdate(c.fss, f, moved);
    FsidUpdate(c.fss, f, settled);
    DevUntouched(c.fss, f, settled);
    MoveAccepted(c.fsidIndex, FsidKeys(c.fss), FsidMarked(c.fss), f, FsidKey(moved));
  }

  lemma RelabelKeepsIndexes(c: Contents, f: nat, fs: Fs)
    requires Indexed(c) && f in c.fss && FsidKey(fs) == FsidKey(c.fss[f]) && DevKey(fs) == DevKey(c.fss[f])
    requires fs.inFsid == c.fss[f].inFsid && fs.inDev == c.fss[f].inDev
    ensures Indexed(c.(fss := c.fss[f := fs]))
  {
    hide IndexFits;
    FsidUntouched(c.fss, f, fs);
    DevUntouched(c.fss, f, fs);
  }

  /** A file system that stays marked, or becomes so, keeps list and indexes in agreement. */
  lemma MovedAgrees(c: Contents, d: Contents, f: nat)
    requires Indexed(d) && f in c.fss && f in d.fss && d.fss == c.fss[f := d.fss[f]] && d.list == c.list
    requires d.fss[f].inFsid || d.fss[f].inFsid == c.fss[f].inFsid
    requires d.fss[f].inDev || d.fss[f].inDev == c.fss[f].inDev
    ensures Agree(c) ==> Agree(d)
  {
    hide Indexed;
    if Agree(c) {
      FsidUpdate(c.fss, f, d.fss[f]);
      DevUpdate(c.fss, f, d.fss[f]);
      assert f in FsidMarked(c.fss) && f in DevMarked(c.fss);
      assert d.fss.Keys == c.fss.Keys;
    }
  }

  /** Keys and marks are all that list and indexes depend on. */
  lemma AgreesAlike(c: Contents, d: Contents)
    requires Agree(c) && d == c.(fss := d.fss) && c.fss.Keys == d.fss.Keys
    requires forall x :: x in c.fss ==> FsidKey(d.fss[x]) == FsidKey(c.fss[x]) && d.fss[x].inFsid == c.fss[x].inFsid
    requires forall x :: x in c.fss ==> DevKey(d.fss[x]) == DevKey(c.fss[x]) && d.fss[x].inDev == c.fss[x].inDev
    ensures Agree(d)
  {
    hide FsidKey, DevKey, IndexFits;
    assert FsidKeys(d.fss) == FsidKeys(c.fss) && FsidMarked(d.fss) == FsidMarked(c.fss);
    assert DevKeys(d.fss) == DevKeys(c.fss) && DevMarked(d.fss) == DevMarked(c.fss);
  }

  /** The change of representation moves the file system in the index. */
  predicate Moves(from: FsidType, to: FsidType) {
    from != to && Convertible(from, to) && !Relabels(from, to)
  }

  function DevOutside(c: Contents, f: nat): seq<nat>
    requires f in c.fss
  {
    if c.fss[f].inDev then Without(c.devIndex, f) else c.devIndex
  }

  lemma DevLeft(c: Contents, f: nat, moved: Fs)
    requires Indexed(c) && f in c.fss
    ensures Keyed(DevOutside(c, f), DevKeys(c.fss[f := moved]))
    ensures Find(DevOutside(c, f), DevKeys(c.fss[f := moved]), DevKey(moved)).Some? <==> DevTaken(c, f, DevKey(moved))
  {
    hide Ordered, IndexFits, DevKeys, DevKey, Find;
    DevUpdate(c.fss, f, moved);
    MoveAccepted(c.devIndex, DevKeys(c.fss), DevMarked(c.fss), f, DevKey(moved));
  }

  lemma DevReturned(c: Contents, f: nat)
    requires Indexed(c) && f in c.fss && c.fss[f].inDev
    ensures Keyed(DevOutside(c, f), DevKeys(c.fss))
    ensures Find(DevOutside(c, f), DevKeys(c.fss), DevKey(c.fss[f])).None?
    ensures Inserted(DevOutside(c, f), DevKeys(c.fss), f) == c.devIndex
  {
    hide Ordered, IndexFits, DevKeys, DevKey, Find;
    MoveUndone(c.devIndex, DevKeys(c.fss), DevMarked(c.fss), f);
  }

  lemma DevSettled(c: Contents, f: nat, moved: Fs, settled: Fs)
    requires Indexed(c) && f in c.fss && !DevTaken(c, f, DevKey(moved)) && DevKey(settled) == DevKey(moved)
    requires settled.inDev && FsidKey(settled) == FsidKey(c.fss[f]) && settled.inFsid == c.fss[f].inFsid
    ensures Keyed(DevOutside(c, f), DevKeys(c.fss[f := moved]))
    ensures Indexed(c.(fss := c.fss[f := settled], devIndex := Inserted(DevOutside(c, f), DevKeys(c.fss[f := moved]), f)))
  {
    hide Ordered, IndexFits, FsidKeys, FsidKey, DevKeys, DevKey, Inserted;
    DevUpdate(c.fss, f, moved);
    DevUpdate(c.fss, f, settled);
    FsidUntouched(c.fss, f, settled);
    MoveAccepted(c.devIndex, DevKeys(c.fss), DevMarked(c.fss), f, DevKey(moved));
  }

  lemma IndexForgets(index: seq<nat>, keys: Keys, smaller: Keys, marked: set<nat>, f: nat)
    requires IndexFits(index, keys, marked) && smaller == keys - {f}
    ensures IndexFits(Outside(index, marked, f), smaller, marked - {f})
  {
    OutsideFits(index, keys, marked, f);
    SameKeysSameOrder(Outside(index, marked, f), keys, smaller);
  }

  /** f is taken off the list of children it is on. */
  function Detached(fss: Systems, f: nat): Systems
    requires f in fss
  {
    match fss[f].parent
    case None => fss
    case Some(p) => if p in fss && p != f then fss[p := fss[p].(children := Without(fss[p].children, f))] else fss
  }

  lemma DetachedKeepsIndexes(c: Contents, f: nat)
    requires f in c.fss
    ensures var fss := Detached(c.fss, f);
      fss.Keys == c.fss.Keys && FsidKeys(fss) == FsidKeys(c.fss) && FsidMarked(fss) == FsidMarked(c.fss)
      && DevKeys(fss) == DevKeys(c.fss) && DevMarked(fss) == DevMarked(c.fss)
  {
    hide Without, FsidKeys, DevKeys, FsidMarked, DevMarked;
    if c.fss[f].parent.Some? && c.fss[f].parent.value in c.fss {
      var p := c.fss[f].parent.value;
      var fs := c.fss[p].(children := Without(c.fss[p].children, f));
      FsidUntouched(c.fss, p, fs);
      DevUntouched(c.fss, p, fs);
    }
  }

  lemma Removed(c: Contents, f: nat, list: seq<nat>)
    requires Indexed(c) && f in c.fss
    ensures Indexed(Contents(Detached(c.fss, f) - {f}, list, FsidOutside(c, f), DevOutside(c, f)))
  {
    hide IndexFits, Detached;
    DetachedKeepsIndexes(c, f);
    var detached := Detached(c.fss, f);
    var fss := detached - {f};
    assert FsidKeys(fss) == FsidKeys(detached) - {f} && FsidMarked(fss) == FsidMarked(detached) - {f};
    assert DevKeys(fss) == DevKeys(detached) - {f} && DevMarked(fss) == DevMarked(detached) - {f};
    IndexForgets(c.fsidIndex, FsidKeys(c.fss), FsidKeys(fss), FsidMarked(c.fss), f);
    IndexForgets(c.devIndex, DevKeys(c.fss), DevKeys(fss), DevMarked(c.fss), f);
  }

  lemma RemovedAgrees(c: Contents, d: Contents, f: nat)
    requires Agree(c) && f in c.fss && Indexed(d) && d.fss == Detached(c.fss, f) - {f} && NoRepeats(d.list)
    requires forall x :: x in d.list <==> x in c.list && x != f
    ensures Agree(d)
  {
    hide Indexed, Detached;
    DetachedKeepsIndexes(c, f);
    var detached := Detached(c.fss, f);
    assert FsidMarked(d.fss) == FsidMarked(detached) - {f} && DevMarked(d.fss) == DevMarked(detached) - {f};
  }

  lemma NothingLeft(c: Contents)
    requires Agree(c) && c.list == []
    ensures c.fss == map[] && c.fsidIndex == [] && c.devIndex == []
  {
    assert c.fss.Keys == {};
    if c.fsidIndex != [] {
      FirstIsIn(c.fsidIndex);
    }
    if c.devIndex != [] {
      FirstIsIn(c.devIndex);
    }
  }

  lemma ShorterList(a: seq<nat>, b: seq<nat>, f: nat)
    requires NoRepeats(a) && NoRepeats(b) && f in a && forall x :: x in b <==> x in a && x != f
    ensures |b| < |a|
  {
    WithoutFits(a, f);
    CountOnce(b, set x | x in b);
    CountOnce(Without(a, f), set x | x in b);
  }

  // ------------------------------------------------------------ registering

  ghost predicate Registrable(c: Contents, m: Mount, id: nat) {
    !IsNfs(m.fsType) && m.probed && !FsidTaken(c, id, FsidKey(FsOf(m))) && !DevTaken(c, id, DevKey(FsOf(m)))
  }

  /** g has the fsid of the newcomer, or, if nobody has that, its device number. */
  ghost predicate Duplicates(fss: Systems, fs: Fs, g: nat) {
    g in fss
    && (FsidKey(fss[g]) == FsidKey(fs)
        || (DevKey(fss[g]) == DevKey(fs) && forall h :: h in fss ==> FsidKey(fss[h]) != FsidKey(fs)))
  }

  lemma KnownByFsid(c: Contents, c1: Contents, id: nat, fs: Fs, g: nat)
    requires Agree(c) && id !in c.fss && c1 == c.(fss := c.fss[id := fs]) && g in c.fsidIndex
    requires g in FsidKeys(c1.fss) && FsidKeys(c1.fss)[g] == FsidKey(fs)
    ensures Duplicates(c.fss, fs, g)
  {
    hide Ordered, FsidKey, DevKey;
    assert g in FsidMarked(c.fss);
  }

  lemma KnownByDevice(c: Contents, c2: Contents, id: nat, fs: Fs, g: nat)
    requires Agree(c) && id !in c.fss && c2.fss == c.fss[id := HalfMarked(fs)] && g in c.devIndex
    requires g in DevKeys(c2.fss) && DevKeys(c2.fss)[g] == DevKey(fs) && !FsidTaken(c, id, FsidKey(fs))
    ensures Duplicates(c.fss, fs, g)
  {
    hide Ordered, FsidKey, DevKey, HalfMarked;
    assert g in DevMarked(c.fss);
    forall h | h in c.fss
      ensures FsidKey(c.fss[h]) != FsidKey(fs)
    {
      assert h in FsidMarked(c.fss) && h in c.fsidIndex && FsidKeys(c.fss)[h] == FsidKey(c.fss[h]);
    }
  }

  lemma Unmarked(m: Mount)
    ensures !FsOf(m).inFsid && !FsOf(m).inDev && FsOf(m).parent.None?
  {
  }

  function HalfMarked(fs: Fs): (r: Fs)
    ensures FsidKey(r) == FsidKey(fs) && DevKey(r) == DevKey(fs) && r.inFsid && r.inDev == fs.inDev
    ensures r.parent == fs.parent
  {
    fs.(inFsid := true)
  }

  function Registered(fs: Fs): (r: Fs)
    ensures FsidKey(r) == FsidKey(fs) && DevKey(r) == DevKey(fs) && r.inFsid && r.inDev
  {
    fs.(inFsid := true, inDev := true)
  }

  lemma TakesOverKeepsKeys(kept: Fs, duplicate: Fs)
    ensures var r := TakesOver(kept, duplicate);
      FsidKey(r) == FsidKey(kept) && DevKey(r) == DevKey(kept) && r.inFsid == kept.inFsid && r.inDev == kept.inDev
  {
  }

  /** A file system in neither index disturbs neither. */
  lemma Allocated(c: Contents, c1: Contents, id: nat, fs: Fs)
    requires Agree(c) && id !in c.fss && !fs.inFsid && !fs.inDev && c1 == c.(fss := c.fss[id := fs])
    ensures Indexed(c1) && c1.fss[id := fs] == c1.fss
    ensures FsidTaken(c1, id, FsidKey(fs)) <==> FsidTaken(c, id, FsidKey(fs))
    ensures FsidOutside(c1, id) == c.fsidIndex
  {
    hide Ordered, FsidKey, DevKey;
    FsidUpdate(c.fss, id, fs);
    DevUpdate(c.fss, id, fs);
    OutsideRekeyed(c.fsidIndex, FsidKeys(c.fss), FsidMarked(c.fss), id, FsidKey(fs));
    OutsideRekeyed(c.devIndex, DevKeys(c.fss), DevMarked(c.fss), id, DevKey(fs));
  }

  lemma Withdrawn(c: Contents, d: Contents, g: nat, fs: Fs)
    requires Agree(c) && g in c.fss && Indexed(d) && d.fss == c.fss[g := TakesOver(c.fss[g], fs)] && d.list == c.list
    ensures Agree(d) && d.fsidIndex == c.fsidIndex && d.devIndex == c.devIndex
  {
    hide Ordered, FsidKey, DevKey, TakesOver, FsidKeys, DevKeys;
    TakesOverKeepsKeys(c.fss[g], fs);
    FsidUntouched(c.fss, g, d.fss[g]);
    DevUntouched(c.fss, g, d.fss[g]);
    OrderedIsUnique(d.fsidIndex, c.fsidIndex, FsidKeys(c.fss));
    OrderedIsUnique(d.devIndex, c.devIndex, DevKeys(c.fss));
  }

  lemma DuplicateFsid(c: Contents, c1: Contents, d: Contents, id: nat, g: nat, fs: Fs)
    requires Agree(c) && id !in c.fss && c1 == c.(fss := c.fss[id := fs]) && g in c.fsidIndex
    requires d == c.(fss := c1.fss[g := TakesOver(c1.fss[g], fs)] - {id})
    ensures Agree(d) && g in c.fss && d.fss == c.fss[g := TakesOver(c.fss[g], fs)]
  {
    hide Ordered, FsidKey, DevKey, TakesOver, FsidKeys, DevKeys;
    assert g in FsidMarked(c.fss);
    TakesOverKeepsKeys(c.fss[g], fs);
    assert d.fss == c.fss[g := TakesOver(c.fss[g], fs)];
    RelabelKeepsIndexes(c, g, d.fss[g]);
    Withdrawn(c, d, g, fs);
  }

  lemma HalfRegistered(c: Contents, c1: Contents, c2: Contents, id: nat, fs: Fs)
    requires Agree(c) && Indexed(c1) && id !in c.fss && !fs.inFsid && !fs.inDev && c1 == c.(fss := c.fss[id := fs])
    requires !FsidTaken(c1, id, FsidKey(fs)) && Keyed(c.fsidIndex, FsidKeys(c1.fss))
    requires c2 == c.(fss := c1.fss[id := HalfMarked(fs)], fsidIndex := Inserted(c.fsidIndex, FsidKeys(c1.fss), id))
    ensures Indexed(c2) && c2.fss == c.fss[id := HalfMarked(fs)] && c2.fss[id := c2.fss[id]] == c2.fss
    ensures DevOutside(c2, id) == c.devIndex
    ensures DevTaken(c2, id, DevKey(c2.fss[id])) <==> DevTaken(c, id, DevKey(fs))
  {
    hide Indexed, Keyed, FsidKeys, DevKeys, FsidKey, DevKey, Inserted, HalfMarked, FsidTaken, Taken;
    var marked := HalfMarked(fs);
    assert c1.fss[id := fs] == c1.fss;
    FsidSettled(c1, id, fs, marked);
    assert c2.fss == c.fss[id := marked];
    DevUpdate(c.fss, id, marked);
    TakenByOthers(c.devIndex, DevKeys(c.fss), id, DevKey(marked), DevKey(marked));
  }

  lemma DuplicateDev(c: Contents, c2: Contents, d: Contents, id: nat, g: nat, fs: Fs)
    requires Agree(c) && Indexed(c2) && id !in c.fss && g in c.devIndex && c2.list == c.list
    requires id in c2.fss && c2.fss == c.fss[id := c2.fss[id]] && d == c2.(fss := c2.fss[g := TakesOver(c2.fss[g], fs)])
    ensures Indexed(d) && NoRepeats(d.list) && id !in c.list && g in c.fss
    ensures d.fss - {id} == c.fss[g := TakesOver(c.fss[g], fs)]
  {
    hide Ordered, FsidKey, DevKey, TakesOver, FsidKeys, DevKeys;
    assert g in DevMarked(c.fss);
    TakesOverKeepsKeys(c.fss[g], fs);
    RelabelKeepsIndexes(c2, g, d.fss[g]);
  }

  lemma FullyRegistered(c: Contents, c2: Contents, d: Contents, id: nat, fs: Fs)
    requires Agree(c) && Indexed(c2) && id !in c.fss && c2.fss == c.fss[id := HalfMarked(fs)] && !fs.inDev
    requires !DevTaken(c2, id, DevKey(c2.fss[id])) && Keyed(c.devIndex, DevKeys(c2.fss)) && c2.devIndex == c.devIndex
    requires d == Contents(c.fss[id := Registered(fs)], c.list + [id], c2.fsidIndex,
                           Inserted(c.devIndex, DevKeys(c2.fss), id))
    ensures Agree(d)
  {
    hide Indexed, Keyed, FsidKeys, DevKeys, FsidKey, DevKey, Inserted, HalfMarked, Registered, DevTaken;
    assert c2.fss[id := c2.fss[id]] == c2.fss;
    DevSettled(c2, id, c2.fss[id], Registered(fs));
    assert c2.fss[id := Registered(fs)] == d.fss;
    SameIndexes(c2.(fss := d.fss, devIndex := d.devIndex), d);
    OneMoreAgrees(c, d, id, Registered(fs));
  }

  lemma OneMoreAgrees(c: Contents, d: Contents, id: nat, fs: Fs)
    requires Agree(c) && Indexed(d) && id !in c.fss && d.fss == c.fss[id := fs] && d.list == c.list + [id]
    requires fs.inFsid && fs.inDev
    ensures Agree(d)
  {
    hide Indexed, FsidKeys, DevKeys, FsidKey, DevKey;
    FsidUpdate(c.fss, id, fs);
    DevUpdate(c.fss, id, fs);
  }

  lemma SameIndexes(c: Contents, d: Contents)
    requires Indexed(c) && d.fss == c.fss && d.fsidIndex == c.fsidIndex && d.devIndex == c.devIndex
    ensures Indexed(d)
  {
  }
}
