/** The VIBUXFS operations, over the inode table, the block bitmap and the data blocks (kernel/src/storage/vfs.rs). */
module Vfs {
  import opened Prelude
  import opened InodeForest
  import opened BlockMap
  import opened Resolution

  const BITMAP_START: nat := 129
  const MAX_FILE_BLOCKS: nat := 1024

  /** `split_parent`: what comes before and after the last slash. */
  function SplitAt(path: Bytes): (n: nat)
    ensures n <= |path| && (forall i :: n <= i < |path| ==> path[i] != SLASH) && (n > 0 ==> path[n - 1] == SLASH)
  {
    if path == [] || path[|path| - 1] == SLASH then |path|
    else SplitAt(path[..|path| - 1])
  }

  function ParentPath(path: Bytes): Bytes {
    if SplitAt(path) == 0 then [] else path[..SplitAt(path) - 1]
  }

  function LastName(path: Bytes): Bytes {
    path[SplitAt(path)..]
  }

  /** The directory an entry is created in; an empty parent path stands for the current directory, even in "/x". */
  function CreateParent(t: Table, kids: map<nat, seq<nat>>, path: Bytes, cwd: nat): Result<nat, FsError> {
    if ParentPath(path) == [] then Ok(cwd) else Resolve(t, kids, ParentPath(path), cwd)
  }

  ghost predicate NameTaken(t: Table, list: seq<nat>, name: Bytes) {
    exists i :: i in list && InRange(i) && NameSlice(t[i].name) == name
  }

  /** Why `create_entry` refuses a path, if it does. */
  ghost function CreateRefusal(t: Table, kids: map<nat, seq<nat>>, path: Bytes, cwd: nat): Option<FsError> {
    var parent := CreateParent(t, kids, path, cwd);
    if parent.Err? then Some(parent.error)
    else if !InRange(parent.value) then Some(Invalid)
    else if t[parent.value].kind != 2 then Some(NotDir)
    else if parent.value in kids && NameTaken(t, kids[parent.value], LastName(path)) then Some(Exists)
    else if forall i: nat :: InRange(i) ==> t[i].kind != 0 then Some(NoSpace)
    else None
  }

  ghost function CreateAnswer(t: Table, kids: map<nat, seq<nat>>, path: Bytes, cwd: nat): Result<(), FsError> {
    match CreateRefusal(t, kids, path, cwd)
    case Some(e) => Err(e)
    case None => Ok(())
  }

  ghost function TouchAnswer(t: Table, kids: map<nat, seq<nat>>, path: Bytes, cwd: nat): Result<(), FsError> {
    match Resolve(t, kids, path, cwd)
    case Ok(_) => Ok(())
    case Err(e) => if e == NotFound then CreateAnswer(t, kids, path, cwd) else Err(e)
  }

  ghost function RemoveAnswer(t: Table, kids: map<nat, seq<nat>>, path: Bytes, cwd: nat): Result<(), FsError> {
    match Resolve(t, kids, path, cwd)
    case Err(e) => Err(e)
    case Ok(ino) =>
      if ino == ROOT_INODE then Err(Permission)
      else if !InRange(ino) || !InRange(t[ino].parent) then Err(Invalid)
      else if t[ino].kind == 2 && t[ino].firstChild != 0 then Err(NotEmpty)
      else Ok(())
  }

  /** What a write answers once the inode is known, from the bitmap before it. */
  ghost function ContentsAnswer(kind: nat, start: nat, count: nat, m: Bitmap, length: nat, lo: nat, hi: nat)
    : Result<(), FsError>
  {
    var needed := BlocksFor(length);
    if kind != 1 then Err(IsDirectory)
    else if needed > MAX_FILE_BLOCKS then Err(TooLarge)
    else if needed > 0 && !HasRoom(m, start, count, lo, hi, needed) then Err(NoSpace)
    else Ok(())
  }

  /**
   What `write_file` answers. NoSpace: the path is missing, could be created, and no inode is free; or the data needs
   blocks and no run of so many is free once the file's own are given back.
   */
  ghost function WriteAnswer(t: Table, kids: map<nat, seq<nat>>, m: Bitmap, path: Bytes, cwd: nat, length: nat,
                             lo: nat, hi: nat): Result<(), FsError> {
    match Resolve(t, kids, path, cwd)
    case Ok(ino) =>
      if !InRange(ino) then Err(Invalid)
      else ContentsAnswer(t[ino].kind, t[ino].startBlock, t[ino].blockCount, m, length, lo, hi)
    case Err(e) =>
      if e != NotFound then Err(e)
      else
        match CreateRefusal(t, kids, path, cwd)
        case Some(refusal) => Err(refusal)
        case None => ContentsAnswer(1, 0, 0, m, length, lo, hi)
  }

  /** The lowest free inode, or 0. */
  ghost predicate IsFirstFree(t: Table, ino: nat) {
    if ino == 0 then forall i: nat :: InRange(i) ==> t[i].kind != 0
    else InRange(ino) && t[ino].kind == 0 && forall i: nat :: InRange(i) && i < ino ==> t[i].kind != 0
  }

  /** An entry without children or blocks, at the head of its directory's list. */
  function NewInode(kind: nat, mode: nat, uid: nat, gid: nat, parent: nat, next: nat, name: Bytes): (r: Inode)
    ensures r.kind == kind && r.mode == mode && r.uid == uid && r.gid == gid && r.parent == parent
            && r.nextSibling == next && r.firstChild == r.size == r.blockCount == 0
  {
    Inode(kind, mode, uid, gid, parent, 0, next, 0, 0, 0, 0, NameField(name))
  }

  lemma ExtentBounds(t: Table, ino: nat, lo: nat, hi: nat)
    requires Placed(t, lo, hi) && Live(t, ino) && t[ino].blockCount > 0
    ensures lo <= t[ino].startBlock && t[ino].startBlock + t[ino].blockCount <= hi <= MAP_BITS
    ensures t[ino].kind == 1 && t[ino].size <= t[ino].blockCount * 4096
  {
    assert ExtentOk(t, ino, lo, hi);
  }

  /** Removing an inode and writing one inode's extent leave the others in their places. */
  lemma StillPlaced(t: Table, t': Table, ino: nat, lo: nat, hi: nat)
    requires Placed(t, lo, hi) && InRange(ino) && ExtentOk(t', ino, lo, hi)
    requires forall i: nat :: InRange(i) && i != ino ==> SameExtent(t[i], t'[i])
    ensures Placed(t', lo, hi)
  {
    forall i: nat ensures ExtentOk(t', i, lo, hi) {
      assert ExtentOk(t, i, lo, hi);
    }
  }

  lemma RemovePlaced(t: Table, t': Table, parent: nat, kids: map<nat, seq<nat>>, rank: map<nat, nat>, at: nat,
                     lo: nat, hi: nat)
    requires Placed(t, lo, hi) && Forest(t, kids, rank) && parent in kids && at < |kids[parent]|
    requires InRange(parent) && InRange(kids[parent][at]) && (at > 0 ==> InRange(kids[parent][at - 1]))
    requires t' == UnlinkedAt(t, parent, kids[parent], at)[kids[parent][at] := FREE_INODE]
    ensures Placed(t', lo, hi)
  {
    StillPlaced(t, t', kids[parent][at], lo, hi);
  }

  lemma RemoveExact(t: Table, t': Table, m: Bitmap, m': Bitmap, parent: nat, kids: map<nat, seq<nat>>,
                    rank: map<nat, nat>, at: nat, lo: nat, hi: nat)
    requires Exact(t, m, lo, hi) && Forest(t, kids, rank) && parent in kids && at < |kids[parent]|
    requires InRange(parent) && InRange(kids[parent][at]) && (at > 0 ==> InRange(kids[parent][at - 1]))
    requires t' == UnlinkedAt(t, parent, kids[parent], at)[kids[parent][at] := FREE_INODE]
    requires var inode := t[kids[parent][at]];
             if inode.kind == 1 && inode.blockCount != 0 then RangeCleared(m, m', inode.startBlock, inode.blockCount)
             else m' == m
    ensures Exact(t', m', lo, hi)
  {
    var ino := kids[parent][at];
    assert ListEntry(t, parent, kids[parent], at);
    assert ExtentOk(t, ino, lo, hi);
    forall b: nat | b < MAP_BITS ensures Bit(m', b) <==> Bit(m, b) && !FileCovers(t, ino, b) {
      assert Within(b, t[ino].startBlock, t[ino].blockCount) <==>
               t[ino].startBlock <= b < t[ino].startBlock + t[ino].blockCount;
    }
    RemoveKeepsExact(t, t', m, m', ino, lo, hi);
  }

  lemma MapBounds(t: Table, lo: nat, hi: nat)
    requires Placed(t, lo, hi)
    ensures lo <= hi <= MAP_BITS
  {
  }

  /** Changing where a file's blocks are leaves the forest alone. */
  lemma RewriteKeepsForest(t: Table, t': Table, kids: map<nat, seq<nat>>, rank: map<nat, nat>, ino: nat)
    requires Forest(t, kids, rank) && Live(t, ino)
    requires forall i: nat :: InRange(i) && i != ino ==> t'[i] == t[i]
    requires t'[ino] == t[ino].(startBlock := t'[ino].startBlock, blockCount := t'[ino].blockCount,
                                size := t'[ino].size)
    ensures Forest(t', kids, rank)
  {
    forall d | d in kids ensures Children(t', d, kids[d]) {
      ChildrenAreLive(t, d, kids[d]);
      ChildrenKept(t, t', d, kids[d]);
    }
    forall i: nat ensures ParentOk(t', kids, i) && RankOk(t', rank, i) {
      assert ParentOk(t, kids, i) && RankOk(t, rank, i);
    }
  }

  /** Extents are disjoint, so writing one file's blocks leaves every other file's bytes alone. */
  lemma OthersOutside(t: Table, t': Table, d: seq<Byte>, d': seq<Byte>, m: Bitmap, m': Bitmap, ino: nat, lo: nat,
                      hi: nat)
    requires Exact(t', m', lo, hi) && Live(t', ino) && t'[ino].kind == 1
    requires |d| == |d'| == hi * 4096
    requires forall i: nat :: InRange(i) && i != ino ==> t'[i] == t[i]
    requires var from, to := t'[ino].startBlock * 4096, (t'[ino].startBlock + t'[ino].blockCount) * 4096;
             forall k :: 0 <= k < |d| && !(from <= k < to) ==> d'[k] == d[k]
    ensures forall i: nat :: Live(t', i) && i != ino ==> Contents(d', t'[i]) == Contents(d, t[i])
  {
    forall i: nat | Live(t', i) && i != ino ensures Contents(d', t'[i]) == Contents(d, t[i]) {
      assert ExtentOk(t', i, lo, hi);
      var start, size := t'[i].startBlock, t'[i].size;
      forall k | start * 4096 <= k < start * 4096 + size && k < |d| ensures d'[k] == d[k] {
        assert FileCovers(t', i, k / 4096);
        assert !FileCovers(t', ino, k / 4096);
      }
    }
  }

  // Finding what was created.

  /** A name an inode can hold: at most 56 bytes and no zero byte. */
  predicate Storable(name: Bytes) {
    |name| <= 56 && forall i :: 0 <= i < |name| ==> name[i] != 0
  }

  lemma {:induction false} NameSliceBounds(name: Bytes)
    ensures |NameSlice(name)| <= |name| && forall i :: 0 <= i < |NameSlice(name)| ==> NameSlice(name)[i] != 0
  {
    if name != [] && name[0] != 0 {
      NameSliceBounds(name[1..]);
    }
  }

  lemma {:induction false} NameSlicePadded(name: Bytes, pad: Bytes)
    requires (forall i :: 0 <= i < |name| ==> name[i] != 0) && (pad != [] ==> pad[0] == 0)
    ensures NameSlice(name + pad) == name
  {
    if name == [] {
      assert name + pad == pad;
    } else {
      assert (name + pad)[1..] == name[1..] + pad;
      NameSlicePadded(name[1..], pad);
    }
  }

  /** The name field gives a name back if and only if it is storable. */
  lemma StoredNameIff(name: Bytes)
    ensures NameSlice(NameField(name)) == name <==> Storable(name)
  {
    NameSliceBounds(NameField(name));
    if Storable(name) {
      if |name| == 56 {
        assert name[..56] == name + [];
        NameSlicePadded(name, []);
      } else {
        NameSlicePadded(name, seq(56 - |name|, k => 0));
      }
    }
  }

  /** The name an inode keeps of the name it is created with. */
  function StoredName(name: Bytes): Bytes {
    NameSlice(NameField(name))
  }

  /** An entry with a storable name passes the test for an entry of that name only when it shadows none. */
  lemma StorableShadowsNothing(t: Table, kids: map<nat, seq<nat>>, rank: map<nat, nat>, d: nat, name: Bytes)
    requires Forest(t, kids, rank) && d in kids && Storable(name) && !NameTaken(t, kids[d], name)
    ensures !Shadows(t, kids[d], StoredName(name))
  {
    StoredNameIff(name);
    LookupFinds(t, kids[d], name);
    ChildrenAreLive(t, d, kids[d]);
  }

  /** A name longer than the field keeps its first 56 bytes. */
  lemma LongNameStored(name: Bytes, more: Bytes)
    requires |name| == 56 && Storable(name)
    ensures StoredName(name + more) == name
  {
    StoredNameIff(name);
    assert (name + more)[..56] == name;
    assert name[..56] == name;
  }

  /**
   Where an entry has a name of 56 bytes, the same name with one more byte passes for a new one, and creating it
   turns the path of the old entry to the new one.
   */
  lemma LongNameShadows(t: Table, kids: map<nat, seq<nat>>, rank: map<nat, nat>, ino: nat, parent: nat, name: Bytes)
    requires Forest(t, kids, rank) && IsDir(t, parent) && parent in kids && InRange(ino) && t[ino].kind == 0
    requires |name| == 56 && Storable(name) && IsName(name) && Lookup(t, kids[parent], name) != 0
    ensures var inode := NewInode(1, 420, 0, 0, parent, t[parent].firstChild, name + [120]);
            && !NameTaken(t, kids[parent], name + [120])
            && Resolve(t, kids, name, parent) == Ok(Lookup(t, kids[parent], name))
            && Lookup(t, kids[parent], name) != ino
            && Resolve(Inserted(t, ino, parent, inode), KidsAfterInsert(kids, ino, parent, 1), name, parent) == Ok(ino)
  {
    LongNameStored(name, [120]);
    var inode := NewInode(1, 420, 0, 0, parent, t[parent].firstChild, name + [120]);
    ShadowedPath(t, kids, rank, ino, parent, inode);
    ResolveOne(t, kids, name, parent);
    ChildrenAreLive(t, parent, kids[parent]);
    forall k | 0 <= k < |kids[parent]| ensures NameSlice(t[kids[parent][k]].name) != name + [120] {
      assert SlotOk(t[kids[parent][k]]);
      NameSliceBounds(t[kids[parent][k]].name);
    }
  }

  /** A path an entry created from it can be found by. */
  predicate FindsCreated(path: Bytes, cwd: nat) {
    Storable(LastName(path)) && !(ParentPath(path) == [] && path != [] && path[0] == SLASH && cwd != ROOT_INODE)
  }

  /** A path splits into its parent path and its last name. */
  lemma PathSplits(path: Bytes)
    requires path != []
    ensures SplitAt(path) > 0 ==> path == ParentPath(path) + [SLASH] + LastName(path)
    ensures SplitAt(path) > 0 ==> Parts(path) == Parts(ParentPath(path)) + Parts(LastName(path))
    ensures SplitAt(path) == 0 ==> path == LastName(path) && ParentPath(path) == []
  {
    hide Parts;
    if SplitAt(path) > 0 {
      hide SplitAt;
      var n := SplitAt(path);
      var head := ParentPath(path) + [SLASH];
      assert head == path[..n] && path == head + path[n..];
      PartsAfterSlash(head, LastName(path));
      PartsTrailingSlash(ParentPath(path));
    }
  }

  lemma PartsOfLastName(path: Bytes)
    ensures var name := LastName(path);
            Parts(name) == if name == [] || name == DOT then [] else [name]
  {
    var name := LastName(path);
    if name != [] {
      NameLengthIs(name, |name|);
      assert name[..|name|] == name && name[|name|..] == [];
      NoParts(name[|name|..]);
    }
  }

  /** Where the last component of a missing path is looked up. */
  function LookupDir(t: Table, kids: map<nat, seq<nat>>, path: Bytes, cwd: nat): nat {
    if ParentPath(path) == [] && path != [] && path[0] == SLASH then ROOT_INODE
    else match CreateParent(t, kids, path, cwd) case Ok(p) => p case Err(_) => 0
  }

  /** A path that is missing although its parent is there misses one name in one directory. */
  lemma MissingName(t: Table, kids: map<nat, seq<nat>>, rank: map<nat, nat>, path: Bytes, cwd: nat)
    requires Forest(t, kids, rank)
    requires Resolve(t, kids, path, cwd) == Err(NotFound)
    requires CreateParent(t, kids, path, cwd).Ok? && IsDir(t, CreateParent(t, kids, path, cwd).value)
    ensures var name, d := LastName(path), LookupDir(t, kids, path, cwd);
            var start := if path[0] == SLASH then ROOT_INODE else cwd;
            && path != [] && Parts(name) == [name] && name != DOT_DOT
            && Parts(path) == Parts(ParentPath(path)) + [name]
            && ResolveParts(t, kids, Parts(ParentPath(path)), start) == Ok(d)
            && d in kids && Lookup(t, kids[d], name) == 0
  {
    var name := LastName(path);
    var start := if path[0] == SLASH then ROOT_INODE else cwd;
    var above := Parts(ParentPath(path));
    ParentStart(path);
    PartsOfLastName(path);
    NoParts([]);
    hide Parts, SplitAt, ParentPath, LastName, SlotsOk, ParentsOk, RanksOk;
    ResolveConcat(t, kids, above, Parts(name), start);
    var d := LookupDir(t, kids, path, cwd);
    assert ResolveParts(t, kids, above, start) == Ok(d);
    assert IsDir(t, d) && d in kids;
    if Parts(name) == [] {
      assert false;
    }
    assert ResolveParts(t, kids, [name], d) == ResolvePart(t, kids, name, d);
  }

  lemma ParentStart(path: Bytes)
    requires path != []
    ensures Parts(path) == Parts(ParentPath(path)) + Parts(LastName(path))
    ensures ParentPath(path) != [] ==> ParentPath(path)[0] == path[0]
    ensures ParentPath(path) == [] && path[0] != SLASH ==> LastName(path) == path
  {
    PathSplits(path);
    NoParts([]);
    hide Parts, SplitAt;
    if SplitAt(path) == 0 {
      assert Parts(ParentPath(path)) + Parts(LastName(path)) == Parts(LastName(path));
    }
  }

  /** The table, forest and entry that `create_entry` makes for a missing path. */
  ghost predicate Created(t: Table, kids: map<nat, seq<nat>>, path: Bytes, cwd: nat, ino: nat, inode: Inode,
                          t': Table, kids': map<nat, seq<nat>>)
  {
    && CreateParent(t, kids, path, cwd).Ok?
    && var p := CreateParent(t, kids, path, cwd).value;
    && IsDir(t, p) && p in kids && InRange(ino) && t[ino].kind == 0
    && (inode.kind == 1 || inode.kind == 2) && inode.name == NameField(LastName(path))
    && t' == Inserted(t, ino, p, inode) && kids' == KidsAfterInsert(kids, ino, p, inode.kind)
  }

  /** After an entry is added to the directory a path leads to, the path and its name lead to the entry. */
  lemma EntryIsFound(t: Table, kids: map<nat, seq<nat>>, rank: map<nat, nat>, above: seq<Bytes>, start: nat,
                     p: nat, ino: nat, inode: Inode, name: Bytes)
    requires Forest(t, kids, rank) && IsDir(t, p) && p in kids && InRange(ino) && t[ino].kind == 0 && inode.kind != 0
    requires Components(above) && ResolveParts(t, kids, above, start) == Ok(p)
    requires NameSlice(inode.name) == name && name != DOT_DOT && Lookup(t, kids[p], name) == 0
    ensures ResolveParts(Inserted(t, ino, p, inode), KidsAfterInsert(kids, ino, p, inode.kind), above + [name],
                         start)
            == Ok(ino)
  {
    var t', kids' := Inserted(t, ino, p, inode), KidsAfterInsert(kids, ino, p, inode.kind);
    if !Live(t, start) {
      ResolveFromFree(t, kids, rank, above, start);
    }
    InsertKeepsResolved(t, kids, rank, ino, p, inode, above, start);
    LookupHead(t', kids[p], ino, name);
    hide Lookup, ListsOk, SlotsOk, ParentsOk, RanksOk, NameSlice;
    ResolveConcat(t', kids', above, [name], start);
    assert ResolvePart(t', kids', name, p) == Ok(ino);
    assert ResolveParts(t', kids', [name], p) == Ok(ino);
  }

  lemma CreatedIsFound(t: Table, kids: map<nat, seq<nat>>, rank: map<nat, nat>, path: Bytes, cwd: nat, ino: nat,
                       inode: Inode,
                       t': Table, kids': map<nat, seq<nat>>)
    requires Forest(t, kids, rank) && Created(t, kids, path, cwd, ino, inode, t', kids')
    requires Resolve(t, kids, path, cwd) == Err(NotFound) && FindsCreated(path, cwd)
    ensures Resolve(t', kids', path, cwd) == Ok(ino)
  {
    hide Parts, SplitAt, ParentPath, LastName, NameField, NameSlice, Storable, Lookup;
    hide Forest, ResolveParts, Inserted, KidsAfterInsert;
    MissingName(t, kids, rank, path, cwd);
    StoredNameIff(LastName(path));
    PartsAreComponents(ParentPath(path));
    EntryIsFound(t, kids, rank, Parts(ParentPath(path)), if path[0] == SLASH then ROOT_INODE else cwd,
                 CreateParent(t, kids, path, cwd).value, ino, inode, LastName(path));
  }

  lemma LookupHead(t: Table, list: seq<nat>, ino: nat, name: Bytes)
    requires Live(t, ino) && NameSlice(t[ino].name) == name
    ensures Lookup(t, [ino] + list, name) == ino
  {
  }

  lemma UnstorableIsNotFound(t: Table, kids: map<nat, seq<nat>>, rank: map<nat, nat>, parts: seq<Bytes>, name: Bytes,
                             start: nat)
    requires Forest(t, kids, rank) && !Storable(name) && name != DOT_DOT
    ensures ResolveParts(t, kids, parts + [name], start).Err?
  {
    ResolveConcat(t, kids, parts, [name], start);
    var above := ResolveParts(t, kids, parts, start);
    if above.Ok? {
      var d := above.value;
      assert ResolveParts(t, kids, [name], d).Ok? <==> ResolvePart(t, kids, name, d).Ok?;
      if d in kids && Lookup(t, kids[d], name) != 0 {
        var i := Lookup(t, kids[d], name);
        LookupFinds(t, kids[d], name);
        assert SlotOk(t[i]);
        NameSliceBounds(t[i].name);
      }
    }
  }

  /** Adding an entry elsewhere does not make a name appear in the root. */
  lemma RootUnchanged(t: Table, kids: map<nat, seq<nat>>, rank: map<nat, nat>, p: nat, ino: nat, inode: Inode,
                      name: Bytes)
    requires Forest(t, kids, rank) && IsDir(t, p) && p in kids && p != ROOT_INODE && InRange(ino) && t[ino].kind == 0
    requires name != DOT_DOT && ResolveParts(t, kids, [name], ROOT_INODE) == Err(NotFound)
    ensures ResolveParts(Inserted(t, ino, p, inode), KidsAfterInsert(kids, ino, p, inode.kind), [name], ROOT_INODE)
            == Err(NotFound)
  {
    var t', kids' := Inserted(t, ino, p, inode), KidsAfterInsert(kids, ino, p, inode.kind);
    ChildrenAreLive(t, ROOT_INODE, kids[ROOT_INODE]);
    LookupSame(t, t', kids[ROOT_INODE], name);
    assert ResolveParts(t, kids, [name], ROOT_INODE) == Err(NotFound) ==> ResolvePart(t, kids, name, ROOT_INODE).Err?;
    assert ResolvePart(t', kids', name, ROOT_INODE) == Err(NotFound);
  }

  lemma WrongDirectoryIsNotFound(t: Table, kids: map<nat, seq<nat>>, rank: map<nat, nat>, path: Bytes, cwd: nat,
                                 ino: nat, inode: Inode,
                                 t': Table, kids': map<nat, seq<nat>>)
    requires Forest(t, kids, rank) && Created(t, kids, path, cwd, ino, inode, t', kids')
    requires Resolve(t, kids, path, cwd) == Err(NotFound)
    requires ParentPath(path) == [] && path != [] && path[0] == SLASH && cwd != ROOT_INODE
    ensures Resolve(t', kids', path, cwd) == Err(NotFound)
  {
    hide Parts, SplitAt, ParentPath, LastName, NameField, Lookup, Forest, ResolveParts, Inserted, KidsAfterInsert;
    MissingName(t, kids, rank, path, cwd);
    NoParts(ParentPath(path));
    assert Parts(path) == [LastName(path)];
    RootUnchanged(t, kids, rank, cwd, ino, inode, LastName(path));
  }

  /**
   An entry created for a missing path is found again by that path if and only if its name is storable and
   the path is not a bare "/name" used away from the root, which is created in the current directory instead.
   */
  lemma CreatedIsFoundIff(t: Table, kids: map<nat, seq<nat>>, rank: map<nat, nat>, path: Bytes, cwd: nat, ino: nat,
                          inode: Inode,
                          t': Table, kids': map<nat, seq<nat>>, rank': map<nat, nat>)
    requires Forest(t, kids, rank) && Forest(t', kids', rank') && Created(t, kids, path, cwd, ino, inode, t', kids')
    requires Resolve(t, kids, path, cwd) == Err(NotFound)
    ensures Resolve(t', kids', path, cwd) == Ok(ino) <==> FindsCreated(path, cwd)
  {
    MissingName(t, kids, rank, path, cwd);
    if FindsCreated(path, cwd) {
      CreatedIsFound(t, kids, rank, path, cwd, ino, inode, t', kids');
    } else if !Storable(LastName(path)) {
      UnstorableIsNotFound(t', kids', rank', Parts(ParentPath(path)), LastName(path),
                           if path[0] == SLASH then ROOT_INODE else cwd);
    } else {
      WrongDirectoryIsNotFound(t, kids, rank, path, cwd, ino, inode, t', kids');
    }
  }

  /** What reading a path gives, for a reader with room for `cap` bytes. */
  ghost function ReadOutcome(t: Table, kids: map<nat, seq<nat>>, disk: seq<Byte>, path: Bytes, cwd: nat,
                             cap: nat): Result<seq<Byte>, FsError> {
    match Resolve(t, kids, path, cwd)
    case Err(e) => Err(e)
    case Ok(i) =>
      if !InRange(i) then Err(Invalid)
      else if t[i].kind != 1 then Err(IsDirectory)
      else if t[i].size > cap then Err(TooLarge)
      else Ok(Contents(disk, t[i]))
  }

  lemma SameLinksAfterWrite(t: Table, t': Table, ino: nat)
    requires InRange(ino) && forall i: nat :: InRange(i) && i != ino ==> t'[i] == t[i]
    requires t'[ino] == t[ino].(startBlock := t'[ino].startBlock, blockCount := t'[ino].blockCount,
                                size := t'[ino].size)
    ensures forall i: nat :: InRange(i) ==> SameLinks(t[i], t'[i])
  {
  }

  lemma ResolveAfterWrite(t: Table, t': Table, kids: map<nat, seq<nat>>, rank: map<nat, nat>, path: Bytes, cwd: nat)
    requires Forest(t, kids, rank) && forall i: nat :: InRange(i) ==> SameLinks(t[i], t'[i])
    ensures Resolve(t', kids, path, cwd) == Resolve(t, kids, path, cwd)
  {
    if path != [] {
      ResolveSame(t, t', kids, rank, Parts(path), if path[0] == SLASH then ROOT_INODE else cwd);
    }
  }

  lemma NewIsFree(t: Table, kids: map<nat, seq<nat>>, rank: map<nat, nat>, ino: nat, parent: nat)
    requires Forest(t, kids, rank) && parent in kids && InRange(ino) && IsFirstFree(t, ino)
    ensures IsDir(t, parent) && t[ino].kind == 0
  {
  }

  /** Besides the new slot only the first child of the directory changes. */
  lemma InsertedKeeps(t: Table, ino: nat, parent: nat, inode: Inode)
    requires InRange(ino) && IsDir(t, parent) && t[ino].kind == 0
    ensures var t' := Inserted(t, ino, parent, inode);
            && t'[ino] == inode
            && forall i: nat :: Live(t, i) && i != ino ==>
                 t'[i] == t[i].(firstChild := t'[i].firstChild) && (t[i].kind == 1 ==> t'[i] == t[i])
  {
  }

  /** Writing a file's contents moves no path. */
  lemma PathsAfterWrite(t: Table, t': Table, kids: map<nat, seq<nat>>, rank: map<nat, nat>)
    requires Forest(t, kids, rank) && forall i: nat :: InRange(i) ==> SameLinks(t[i], t'[i])
    ensures forall path: Bytes, cwd: nat :: Resolve(t', kids, path, cwd) == Resolve(t, kids, path, cwd)
  {
    forall path: Bytes, cwd: nat ensures Resolve(t', kids, path, cwd) == Resolve(t, kids, path, cwd) {
      ResolveAfterWrite(t, t', kids, rank, path, cwd);
    }
  }

  lemma FormattedIsForest(t: Table)
    requires IsDir(t, ROOT_INODE) && t[ROOT_INODE].parent == 0 && t[ROOT_INODE].firstChild == 0
    requires forall i: nat :: InRange(i) ==> SlotOk(t[i]) && (i != ROOT_INODE ==> t[i].kind == 0)
    ensures Forest(t, map[ROOT_INODE := []], map[ROOT_INODE := 0])
  {
    forall j: nat ensures ListEntry(t, ROOT_INODE, [], j) {
    }
  }

  /** Below a root without children there is no other inode in any tree. */
  lemma {:induction false} StrayIsInNoTree(t: Table, kids: map<nat, seq<nat>>, rank: map<nat, nat>, i: nat)
    requires t[ROOT_INODE].firstChild == 0 && Live(t, i) && i != ROOT_INODE && i in rank
    ensures !Forest(t, kids, rank)
    decreases rank[i]
  {
    hide Children;
    if Forest(t, kids, rank) {
      RootIsEmpty(t, kids, rank);
      assert ParentOk(t, kids, i) && RankOk(t, rank, i);
      if t[i].parent != ROOT_INODE {
        StrayIsInNoTree(t, kids, rank, t[i].parent);
      }
    }
  }

  lemma RootIsEmpty(t: Table, kids: map<nat, seq<nat>>, rank: map<nat, nat>)
    requires Forest(t, kids, rank) && t[ROOT_INODE].firstChild == 0
    ensures ROOT_INODE in kids && kids[ROOT_INODE] == []
  {
    assert Children(t, ROOT_INODE, kids[ROOT_INODE]);
    assert ListEntry(t, ROOT_INODE, kids[ROOT_INODE], 0);
  }

  lemma FormattedIsExact(t: Table, zero: Bitmap, m: Bitmap, lo: nat, hi: nat)
    requires lo <= hi <= MAP_BITS && forall i: nat :: Live(t, i) ==>
               t[i].kind == 2 && t[i].blockCount == 0 && t[i].size == 0
    requires (forall k :: 0 <= k < 16384 ==> zero[k] == 0) && RangeSet(zero, m, 0, lo)
    ensures Exact(t, m, lo, hi)
  {
    forall b: nat | b < MAP_BITS ensures Bit(m, b) <==> b < lo {
      assert !Bit(zero, b);
      assert Within(b, 0, lo) <==> b < lo;
    }
  }

  /** What a disk holds after `format`, with or without an inode left over. */
  lemma FormattedIs(t: Table, zero: Bitmap, m: Bitmap, lo: nat, hi: nat)
    requires t[ROOT_INODE] == FREE_INODE.(kind := 2, mode := 493, name := NameField([SLASH]))
    requires forall i: nat :: InRange(i) && i != ROOT_INODE ==> SlotOk(t[i]) && (i < 33 ==> t[i].kind == 0)
    requires lo <= hi <= MAP_BITS && (forall k :: 0 <= k < 16384 ==> zero[k] == 0) && RangeSet(zero, m, 0, lo)
    ensures (forall i :: 33 <= i <= 4096 ==> t[i].kind == 0) ==>
              Forest(t, map[ROOT_INODE := []], map[ROOT_INODE := 0]) && Exact(t, m, lo, hi)
    ensures !(forall i :: 33 <= i <= 4096 ==> t[i].kind == 0) ==>
              forall kids: map<nat, seq<nat>>, rank: map<nat, nat> :: !Forest(t, kids, rank)
  {
    hide Exact, Forest, NameField, Unlinked;
    if i :| 33 <= i <= 4096 && t[i].kind != 0 {
      forall kids: map<nat, seq<nat>>, rank: map<nat, nat> ensures !Forest(t, kids, rank) {
        StrayIsInNoForest(t, kids, rank, i);
      }
    } else {
      RootSlotOk();
      FormattedIsForest(t);
      FormattedIsExact(t, zero, m, lo, hi);
    }
  }

  lemma RootSlotOk()
    ensures SlotOk(FREE_INODE.(kind := 2, mode := 493, name := NameField([SLASH])))
  {
  }

  lemma StrayIsInNoForest(t: Table, kids: map<nat, seq<nat>>, rank: map<nat, nat>, i: nat)
    requires t[ROOT_INODE].firstChild == 0 && Live(t, i) && i != ROOT_INODE
    ensures !Forest(t, kids, rank)
  {
    if Forest(t, kids, rank) {
      assert RankOk(t, rank, i);
      StrayIsInNoTree(t, kids, rank, i);
    }
  }

  /** The path names a file with blocks: what a write without space gives back and does not replace. */
  predicate SpaceLost(t: Table, found: Result<nat, FsError>) {
    found.Ok? && Live(t, found.value) && t[found.value].blockCount > 0
  }

  /** The position of an inode in a list. */
  ghost function IndexIn(list: seq<nat>, ino: nat): (k: nat)
    requires ino in list
    ensures k < |list| && list[k] == ino
  {
    if list[0] == ino then 0 else 1 + IndexIn(list[1..], ino)
  }

  /** The blocks a file of `length` bytes takes. */
  function BlocksFor(length: nat): nat {
    (length + 4095) / 4096
  }

  /** As many as hold it, and no more. */
  lemma BlocksForIsLeast(length: nat, n: nat)
    ensures BlocksFor(length) <= n <==> length <= n * 4096
  {
  }

  /** The bytes of a file: the first `size` bytes of its extent. */
  ghost function Contents(disk: seq<Byte>, inode: Inode): seq<Byte> {
    if inode.size == 0 || inode.startBlock * 4096 + inode.size > |disk| then []
    else disk[inode.startBlock * 4096..inode.startBlock * 4096 + inode.size]
  }

  class FileSystem {
    /** The inode slots on disk, numbered from 1. */
    const inodes: array<Inode>
    const bitmap: array<bv8>
    /** The bytes of the file system, block b at b * 4096. */
    const disk: array<Byte>
    const totalBlocks: nat
    const bitmapBlocks: nat
    /** The contents of `inodes`, and the forest they form. */
    ghost var table: Table
    ghost var kids: map<nat, seq<nat>>
    ghost var rank: map<nat, nat>

    /** A disk as it is found, with whatever inodes are on it. */
    constructor (inodes: array<Inode>, bitmap: array<bv8>, disk: array<Byte>, totalBlocks: nat, bitmapBlocks: nat)
      requires inodes.Length == 4097
      ensures Backed() && this.inodes == inodes && this.bitmap == bitmap && this.disk == disk
      ensures this.totalBlocks == totalBlocks && this.bitmapBlocks == bitmapBlocks
    {
      this.inodes, this.bitmap, this.disk, this.totalBlocks, this.bitmapBlocks := inodes, bitmap, disk, totalBlocks,
        bitmapBlocks;
      table, kids, rank := inodes[..], map[], map[];
    }

    function DataStart(): nat {
      BITMAP_START + bitmapBlocks
    }

    ghost predicate Backed()
      reads this, inodes
    {
      inodes.Length == 4097 && inodes[..] == table
    }

    ghost predicate Sized()
      reads bitmap, disk
    {
      bitmap.Length == 16384 && disk.Length == totalBlocks * 4096
    }

    ghost predicate WellLinked()
      reads this, inodes
    {
      Backed() && Forest(table, kids, rank)
    }

    ghost predicate Valid()
      reads this, inodes, bitmap, disk
    {
      WellLinked() && Sized() && Exact(table, bitmap[..], DataStart(), totalBlocks)
    }

    /** What holds even after a write has run out of space: one tree, and every extent in the data area. */
    ghost predicate InBounds()
      reads this, inodes, bitmap, disk
    {
      WellLinked() && Sized() && Placed(table, DataStart(), totalBlocks)
    }

    lemma ValidIsInBounds()
      requires Valid()
      ensures InBounds()
    {
    }

    method ReadInode(ino: nat) returns (r: Result<Inode, FsError>)
      requires Backed()
      ensures r == if InRange(ino) then Ok(table[ino]) else Err(Invalid)
    {
      if ino == 0 || ino > INODE_COUNT {
        return Err(Invalid);
      }
      return Ok(inodes[ino]);
    }

    method WriteInode(ino: nat, inode: Inode)
      requires Backed() && InRange(ino)
      modifies this`table, inodes
      ensures Backed() && table == old(table)[ino := inode]
    {
      inodes[ino] := inode;
      table := table[ino := inode];
    }

    /** The loop over a directory's list: the first child with the name, or 0. */
    method FindChild(dir: nat, part: Bytes) returns (found: nat)
      requires WellLinked() && dir in kids
      ensures found == Lookup(table, kids[dir], part)
    {
      ghost var list := kids[dir];
      assert Children(table, dir, list);
      ChildrenAreLive(table, dir, list);
      var child := inodes[dir].firstChild;
      found := 0;
      ghost var j: nat := 0;
      while child != 0
        invariant j <= |list| && child == Next(list, j)
        invariant Lookup(table, list, part) == Lookup(table, list[j..], part)
        decreases |list| - j
      {
        var e := inodes[child];
        assert ListEntry(table, dir, list, j);
        if e.kind != 0 && NameSlice(e.name) == part {
          found := child;
          return;
        }
        assert list[j..][1..] == list[j + 1..];
        child := e.nextSibling;
        j := j + 1;
      }
      assert list[j..] == [];
    }

    /** `resolve_with`. */
    method ResolveWith(path: Bytes, cwd: nat) returns (r: Result<nat, FsError>)
      requires WellLinked()
      ensures r == Resolve(table, kids, path, cwd)
    {
      if path == [] || path == [SLASH] {
        assert path == [SLASH] ==> Parts(path) == [];
        return Ok(ROOT_INODE);
      }
      var cur: nat := if path[0] == SLASH then ROOT_INODE else cwd;
      var parts := Parts(path);
      ghost var from := cur;
      for k := 0 to |parts|
        invariant ResolveParts(table, kids, parts, from) == ResolveParts(table, kids, parts[k..], cur)
      {
        var part := parts[k];
        assert parts[k..][1..] == parts[k + 1..];
        var inode := ReadInode(cur);
        if inode.Err? {
          return Err(inode.error);
        }
        if part == DOT_DOT {
          if inode.value.parent != 0 {
            cur := inode.value.parent;
          }
          continue;
        }
        if inode.value.kind != 2 {
          return Err(NotDir);
        }
        var found := FindChild(cur, part);
        if found == 0 {
          return Err(NotFound);
        }
        cur := found;
      }
      return Ok(cur);
    }

    /** The walk that looks for an entry of the same name. */
    method NameExists(dir: nat, name: Bytes) returns (taken: bool)
      requires WellLinked() && dir in kids
      ensures taken <==> NameTaken(table, kids[dir], name)
    {
      ghost var list := kids[dir];
      assert Children(table, dir, list);
      ChildrenAreLive(table, dir, list);
      var child := inodes[dir].firstChild;
      ghost var j: nat := 0;
      while child != 0
        invariant j <= |list| && child == Next(list, j)
        invariant forall k :: 0 <= k < j ==> NameSlice(table[list[k]].name) != name
        decreases |list| - j
      {
        var e := inodes[child];
        assert ListEntry(table, dir, list, j);
        if NameSlice(e.name) == name {
          return true;
        }
        child := e.nextSibling;
        j := j + 1;
      }
      return false;
    }

    method FirstFreeInode() returns (ino: nat)
      requires Backed()
      ensures IsFirstFree(table, ino)
    {
      ino := 0;
      for i := 1 to INODE_COUNT + 1
        invariant forall k: nat :: InRange(k) && k < i ==> table[k].kind != 0
      {
        if inodes[i].kind == 0 {
          return i;
        }
      }
    }

    /** The two inode writes of `create_entry`. */
    method InsertEntry(ino: nat, parentIno: nat, inode: Inode)
      requires InBounds() && IsDir(table, parentIno) && InRange(ino) && table[ino].kind == 0
      requires (inode.kind == 1 || inode.kind == 2) && inode.parent == parentIno && inode.firstChild == 0
      requires inode.nextSibling == table[parentIno].firstChild
      requires inode.blockCount == 0 && inode.size == 0 && |inode.name| == 56
      modifies this`table, this`kids, this`rank, inodes
      ensures InBounds() && (old(Valid()) ==> Valid()) && parentIno in old(kids)
      ensures table == Inserted(old(table), ino, parentIno, inode)
      ensures kids == KidsAfterInsert(old(kids), ino, parentIno, inode.kind)
    {
      hide Exact, Placed;
      assert RankOk(table, rank, parentIno);
      InsertKeepsForest(table, kids, rank, ino, parentIno, inode);
      StillPlaced(table, Inserted(table, ino, parentIno, inode), ino, DataStart(), totalBlocks);
      if Exact(table, bitmap[..], DataStart(), totalBlocks) {
        InsertKeepsExact(table, bitmap[..], ino, parentIno, inode, DataStart(), totalBlocks);
      }
      hide Forest;
      var parent := inodes[parentIno];
      WriteInode(ino, inode);
      WriteInode(parentIno, parent.(firstChild := ino));
      kids, rank := KidsAfterInsert(kids, ino, parentIno, inode.kind), rank[ino := rank[parentIno] + 1];
    }

    /**
     What `create_entry` answers, and the one inode it adds: `like` with its parent and its place in the list filled
     in.
     */
    twostate predicate Made(new path: Bytes, new cwd: nat, new like: Inode, new r: Result<nat, FsError>)
      reads this
    {
      var parent := CreateParent(old(table), old(kids), path, cwd);
      match r
      case Err(e) =>
        if parent.Err? then e == parent.error
        else if !InRange(parent.value) then e == Invalid
        else if old(table)[parent.value].kind != 2 then e == NotDir
        else parent.value in old(kids) &&
             if NameTaken(old(table), old(kids)[parent.value], LastName(path)) then e == Exists
             else e == NoSpace && IsFirstFree(old(table), 0)
      case Ok(ino) =>
        && parent.Ok? && InRange(parent.value) && parent.value in old(kids)
        && !NameTaken(old(table), old(kids)[parent.value], LastName(path))
        && InRange(ino) && IsFirstFree(old(table), ino)
        && table == Inserted(old(table), ino, parent.value,
             like.(parent := parent.value, nextSibling := old(table)[parent.value].firstChild))
        && kids == KidsAfterInsert(old(kids), ino, parent.value, like.kind)
    }

    twostate lemma MadeIsExact(new path: Bytes, new cwd: nat, new like: Inode, new r: Result<nat, FsError>)
      requires Made(path, cwd, like, r) && old(WellLinked())
      ensures match CreateRefusal(old(table), old(kids), path, cwd)
              case Some(e) => r == Err(e)
              case None => r.Ok?
    {
    }

    /**
     What a creation does to the other paths: all that led somewhere still lead there if and only if the stored name
     shadows no entry, which a storable name never does.
     */
    twostate predicate OtherPaths(new path: Bytes, new cwd: nat, new ino: nat)
      reads this
    {
      var parent := CreateParent(old(table), old(kids), path, cwd);
      && parent.Ok? && parent.value in old(kids)
      && (PathsKept(old(table), old(kids), table, kids, ino)
          <==> !Shadows(old(table), old(kids)[parent.value], StoredName(LastName(path))))
      && (Storable(LastName(path)) ==> PathsKept(old(table), old(kids), table, kids, ino))
    }

    /** `create_entry`: a new inode at the head of its directory's list. A failure changes nothing. */
    method CreateEntry(path: Bytes, cwd: nat, kind: nat, mode: nat, uid: nat, gid: nat)
      returns (r: Result<nat, FsError>)
      requires InBounds() && (kind == 1 || kind == 2)
      modifies this`table, this`kids, this`rank, inodes
      ensures InBounds() && (old(Valid()) ==> Valid())
      ensures r.Err? ==> table == old(table) && kids == old(kids) && rank == old(rank)
      ensures Made(path, cwd, NewInode(kind, mode, uid, gid, 0, 0, LastName(path)), r)
      ensures r.Ok? ==> OtherPaths(path, cwd, r.value)
    {
      hide PathsKept, Shadows, Exact, Placed, NameField;
      var parentPath, name := ParentPath(path), LastName(path);
      var parentIno: nat := cwd;
      if parentPath != [] {
        var resolved := ResolveWith(parentPath, cwd);
        if resolved.Err? {
          return Err(resolved.error);
        }
        parentIno := resolved.value;
      }
      var parent := ReadInode(parentIno);
      if parent.Err? {
        return Err(parent.error);
      }
      if parent.value.kind != 2 {
        return Err(NotDir);
      }
      assert IsDir(table, parentIno) && parentIno in kids;
      var taken := NameExists(parentIno, name);
      if taken {
        return Err(Exists);
      }
      var ino := FirstFreeInode();
      if ino == 0 {
        return Err(NoSpace);
      }
      var inode := NewInode(kind, mode, uid, gid, parentIno, parent.value.firstChild, name);
      PathsKeptIff(table, kids, rank, ino, parentIno, inode);
      if Storable(name) {
        StorableShadowsNothing(table, kids, rank, parentIno, name);
      }
      InsertEntry(ino, parentIno, inode);
      return Ok(ino);
    }

    method MakeDir(path: Bytes, cwd: nat, uid: nat, gid: nat)
      returns (r: Result<(), FsError>, ghost made: Result<nat, FsError>)
      requires InBounds()
      modifies this`table, this`kids, this`rank, inodes
      ensures InBounds() && (old(Valid()) ==> Valid())
      ensures r.Ok? == made.Ok? && (r.Err? ==> made == Err(r.error))
      ensures r.Err? ==> table == old(table) && kids == old(kids)
      ensures r == old(CreateAnswer(table, kids, path, cwd))
      ensures Made(path, cwd, NewInode(2, 493, uid, gid, 0, 0, LastName(path)), made)
      ensures made.Ok? ==> OtherPaths(path, cwd, made.value)
    {
      var entry := CreateEntry(path, cwd, 2, 493, uid, gid);
      MadeIsExact(path, cwd, NewInode(2, 493, uid, gid, 0, 0, LastName(path)), entry);
      made := entry;
      r := if entry.Ok? then Ok(()) else Err(entry.error);
    }

    /** An entry that is there already is left alone; any error but NotFound is passed on. */
    method Touch(path: Bytes, cwd: nat, uid: nat, gid: nat)
      returns (r: Result<(), FsError>, ghost made: Result<nat, FsError>)
      requires InBounds()
      modifies this`table, this`kids, this`rank, inodes
      ensures InBounds() && (old(Valid()) ==> Valid())
      ensures r.Ok? == made.Ok? && (r.Err? ==> made == Err(r.error))
      ensures r.Err? ==> table == old(table) && kids == old(kids)
      ensures r == old(TouchAnswer(table, kids, path, cwd))
      ensures var before := old(Resolve(table, kids, path, cwd));
              if before == Err(NotFound) then
                && Made(path, cwd, NewInode(1, 420, uid, gid, 0, 0, LastName(path)), made)
                && (made.Ok? ==> OtherPaths(path, cwd, made.value))
              else made == before && table == old(table) && kids == old(kids)
    {
      var found := ResolveWith(path, cwd);
      made := found;
      if found.Ok? {
        return Ok(()), found;
      }
      if found.error != NotFound {
        return Err(found.error), found;
      }
      var entry := CreateEntry(path, cwd, 1, 420, uid, gid);
      MadeIsExact(path, cwd, NewInode(1, 420, uid, gid, 0, 0, LastName(path)), entry);
      made := entry;
      r := if entry.Ok? then Ok(()) else Err(entry.error);
    }

    /** `unlink_child`: take an inode out of its directory's list. It is always found. */
    method UnlinkChild(parentIno: nat, childIno: nat, ghost at: nat) returns (r: Result<(), FsError>)
      requires WellLinked() && parentIno in kids && at < |kids[parentIno]| && kids[parentIno][at] == childIno
      modifies this`table, inodes
      ensures Backed() && r == Ok(())
      ensures InRange(childIno) && (at > 0 ==> InRange(kids[parentIno][at - 1]))
      ensures InRange(parentIno) && table == UnlinkedAt(old(table), parentIno, kids[parentIno], at)
    {
      ghost var list := kids[parentIno];
      assert Children(table, parentIno, list);
      ChildrenAreLive(table, parentIno, list);
      NotOwnChild(table, rank, parentIno, list);
      var parent := inodes[parentIno];
      var cur := parent.firstChild;
      var prev: nat := 0;
      ghost var j: nat := 0;
      while cur != 0
        invariant j <= at && cur == list[j] && prev == (if j == 0 then 0 else list[j - 1])
        invariant table == old(table) && Backed()
        decreases |list| - j
      {
        assert ListEntry(table, parentIno, list, j);
        if cur == childIno {
          assert j == at;
          var child := inodes[cur];
          if prev == 0 {
            parent := parent.(firstChild := child.nextSibling);
          } else {
            var p := inodes[prev];
            WriteInode(prev, p.(nextSibling := child.nextSibling));
          }
          WriteInode(parentIno, parent);
          return Ok(());
        }
        var e := inodes[cur];
        prev := cur;
        cur := e.nextSibling;
        j := j + 1;
      }
      return Err(NotFound);
    }

    /** `remove`: unlink the inode, give its blocks back, zero its slot. Nothing else moves. */
    method Remove(path: Bytes, cwd: nat) returns (r: Result<(), FsError>)
      requires InBounds()
      modifies this`table, this`kids, inodes, bitmap
      ensures InBounds() && (old(Valid()) ==> Valid())
      ensures r == old(RemoveAnswer(table, kids, path, cwd))
      ensures r.Err? ==> table == old(table) && kids == old(kids)
      ensures var found := old(Resolve(table, kids, path, cwd));
              r.Ok? ==>
                && found.Ok? && found.value != ROOT_INODE && Live(old(table), found.value)
                && var ino, parent := found.value, old(table)[found.value].parent;
                && parent in old(kids) && ino in old(kids)[parent]
                && var at := IndexIn(old(kids)[parent], ino);
                && InRange(parent) && (at > 0 ==> InRange(old(kids)[parent][at - 1]))
                && table == UnlinkedAt(old(table), parent, old(kids)[parent], at)[ino := FREE_INODE]
                && kids == KidsAfterRemove(old(kids), parent, at)
    {
      hide UnlinkedAt, KidsAfterRemove, Resolve, Exact, ListsOk, RanksOk;
      var resolved := ResolveWith(path, cwd);
      if resolved.Err? {
        return Err(resolved.error);
      }
      var ino := resolved.value;
      if ino == ROOT_INODE {
        return Err(Permission);
      }
      var inode := ReadInode(ino);
      if inode.Err? {
        return Err(inode.error);
      }
      var parent := ReadInode(inode.value.parent);
      if parent.Err? {
        return Err(parent.error);
      }
      if inode.value.kind == 2 && inode.value.firstChild != 0 {
        return Err(NotEmpty);
      }
      assert SlotOk(table[ino]);
      RemoveInode(ino, inode.value);
      return Ok(());
    }

    /** The part of `remove` that changes the disk. */
    method RemoveInode(ino: nat, inode: Inode)
      requires InBounds() && Live(table, ino) && ino != ROOT_INODE && inode == table[ino] && inode.firstChild == 0
      modifies this`table, this`kids, inodes, bitmap
      ensures InBounds() && (old(Valid()) ==> Valid())
      ensures inode.parent in old(kids) && ino in old(kids)[inode.parent] && InRange(inode.parent)
      ensures var at := IndexIn(old(kids)[inode.parent], ino);
              && (at > 0 ==> InRange(old(kids)[inode.parent][at - 1]))
              && table == UnlinkedAt(old(table), inode.parent, old(kids)[inode.parent], at)[ino := FREE_INODE]
              && kids == KidsAfterRemove(old(kids), inode.parent, at)
    {
      hide Exact, Placed, ListsOk, RanksOk, SlotsOk;
      assert ParentOk(table, kids, ino);
      ghost var at := IndexIn(kids[inode.parent], ino);
      ghost var t0, m0, kids0 := table, bitmap[..], kids;
      var unlinked := UnlinkChild(inode.parent, ino, at);
      RemoveKeepsForest(t0, kids0, rank, inode.parent, at);
      if inode.kind == 1 && inode.blockCount != 0 {
        ExtentBounds(t0, ino, DataStart(), totalBlocks);
        ClearRange(bitmap, inode.startBlock, inode.blockCount);
      }
      WriteInode(ino, FREE_INODE);
      kids := KidsAfterRemove(kids, inode.parent, at);
      RemovePlaced(t0, table, inode.parent, kids0, rank, at, DataStart(), totalBlocks);
      if Exact(t0, m0, DataStart(), totalBlocks) {
        RemoveExact(t0, table, m0, bitmap[..], inode.parent, kids0, rank, at, DataStart(), totalBlocks);
      }
    }

    /** `write_range` of one whole block. */
    method WriteBlock(block: nat, contents: seq<Byte>)
      requires Sized() && block < totalBlocks && |contents| == 4096
      modifies disk
      ensures disk[block * 4096..block * 4096 + 4096] == contents
      ensures forall k :: 0 <= k < disk.Length && !(block * 4096 <= k < block * 4096 + 4096) ==> disk[k] == old(disk[k])
    {
      var base := block * 4096;
      forall k | 0 <= k < 4096 {
        disk[base + k] := contents[k];
      }
    }

    /** The data loop of `write_file_with`: the file's bytes, the last block padded with zeros. */
    method StoreData(start: nat, needed: nat, data: seq<Byte>)
      requires Sized() && start + needed <= totalBlocks && needed == BlocksFor(|data|)
      modifies disk
      ensures disk[start * 4096..start * 4096 + |data|] == data
      ensures forall k :: 0 <= k < disk.Length && !(start * 4096 <= k < (start + needed) * 4096) ==>
                disk[k] == old(disk[k])
    {
      var off := 0;
      for i := 0 to needed
        invariant off == Min(i * 4096, |data|)
        invariant forall k :: 0 <= k < off ==> disk[start * 4096 + k] == data[k]
        invariant forall k :: 0 <= k < disk.Length && !(start * 4096 <= k < (start + i) * 4096) ==>
                    disk[k] == old(disk[k])
      {
        var copy := Min(4096, |data| - off);
        var block := data[off..off + copy] + seq(4096 - copy, k => 0);
        WriteBlock(start + i, block);
        forall k | off <= k < off + copy ensures disk[start * 4096 + k] == data[k] {
          var at := (start + i) * 4096;
          assert off == i * 4096 && at + (k - off) == start * 4096 + k;
          assert disk[at..at + 4096][k - off] == block[k - off] == data[off..off + copy][k - off];
        }
        off := off + copy;
      }
    }

    /** Files other than `ino` keep their inode and their bytes. */
    twostate predicate OtherFilesKept(ino: nat)
      reads this, disk
    {
      forall i: nat :: InRange(i) && i != ino ==>
           table[i] == old(table)[i]
             && (Live(table, i) ==> Contents(disk[..], table[i]) == Contents(old(disk[..]), old(table)[i]))
    }

    /** The lowest run of free blocks of the bitmap `cleared` was taken, and its blocks set. */
    ghost predicate LowestRunTaken(cleared: Bitmap, start: nat, needed: nat)
      requires bitmap.Length == 16384 && start + needed <= totalBlocks <= MAP_BITS
      reads bitmap
    {
      && DataStart() <= start && FreeRun(cleared, start, needed)
      && NoRun(cleared, DataStart(), start + needed - 1, needed)
      && RangeSet(cleared, bitmap[..], start, needed)
    }

    /**
     `write_file_with` once the inode is known. On success the file holds the data in the lowest run of
     blocks free after its old extent was given back. NoSpace means there is no such run; the old extent
     is gone by then, so allocation is still exact if and only if the file had no blocks. Other inodes never
     change, and other files keep their bytes as long as allocation was exact.
     */
    method WriteContents(ino: nat, data: seq<Byte>) returns (r: Result<(), FsError>, ghost cleared: Bitmap)
      requires InBounds() && InRange(ino)
      modifies this`table, inodes, bitmap, disk
      ensures InBounds()
      ensures r.Ok? || r == Err(NoSpace)
              || (table == old(table) && bitmap[..] == old(bitmap[..]) && disk[..] == old(disk[..]))
      ensures var was := old(table)[ino];
              r == ContentsAnswer(was.kind, was.startBlock, was.blockCount, old(bitmap[..]), |data|, DataStart(),
                                  totalBlocks)
      ensures r.Ok? || r == Err(NoSpace) ==> old(table)[ino].kind == 1
      ensures r.Ok? || r == Err(NoSpace) ==>
                RangeCleared(old(bitmap[..]), cleared, old(table)[ino].startBlock, old(table)[ino].blockCount)
      ensures r == Err(NoSpace) ==>
                && table == old(table) && disk[..] == old(disk[..]) && bitmap[..] == cleared
                && NoRun(cleared, DataStart(), totalBlocks, BlocksFor(|data|)) && BlocksFor(|data|) > 0
                && (old(Valid()) ==> (Valid() <==> table[ino].blockCount == 0))
      ensures r.Ok? ==>
                && var inode, needed := table[ino], BlocksFor(|data|);
                && table == old(table)[ino := old(table)[ino].(
                     startBlock := inode.startBlock, blockCount := needed, size := |data|)]
                && Contents(disk[..], inode) == data
                && (old(Valid()) ==> Valid() && OtherFilesKept(ino))
                && if needed == 0 then bitmap[..] == cleared && inode.startBlock == 0
                   else
                     && inode.startBlock + needed <= totalBlocks <= MAP_BITS
                     && LowestRunTaken(cleared, inode.startBlock, needed)
    {
      hide Exact, Forest, Placed, RangeCleared, RangeSet, FreeRun, HasRoom;
      cleared := bitmap[..];
      var inode := inodes[ino];
      if inode.kind != 1 {
        return Err(IsDirectory), cleared;
      }
      var needed := BlocksFor(|data|);
      if needed > MAX_FILE_BLOCKS {
        return Err(TooLarge), cleared;
      }
      ghost var t0, m0 := table, bitmap[..];
      ghost var lo, hi := DataStart(), totalBlocks;
      if inode.blockCount != 0 {
        ExtentBounds(t0, ino, lo, hi);
        ClearRange(bitmap, inode.startBlock, inode.blockCount);
      } else {
        EmptyRanges(m0, inode.startBlock);
      }
      cleared := bitmap[..];
      MapBounds(t0, lo, hi);
      RoomIff(m0, cleared, t0[ino].startBlock, t0[ino].blockCount, lo, hi, needed);
      if needed > 0 {
        var run := FindRun(bitmap, DataStart(), totalBlocks, needed);
        if run.None? {
          if Exact(t0, m0, lo, hi) {
            NoSpaceKeepsExactIff(t0, m0, cleared, ino, lo, hi);
          }
          return Err(NoSpace), cleared;
        }
        SetRange(bitmap, run.value, needed);
        StoreData(run.value, needed, data);
        inode := inode.(startBlock := run.value, blockCount := needed);
      } else {
        EmptyRanges(cleared, 0);
        inode := inode.(startBlock := 0, blockCount := 0);
      }
      inode := inode.(size := |data|);
      WriteInode(ino, inode);
      StillPlaced(t0, table, ino, lo, hi);
      RewriteKeepsForest(t0, table, kids, rank, ino);
      if Exact(t0, m0, lo, hi) {
        RewriteKeepsExact(t0, table, m0, cleared, bitmap[..], ino, lo, hi);
        OthersOutside(t0, table, old(disk[..]), disk[..], m0, bitmap[..], ino, lo, hi);
      }
      return Ok(()), cleared;
    }

    /** Every other inode is as it was, but that a directory may have a new first child. */
    twostate predicate InodesKept(new ino: nat)
      reads this
    {
      forall i: nat :: old(Live(table, i)) && i != ino ==>
        && table[i] == old(table)[i].(firstChild := table[i].firstChild)
        && (table[i].kind == 1 ==> table[i] == old(table)[i])
    }

    /** Every other file has the bytes it had. */
    twostate predicate BytesKept(new ino: nat)
      reads this, disk
    {
      forall i: nat :: old(Live(table, i)) && i != ino && table[i].kind == 1 ==>
        Contents(disk[..], table[i]) == Contents(old(disk[..]), old(table)[i])
    }

    /** The inode `write_file_with` writes to: the one the path names, or a new, empty one. */
    method FindOrCreate(path: Bytes, cwd: nat, uid: nat, gid: nat) returns (r: Result<nat, FsError>)
      requires InBounds()
      modifies this`table, this`kids, this`rank, inodes
      ensures InBounds() && (old(Valid()) ==> Valid())
      ensures r.Err? ==> table == old(table) && kids == old(kids)
      ensures var before := old(Resolve(table, kids, path, cwd));
              && (before.Ok? ==> r == before && table == old(table) && kids == old(kids))
              && (before.Err? && before.error != NotFound ==> r == before)
              && (before == Err(NotFound) ==>
                    && Made(path, cwd, NewInode(1, 420, uid, gid, 0, 0, LastName(path)), r)
                    && var refusal := old(CreateRefusal(table, kids, path, cwd));
                    if refusal.Some? then r == Err(refusal.value) else r.Ok?)
              && (r.Ok? && before.Err? ==>
                    && InRange(r.value) && table[r.value].kind == 1
                    && table[r.value].startBlock == table[r.value].blockCount == 0
                    && OtherPaths(path, cwd, r.value)
                    && (Resolve(table, kids, path, cwd) == Ok(r.value) <==> FindsCreated(path, cwd)))
      ensures r.Ok? ==> InodesKept(r.value)
    {
      hide Exact, Placed, Forest, PathsKept, Shadows, FindsCreated, Inserted, KidsAfterInsert;
      hide Resolve, NameField, NameTaken, IsFirstFree;
      var found := ResolveWith(path, cwd);
      if found.Ok? || found.error != NotFound {
        return found;
      }
      ghost var t0, kids0, rank0 := table, kids, rank;
      r := CreateEntry(path, cwd, 1, 420, uid, gid);
      MadeIsExact(path, cwd, NewInode(1, 420, uid, gid, 0, 0, LastName(path)), r);
      if r.Ok? {
        ghost var parent := CreateParent(t0, kids0, path, cwd).value;
        ghost var inode := NewInode(1, 420, uid, gid, parent, t0[parent].firstChild, LastName(path));
        NewIsFree(t0, kids0, rank0, r.value, parent);
        InsertedKeeps(t0, r.value, parent, inode);
        CreatedIsFoundIff(t0, kids0, rank0, path, cwd, r.value, inode, table, kids, rank);
      }
    }

    /**
     `write_file`. On success a file holds the data, every other inode is as it was, and so are the bytes of every
     other file if allocation was exact. Reading the path gives the data back: always when the path named a file
     before, and for a new file exactly when the path finds what it creates. Only a write that runs out of space on
     a file with blocks makes allocation inexact.
     */
    method WriteFile(path: Bytes, cwd: nat, data: seq<Byte>, uid: nat, gid: nat)
      returns (r: Result<(), FsError>, ghost ino: nat)
      requires InBounds()
      modifies this`table, this`kids, this`rank, inodes, bitmap, disk
      ensures InBounds()
      ensures r == old(WriteAnswer(table, kids, bitmap[..], path, cwd, |data|, DataStart(), totalBlocks))
      ensures r.Ok? ==>
                Live(table, ino) && table[ino].kind == 1 && Contents(disk[..], table[ino]) == data && InodesKept(ino)
      ensures old(Valid()) && r.Ok? ==> Valid() && BytesKept(ino)
      ensures var before := old(Resolve(table, kids, path, cwd));
              && (before.Err? && before.error != NotFound ==> r == Err(before.error))
              && (before.Ok? && r.Err? ==> table == old(table) && kids == old(kids))
              && (before == Err(NotFound) && r.Err? ==>
                    if old(CreateRefusal(table, kids, path, cwd)).Some? then table == old(table) && kids == old(kids)
                    else Made(path, cwd, NewInode(1, 420, uid, gid, 0, 0, LastName(path)), Ok(ino)))
              && (r.Ok? && before.Ok? ==>
                    && ino == before.value && Resolve(table, kids, path, cwd) == Ok(ino) && kids == old(kids)
                    && forall i: nat :: InRange(i) && i != ino ==> table[i] == old(table)[i])
              && (r.Ok? && before.Ok? ==> PathsKept(old(table), old(kids), table, kids, 0))
              && (r.Ok? && before.Err? ==> OtherPaths(path, cwd, ino))
              && (r.Ok? && before.Err? ==> (Resolve(table, kids, path, cwd) == Ok(ino) <==> FindsCreated(path, cwd)))
      ensures old(Valid()) && r.Err? ==>
                (Valid() <==> !(r.error == NoSpace && SpaceLost(old(table), old(Resolve(table, kids, path, cwd)))))
      ensures r.Ok? && Resolve(table, kids, path, cwd) == Ok(ino) ==>
                forall cap: nat :: |data| <= cap ==> ReadOutcome(table, kids, disk[..], path, cwd, cap) == Ok(data)
    {
      hide Exact, Forest, Placed, FindsCreated, Parts, CreateRefusal, ContentsAnswer;
      hide RangeCleared, NoRun, LowestRunTaken;
      var target := FindOrCreate(path, cwd, uid, gid);
      if target.Err? {
        return Err(target.error), 0;
      }
      ino := target.value;
      if !InRange(target.value) {
        return Err(Invalid), ino;
      }
      ghost var t1, cleared := table, [];
      r, cleared := WriteContents(target.value, data);
      if r.Ok? {
        SameLinksAfterWrite(t1, table, ino);
        ResolveAfterWrite(t1, table, kids, rank, path, cwd);
        PathsAfterWrite(t1, table, kids, rank);
      }
    }

    /** `read_file_bytes`. */
    method ReadFileBytes(path: Bytes, cwd: nat, out: array<Byte>) returns (r: Result<nat, FsError>)
      requires InBounds() && out != disk
      modifies out
      ensures r.Ok? ==>
                r.value <= out.Length && ReadOutcome(table, kids, disk[..], path, cwd, out.Length) == Ok(out[..r.value])
      ensures r.Err? ==> ReadOutcome(table, kids, disk[..], path, cwd, out.Length) == Err(r.error)
    {
      var resolved := ResolveWith(path, cwd);
      if resolved.Err? {
        return Err(resolved.error);
      }
      var found := ReadInode(resolved.value);
      if found.Err? {
        return Err(found.error);
      }
      var inode := found.value;
      if inode.kind != 1 {
        return Err(IsDirectory);
      }
      var size := inode.size;
      if size > out.Length {
        return Err(TooLarge);
      }
      assert ExtentOk(table, resolved.value, DataStart(), totalBlocks);
      if size != 0 {
        var base := inode.startBlock * 4096;
        forall k | 0 <= k < size {
          out[k] := disk[base + k];
        }
      }
      assert out[..size] == Contents(disk[..], inode);
      return Ok(size);
    }

    /**
     `format` clears the first block of inodes and no other. An inode of an earlier file system that lies further on
     stays live and is in no directory: the disk holds a file system exactly when there is none.
     */
    method Format()
      requires inodes.Length == 4097 && Sized() && DataStart() <= totalBlocks <= MAP_BITS
      requires forall i :: 33 <= i <= 4096 ==> SlotOk(inodes[i])
      modifies this`table, this`kids, this`rank, inodes, bitmap
      ensures Backed() && kids == map[ROOT_INODE := []]
      ensures forall i :: 33 <= i <= 4096 ==> table[i] == old(inodes[i])
      ensures forall i: nat :: Live(table, i) <==> i == ROOT_INODE || (33 <= i <= 4096 && old(inodes[i]).kind != 0)
      ensures Valid() <==> forall i :: 33 <= i <= 4096 ==> old(inodes[i]).kind == 0
      ensures (exists i :: 33 <= i <= 4096 && old(inodes[i]).kind != 0) ==>
                forall anyKids: map<nat, seq<nat>>, anyRank: map<nat, nat> :: !Forest(table, anyKids, anyRank)
    {
      forall k | 0 <= k < 16384 {
        bitmap[k] := 0;
      }
      ghost var m0 := bitmap[..];
      SetRange(bitmap, 0, DataStart());
      forall i | 1 <= i < 33 {
        inodes[i] := if i == 1 then FREE_INODE.(kind := 2, mode := 493, name := NameField([SLASH])) else FREE_INODE;
      }
      table, kids, rank := inodes[..], map[ROOT_INODE := []], map[ROOT_INODE := 0];
      FormattedIs(table, m0, bitmap[..], DataStart(), totalBlocks);
    }
  }
}
