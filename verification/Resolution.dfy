/** Path resolution over the inode forest (kernel/src/storage/vfs.rs). */
module Resolution {
  import opened Prelude
  import opened InodeForest

  datatype FsError = Invalid | NotFound | Exists | NotDir | IsDirectory | NotEmpty | Permission | NoSpace | TooLarge

  const SLASH: Byte := 47
  const DOT: Bytes := [46]
  const DOT_DOT: Bytes := [46, 46]

  /** The length of the leading stretch without a slash. */
  function NameLength(path: Bytes): (n: nat)
    ensures n <= |path| && (forall i :: 0 <= i < n ==> path[i] != SLASH) && (n < |path| ==> path[n] == SLASH)
  {
    if path == [] || path[0] == SLASH then 0
    else
      var rest := path[1..];
      assert forall i :: 0 < i < |path| ==> path[i] == rest[i - 1];
      1 + NameLength(rest)
  }

  /** The components of a path: split at slashes, without empty components and single dots. */
  function Parts(path: Bytes): seq<Bytes>
    decreases |path|
  {
    if path == [] then []
    else if path[0] == SLASH then Parts(path[1..])
    else
      var n := NameLength(path);
      assert n > 0;
      (if path[..n] == DOT then [] else [path[..n]]) + Parts(path[n..])
  }

  /** The first inode of a directory's list with the given name, or 0. */
  function Lookup(t: Table, list: seq<nat>, name: Bytes): nat {
    if list == [] then 0
    else if Live(t, list[0]) && NameSlice(t[list[0]].name) == name then list[0]
    else Lookup(t, list[1..], name)
  }

  /** One component of a path, taken from inode `cur`. */
  function ResolvePart(t: Table, kids: map<nat, seq<nat>>, part: Bytes, cur: nat): Result<nat, FsError> {
    if !InRange(cur) then Err(Invalid)
    else if part == DOT_DOT then Ok(if t[cur].parent != 0 then t[cur].parent else cur)
    else if t[cur].kind != 2 || cur !in kids then Err(NotDir)
    else if Lookup(t, kids[cur], part) == 0 then Err(NotFound)
    else Ok(Lookup(t, kids[cur], part))
  }

  function ResolveParts(t: Table, kids: map<nat, seq<nat>>, parts: seq<Bytes>, cur: nat): Result<nat, FsError> {
    if parts == [] then Ok(cur)
    else
      match ResolvePart(t, kids, parts[0], cur)
      case Err(e) => Err(e)
      case Ok(next) => ResolveParts(t, kids, parts[1..], next)
  }

  function Resolve(t: Table, kids: map<nat, seq<nat>>, path: Bytes, cwd: nat): Result<nat, FsError> {
    if path == [] then Ok(ROOT_INODE)
    else ResolveParts(t, kids, Parts(path), if path[0] == SLASH then ROOT_INODE else cwd)
  }

  lemma {:induction false} ResolveConcat(t: Table, kids: map<nat, seq<nat>>, a: seq<Bytes>, b: seq<Bytes>, cur: nat)
    ensures ResolveParts(t, kids, a + b, cur) ==
              match ResolveParts(t, kids, a, cur)
              case Err(e) => Err(e)
              case Ok(next) => ResolveParts(t, kids, b, next)
  {
    if a == [] {
      assert a + b == b;
    } else {
      assert (a + b)[1..] == a[1..] + b;
      if ResolvePart(t, kids, a[0], cur).Ok? {
        ResolveConcat(t, kids, a[1..], b, ResolvePart(t, kids, a[0], cur).value);
      }
    }
  }

  lemma {:induction false} LookupFinds(t: Table, list: seq<nat>, name: Bytes)
    ensures var i := Lookup(t, list, name);
            i != 0 ==> i in list && Live(t, i) && NameSlice(t[i].name) == name
    ensures Lookup(t, list, name) == 0 ==> forall i :: i in list && Live(t, i) ==> NameSlice(t[i].name) != name
  {
    if list != [] {
      LookupFinds(t, list[1..], name);
    }
  }

  /** The component before any other entry of a list that does not carry the name. */
  lemma {:induction false} LookupSkips(t: Table, list: seq<nat>, name: Bytes, j: nat)
    requires j < |list| && forall k :: 0 <= k < j ==> Live(t, list[k]) && NameSlice(t[list[k]].name) != name
    ensures Live(t, list[j]) && NameSlice(t[list[j]].name) == name ==> Lookup(t, list, name) == list[j]
    decreases j
  {
    if j > 0 {
      var rest := list[1..];
      assert forall k :: 0 <= k < |rest| ==> rest[k] == list[k + 1];
      LookupSkips(t, rest, name, j - 1);
    }
  }

  // Splitting.

  predicate IsName(part: Bytes) {
    part != [] && part != DOT && part != DOT_DOT && forall i :: 0 <= i < |part| ==> part[i] != SLASH
  }

  ghost predicate Components(parts: seq<Bytes>) {
    forall i :: 0 <= i < |parts| ==> parts[i] == DOT_DOT || IsName(parts[i])
  }

  lemma {:induction false} PartsAreComponents(path: Bytes)
    ensures Components(Parts(path))
    decreases |path|
  {
    if path == [] {
    } else if path[0] == SLASH {
      PartsAreComponents(path[1..]);
    } else {
      PartsAreComponents(path[NameLength(path)..]);
    }
  }

  /** Splitting a path that ends in a slash, and something after it, splits the two. */
  lemma {:induction false} PartsAfterSlash(a: Bytes, b: Bytes)
    requires a != [] && a[|a| - 1] == SLASH
    ensures Parts(a + b) == Parts(a) + Parts(b)
    decreases |a|
  {
    hide Parts, NameLength;
    NoParts([]);
    if a[0] == SLASH {
      PartsSkipSlash(a);
      PartsSkipSlash(a + b);
      assert (a + b)[1..] == a[1..] + b;
      if |a| > 1 {
        PartsAfterSlash(a[1..], b);
      } else {
        assert a[1..] == [] && a[1..] + b == b;
      }
    } else {
      var n := NameEnds(a, b);
      var first := if a[..n] == DOT then [] else [a[..n]];
      PartsAfterSlash(a[n..], b);
      assert (first + Parts(a[n..])) + Parts(b) == first + (Parts(a[n..]) + Parts(b));
    }
  }

  lemma PartsSkipSlash(path: Bytes)
    requires path != [] && path[0] == SLASH
    ensures Parts(path) == Parts(path[1..])
  {
  }

  /** The first component of a path that ends in a slash is the same with anything behind it. */
  lemma NameEnds(a: Bytes, b: Bytes) returns (n: nat)
    requires a != [] && a[|a| - 1] == SLASH && a[0] != SLASH
    ensures 0 < n < |a| && a[n..] != [] && a[n..][|a[n..]| - 1] == SLASH
    ensures Parts(a) == (if a[..n] == DOT then [] else [a[..n]]) + Parts(a[n..])
    ensures Parts(a + b) == (if a[..n] == DOT then [] else [a[..n]]) + Parts(a[n..] + b)
  {
    n := NameLength(a);
    NameLengthIs(a + b, n);
    assert (a + b)[..n] == a[..n] && (a + b)[n..] == a[n..] + b;
  }

  lemma NameLengthIs(path: Bytes, n: nat)
    requires n <= |path| && (forall i :: 0 <= i < n ==> path[i] != SLASH) && (n < |path| ==> path[n] == SLASH)
    ensures NameLength(path) == n
  {
  }

  lemma PartsOfName(name: Bytes)
    requires IsName(name)
    ensures Parts(name) == [name] && Parts(name + [SLASH]) == [name]
  {
    NameLengthIs(name, |name|);
    NameLengthIs(name + [SLASH], |name|);
    assert name[..|name|] == name && name[|name|..] == [];
    assert (name + [SLASH])[..|name|] == name && (name + [SLASH])[|name|..] == [SLASH];
    assert Parts([SLASH]) == [];
  }

  lemma NoParts(path: Bytes)
    requires path == []
    ensures Parts(path) == []
  {
  }

  /** A trailing slash adds no component. */
  lemma {:induction false} PartsTrailingSlash(path: Bytes)
    ensures Parts(path + [SLASH]) == Parts(path)
    decreases |path|
  {
    if path == [] {
      assert ([] + [SLASH])[1..] == [];
    } else if path[0] == SLASH {
      PartsTrailingSlash(path[1..]);
      assert (path + [SLASH])[1..] == path[1..] + [SLASH];
    } else {
      var n := NameLength(path);
      NameLengthIs(path + [SLASH], n);
      assert (path + [SLASH])[..n] == path[..n] && (path + [SLASH])[n..] == path[n..] + [SLASH];
      PartsTrailingSlash(path[n..]);
    }
  }

  // What changes of the table do to resolution.

  lemma {:induction false} LookupSame(t: Table, t': Table, list: seq<nat>, name: Bytes)
    requires forall j :: 0 <= j < |list| ==>
               InRange(list[j]) && Live(t', list[j]) == Live(t, list[j]) && t'[list[j]].name == t[list[j]].name
    ensures Lookup(t', list, name) == Lookup(t, list, name)
  {
    if list != [] {
      var rest := list[1..];
      assert forall j :: 0 <= j < |rest| ==> rest[j] == list[j + 1];
      LookupSame(t, t', rest, name);
    }
  }

  predicate SameLinks(a: Inode, b: Inode) {
    a.kind == b.kind && a.parent == b.parent && a.name == b.name
  }

  /** Resolution reads kinds, parents, names and lists, and nothing about blocks. */
  lemma {:induction false} ResolveSame(t: Table, t': Table, kids: map<nat, seq<nat>>, rank: map<nat, nat>,
                                       parts: seq<Bytes>, cur: nat)
    requires Forest(t, kids, rank) && forall i: nat :: InRange(i) ==> SameLinks(t[i], t'[i])
    ensures ResolveParts(t', kids, parts, cur) == ResolveParts(t, kids, parts, cur)
  {
    if parts != [] {
      if cur in kids {
        ChildrenAreLive(t, cur, kids[cur]);
        LookupSame(t, t', kids[cur], parts[0]);
      }
      if ResolvePart(t, kids, parts[0], cur).Ok? {
        ResolveSame(t, t', kids, rank, parts[1..], ResolvePart(t, kids, parts[0], cur).value);
      }
    }
  }

  /** From a free slot no path leads anywhere else. */
  lemma {:induction false} ResolveFromFree(t: Table, kids: map<nat, seq<nat>>, rank: map<nat, nat>, parts: seq<Bytes>,
                                           cur: nat)
    requires Forest(t, kids, rank) && !Live(t, cur) && ResolveParts(t, kids, parts, cur).Ok?
    ensures ResolveParts(t, kids, parts, cur).value == cur
  {
    if parts != [] {
      assert InRange(cur) && SlotOk(t[cur]);
      ResolveFromFree(t, kids, rank, parts[1..], cur);
    }
  }

  // What a new entry does to the paths there are.

  /** The stored name is a component a path can have, and an entry of the directory has it already. */
  predicate Shadows(t: Table, list: seq<nat>, stored: Bytes) {
    IsName(stored) && Lookup(t, list, stored) != 0
  }

  /** Components that resolved before an entry was added still do, unless they can name an entry it shadows. */
  lemma {:induction false} InsertKeepsResolved(t: Table, kids: map<nat, seq<nat>>, rank: map<nat, nat>,
                                               ino: nat, parent: nat, inode: Inode, parts: seq<Bytes>, cur: nat)
    requires Forest(t, kids, rank) && IsDir(t, parent) && parent in kids && InRange(ino) && t[ino].kind == 0
    requires inode.kind != 0 && Components(parts)
    requires cur != ino && ResolveParts(t, kids, parts, cur).Ok?
    requires !Shadows(t, kids[parent], NameSlice(inode.name))
    ensures ResolveParts(Inserted(t, ino, parent, inode), KidsAfterInsert(kids, ino, parent, inode.kind), parts, cur)
              == ResolveParts(t, kids, parts, cur)
  {
    if parts != [] {
      var t', kids' := Inserted(t, ino, parent, inode), KidsAfterInsert(kids, ino, parent, inode.kind);
      var next := ResolvePart(t, kids, parts[0], cur).value;
      assert ParentOk(t, kids, cur) && RankOk(t, rank, cur) && SlotOk(t[cur]);
      if parts[0] != DOT_DOT {
        LookupFinds(t, kids[cur], parts[0]);
        ChildrenAreLive(t, cur, kids[cur]);
        LookupSame(t, t', kids[cur], parts[0]);
        if cur == parent {
          assert kids'[cur] == [ino] + kids[cur];
          assert kids'[cur][1..] == kids[cur];
        }
      }
      assert ResolvePart(t', kids', parts[0], cur) == Ok(next);
      InsertKeepsResolved(t, kids, rank, ino, parent, inode, parts[1..], next);
    }
  }

  /** Every path that led anywhere leads to the same inode. */
  ghost predicate PathsKept(t: Table, kids: map<nat, seq<nat>>, t': Table, kids': map<nat, seq<nat>>, ino: nat) {
    forall path: Bytes, cwd: nat :: cwd != ino && Resolve(t, kids, path, cwd).Ok? ==>
      Resolve(t', kids', path, cwd) == Resolve(t, kids, path, cwd)
  }

  /** A new entry leaves the paths there are alone if and only if its stored name shadows no entry of its directory. */
  lemma PathsKeptIff(t: Table, kids: map<nat, seq<nat>>, rank: map<nat, nat>, ino: nat, parent: nat, inode: Inode)
    requires Forest(t, kids, rank) && IsDir(t, parent) && parent in kids && InRange(ino) && t[ino].kind == 0
    requires ino != ROOT_INODE && inode.kind != 0
    ensures PathsKept(t, kids, Inserted(t, ino, parent, inode), KidsAfterInsert(kids, ino, parent, inode.kind), ino)
            <==> !Shadows(t, kids[parent], NameSlice(inode.name))
  {
    var t', kids' := Inserted(t, ino, parent, inode), KidsAfterInsert(kids, ino, parent, inode.kind);
    var stored := NameSlice(inode.name);
    if Shadows(t, kids[parent], stored) {
      ShadowedPath(t, kids, rank, ino, parent, inode);
    } else {
      forall path: Bytes, cwd: nat | cwd != ino && Resolve(t, kids, path, cwd).Ok?
        ensures Resolve(t', kids', path, cwd) == Resolve(t, kids, path, cwd)
      {
        if path != [] {
          PartsAreComponents(path);
          var start := if path[0] == SLASH then ROOT_INODE else cwd;
          InsertKeepsResolved(t, kids, rank, ino, parent, inode, Parts(path), start);
        }
      }
    }
  }

  /** The shadowed name led to the old entry and leads to the new one. */
  lemma ShadowedPath(t: Table, kids: map<nat, seq<nat>>, rank: map<nat, nat>, ino: nat, parent: nat, inode: Inode)
    requires Forest(t, kids, rank) && IsDir(t, parent) && parent in kids && InRange(ino) && t[ino].kind == 0
    requires inode.kind != 0 && Shadows(t, kids[parent], NameSlice(inode.name))
    ensures var stored := NameSlice(inode.name);
            && Resolve(t, kids, stored, parent).Ok? && Resolve(t, kids, stored, parent).value != ino
            && Resolve(Inserted(t, ino, parent, inode), KidsAfterInsert(kids, ino, parent, inode.kind), stored, parent)
               == Ok(ino)
            && parent != ino
  {
    var t', kids' := Inserted(t, ino, parent, inode), KidsAfterInsert(kids, ino, parent, inode.kind);
    var stored := NameSlice(inode.name);
    PartsOfName(stored);
    LookupFinds(t, kids[parent], stored);
    ChildrenAreLive(t, parent, kids[parent]);
    ResolveOne(t, kids, stored, parent);
    ResolveOne(t', kids', stored, parent);
    assert kids'[parent] == [ino] + kids[parent];
  }

  lemma ResolveOne(t: Table, kids: map<nat, seq<nat>>, name: Bytes, cur: nat)
    requires IsName(name)
    ensures Resolve(t, kids, name, cur) == ResolvePart(t, kids, name, cur)
  {
    PartsOfName(name);
    hide Parts;
    var parts := Parts(name);
    assert parts[0] == name && parts[1..] == [] && name[0] != SLASH;
    match ResolvePart(t, kids, name, cur) {
      case Err(_) =>
      case Ok(next) =>
        assert ResolveParts(t, kids, parts[1..], next) == Ok(next);
    }
  }
}
