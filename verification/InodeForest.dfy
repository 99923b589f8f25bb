/** The inode table of VIBUXFS as linked sibling lists, and the forest they must form (kernel/src/storage/vfs.rs). */
module InodeForest {
  import opened Prelude

  type Bytes = seq<Byte>

  const INODE_COUNT: nat := 4096
  const ROOT_INODE: nat := 1

  datatype Inode = Inode(
    kind: nat, mode: nat, uid: nat, gid: nat, parent: nat, firstChild: nat, nextSibling: nat,
    size: nat, startBlock: nat, blockCount: nat, generation: nat, name: Bytes)

  const NO_NAME: Bytes := seq(56, i => 0)
  const FREE_INODE := Inode(0, 0, 0, 0, 0, 0, 0, 0, 0, 0, 0, NO_NAME)

  /** The inode table; slot 0 is not on disk and never read. */
  type Table = t: seq<Inode> | |t| == 4097 ghost witness seq(4097, i => FREE_INODE)

  predicate InRange(ino: nat) {
    1 <= ino <= 4096
  }

  predicate Live(t: Table, ino: nat) {
    InRange(ino) && t[ino].kind != 0
  }

  predicate IsDir(t: Table, ino: nat) {
    InRange(ino) && t[ino].kind == 2
  }

  predicate Unlinked(inode: Inode) {
    inode.parent == 0 && inode.firstChild == 0 && inode.nextSibling == 0 && inode.blockCount == 0
  }

  /** The name field up to its first zero byte. */
  function NameSlice(name: Bytes): Bytes {
    if name == [] || name[0] == 0 then [] else [name[0]] + NameSlice(name[1..])
  }

  /** The name field of a new inode: cut to 56 bytes and padded with zeros. */
  function NameField(name: Bytes): (field: Bytes)
    ensures |field| == 56
  {
    if |name| >= 56 then name[..56] else name + seq(56 - |name|, i => 0)
  }

  /** The sibling list after position `j`: the number of the next inode, or 0. */
  function Next(list: seq<nat>, j: nat): nat {
    if j < |list| then list[j] else 0
  }

  /** Entry `j` of a directory's list: a live inode of that directory, linked to the entry after it. */
  ghost predicate ListEntry(t: Table, d: nat, list: seq<nat>, j: nat) {
    j < |list| ==>
      && Live(t, list[j]) && list[j] != ROOT_INODE
      && t[list[j]].parent == d && t[list[j]].nextSibling == Next(list, j + 1)
  }

  /** `list` is what following firstChild and then nextSibling visits, once each. */
  ghost predicate Children(t: Table, d: nat, list: seq<nat>) {
    && InRange(d) && t[d].firstChild == Next(list, 0)
    && (forall j: nat :: ListEntry(t, d, list, j))
    && NoDuplicates(list)
  }

  /** Free slots are linked nowhere and files have no children. */
  ghost predicate SlotsOk(t: Table) {
    forall i: nat :: InRange(i) ==> SlotOk(t[i])
  }

  predicate SlotOk(inode: Inode) {
    && inode.kind <= 2 && |inode.name| == 56
    && (inode.kind == 0 ==> Unlinked(inode))
    && (inode.kind == 1 ==> inode.firstChild == 0)
  }

  ghost predicate ListsOk(t: Table, kids: map<nat, seq<nat>>) {
    && (forall d :: d in kids <==> IsDir(t, d))
    && (forall d :: d in kids ==> Children(t, d, kids[d]))
  }

  ghost predicate ParentOk(t: Table, kids: map<nat, seq<nat>>, i: nat) {
    Live(t, i) && i != ROOT_INODE ==> t[i].parent in kids && i in kids[t[i].parent]
  }

  ghost predicate ParentsOk(t: Table, kids: map<nat, seq<nat>>) {
    forall i: nat :: ParentOk(t, kids, i)
  }

  ghost predicate RankOk(t: Table, rank: map<nat, nat>, i: nat) {
    Live(t, i) ==>
      && i in rank
      && (i != ROOT_INODE ==> Live(t, t[i].parent) && t[i].parent in rank && rank[t[i].parent] < rank[i])
  }

  ghost predicate RanksOk(t: Table, rank: map<nat, nat>) {
    forall i: nat :: RankOk(t, rank, i)
  }

  /**
   The live inodes form one tree under the root: every directory's sibling list ends and holds exactly
   the live inodes whose parent it is, once each, and ranks fall along parent pointers down to the root.
   */
  ghost predicate Forest(t: Table, kids: map<nat, seq<nat>>, rank: map<nat, nat>) {
    && IsDir(t, ROOT_INODE) && t[ROOT_INODE].parent == 0
    && SlotsOk(t) && ListsOk(t, kids) && ParentsOk(t, kids) && RanksOk(t, rank)
  }

  /** Following parent pointers `n` times. */
  function Ancestor(t: Table, i: nat, n: nat): nat
    decreases n
  {
    if n == 0 || !InRange(i) then i else Ancestor(t, t[i].parent, n - 1)
  }

  /** Every live inode reaches the root. */
  lemma {:induction false} ReachesRoot(t: Table, kids: map<nat, seq<nat>>, rank: map<nat, nat>, i: nat)
    requires Forest(t, kids, rank) && Live(t, i) && i in rank
    ensures exists n: nat :: Ancestor(t, i, n) == ROOT_INODE
    decreases rank[i]
  {
    if i == ROOT_INODE {
      assert Ancestor(t, i, 0) == ROOT_INODE;
    } else {
      assert RankOk(t, rank, i);
      ReachesRoot(t, kids, rank, t[i].parent);
      var n: nat :| Ancestor(t, t[i].parent, n) == ROOT_INODE;
      assert Ancestor(t, i, n + 1) == ROOT_INODE;
    }
  }

  /** The list of a directory holds exactly the live inodes that name it as parent. */
  lemma ListIsExact(t: Table, kids: map<nat, seq<nat>>, rank: map<nat, nat>, d: nat, i: nat)
    requires Forest(t, kids, rank) && d in kids
    ensures i in kids[d] <==> Live(t, i) && i != ROOT_INODE && t[i].parent == d
  {
    if i in kids[d] {
      var j: nat :| j < |kids[d]| && kids[d][j] == i;
      assert ListEntry(t, d, kids[d], j);
    }
    assert ParentOk(t, kids, i);
  }

  // Adding and removing one inode.

  /** The table after a new inode is put at the head of a directory's list. */
  function Inserted(t: Table, ino: nat, parent: nat, inode: Inode): Table
    requires InRange(ino) && InRange(parent)
  {
    t[ino := inode][parent := t[parent].(firstChild := ino)]
  }

  function KidsAfterInsert(kids: map<nat, seq<nat>>, ino: nat, parent: nat, kind: nat): map<nat, seq<nat>>
    requires parent in kids
  {
    var grown := kids[parent := [ino] + kids[parent]];
    if kind == 2 then grown[ino := []] else grown
  }

  /** A list none of whose entries is rewritten stays the list of its directory. */
  lemma ChildrenKept(t: Table, t': Table, d: nat, list: seq<nat>)
    requires Children(t, d, list) && t'[d].firstChild == t[d].firstChild
    requires forall j :: 0 <= j < |list| ==>
      InRange(list[j]) && t'[list[j]].kind == t[list[j]].kind && t'[list[j]].parent == t[list[j]].parent
      && t'[list[j]].nextSibling == t[list[j]].nextSibling
    ensures Children(t', d, list)
  {
    forall j: nat ensures ListEntry(t', d, list, j) {
      assert ListEntry(t, d, list, j);
    }
  }

  lemma ChildrenAreLive(t: Table, d: nat, list: seq<nat>)
    requires Children(t, d, list)
    ensures forall j :: 0 <= j < |list| ==> Live(t, list[j]) && list[j] != ROOT_INODE && t[list[j]].parent == d
  {
    forall j | 0 <= j < |list| ensures Live(t, list[j]) && list[j] != ROOT_INODE && t[list[j]].parent == d {
      assert ListEntry(t, d, list, j);
    }
  }

  /** The new inode heads its directory's list, before the entries that were there. */
  lemma InsertedAtHead(t: Table, list: seq<nat>, ino: nat, parent: nat, inode: Inode)
    requires Children(t, parent, list) && Live(t, parent) && InRange(ino) && t[ino].kind == 0 && ino != ROOT_INODE
    requires inode.kind != 0 && inode.parent == parent && inode.nextSibling == t[parent].firstChild
    ensures Children(Inserted(t, ino, parent, inode), parent, [ino] + list)
  {
    var t', grown := Inserted(t, ino, parent, inode), [ino] + list;
    ChildrenAreLive(t, parent, list);
    forall j: nat ensures ListEntry(t', parent, grown, j) {
      if 0 < j < |grown| {
        assert ListEntry(t, parent, list, j - 1);
        assert grown[j] == list[j - 1];
      }
    }
  }

  lemma InsertKeepsForest(t: Table, kids: map<nat, seq<nat>>, rank: map<nat, nat>, ino: nat, parent: nat, inode: Inode)
    requires Forest(t, kids, rank) && IsDir(t, parent) && parent in rank && InRange(ino) && t[ino].kind == 0
    requires (inode.kind == 1 || inode.kind == 2) && inode.parent == parent
    requires inode.firstChild == 0 && inode.nextSibling == t[parent].firstChild && |inode.name| == 56
    ensures Forest(Inserted(t, ino, parent, inode), KidsAfterInsert(kids, ino, parent, inode.kind),
                   rank[ino := rank[parent] + 1])
  {
    var t' := Inserted(t, ino, parent, inode);
    var kids', rank' := KidsAfterInsert(kids, ino, parent, inode.kind), rank[ino := rank[parent] + 1];
    forall d | d in kids' ensures Children(t', d, kids'[d]) {
      if d == parent {
        InsertedAtHead(t, kids[d], ino, parent, inode);
      } else if d in kids {
        ChildrenAreLive(t, d, kids[d]);
        ChildrenKept(t, t', d, kids[d]);
      } else {
        forall j: nat ensures ListEntry(t', d, [], j) {
        }
      }
    }
    forall i: nat ensures ParentOk(t', kids', i) && RankOk(t', rank', i) {
      assert ParentOk(t, kids, i) && RankOk(t, rank, i);
    }
  }

  /** The table after `unlink_child` takes entry `j` out of a directory's list and the inode is zeroed. */
  function UnlinkedAt(t: Table, parent: nat, list: seq<nat>, j: nat): Table
    requires InRange(parent) && j < |list| && InRange(list[j]) && (j > 0 ==> InRange(list[j - 1]))
  {
    if j == 0 then t[parent := t[parent].(firstChild := t[list[j]].nextSibling)]
    else t[list[j - 1] := t[list[j - 1]].(nextSibling := t[list[j]].nextSibling)]
  }

  function WithoutEntry(list: seq<nat>, j: nat): seq<nat>
    requires j < |list|
  {
    list[..j] + list[j + 1..]
  }

  function KidsAfterRemove(kids: map<nat, seq<nat>>, parent: nat, j: nat): map<nat, seq<nat>>
    requires parent in kids && j < |kids[parent]|
  {
    kids[parent := WithoutEntry(kids[parent], j)] - {kids[parent][j]}
  }

  /** Taking an entry out leaves the other entries linked in the same order. */
  lemma RemovedFromList(t: Table, parent: nat, list: seq<nat>, j: nat, free: Inode)
    requires Children(t, parent, list) && Live(t, parent) && j < |list| && parent != list[j]
    requires parent !in list && InRange(list[j]) && (j > 0 ==> InRange(list[j - 1]))
    ensures Children(UnlinkedAt(t, parent, list, j)[list[j] := free], parent, WithoutEntry(list, j))
  {
    var t', rest := UnlinkedAt(t, parent, list, j)[list[j] := free], WithoutEntry(list, j);
    assert ListEntry(t, parent, list, j);
    forall k: nat ensures ListEntry(t', parent, rest, k) {
      if k < |rest| {
        var from := if k < j then k else k + 1;
        assert rest[k] == list[from];
        assert ListEntry(t, parent, list, from);
        assert k + 1 < |rest| ==> rest[k + 1] == list[if k + 1 < j then k + 1 else k + 2];
      }
    }
  }

  /** No directory is its own child. */
  lemma NotOwnChild(t: Table, rank: map<nat, nat>, d: nat, list: seq<nat>)
    requires RanksOk(t, rank) && Children(t, d, list)
    ensures d !in list
  {
    ChildrenAreLive(t, d, list);
    assert RankOk(t, rank, d);
  }

  lemma RemoveKeepsLists(t: Table, kids: map<nat, seq<nat>>, rank: map<nat, nat>, parent: nat, j: nat)
    requires ListsOk(t, kids) && RanksOk(t, rank) && parent in kids && j < |kids[parent]|
    requires InRange(parent) && InRange(kids[parent][j]) && (j > 0 ==> InRange(kids[parent][j - 1]))
    ensures ListsOk(UnlinkedAt(t, parent, kids[parent], j)[kids[parent][j] := FREE_INODE],
                    KidsAfterRemove(kids, parent, j))
  {
    var list := kids[parent];
    var ino := list[j];
    var t' := UnlinkedAt(t, parent, list, j)[ino := FREE_INODE];
    var kids' := KidsAfterRemove(kids, parent, j);
    ChildrenAreLive(t, parent, list);
    NotOwnChild(t, rank, parent, list);
    forall d | d in kids' ensures Children(t', d, kids'[d]) {
      if d == parent {
        RemovedFromList(t, parent, list, j, FREE_INODE);
      } else {
        ChildrenAreLive(t, d, kids[d]);
        ChildrenKept(t, t', d, kids[d]);
      }
    }
  }

  lemma RemoveKeepsParent(t: Table, kids: map<nat, seq<nat>>, rank: map<nat, nat>, parent: nat, j: nat, i: nat)
    requires Forest(t, kids, rank) && parent in kids && j < |kids[parent]|
    requires InRange(parent) && InRange(kids[parent][j]) && (j > 0 ==> InRange(kids[parent][j - 1]))
    requires t[kids[parent][j]].firstChild == 0
    ensures var t' := UnlinkedAt(t, parent, kids[parent], j)[kids[parent][j] := FREE_INODE];
            ParentOk(t', KidsAfterRemove(kids, parent, j), i) && RankOk(t', rank, i)
  {
    var list := kids[parent];
    var ino := list[j];
    assert ListEntry(t, parent, list, j);
    assert ParentOk(t, kids, i) && RankOk(t, rank, i);
    NobodyBelow(t, kids, rank, ino);
    if i in list && i != ino {
      var k: nat :| k < |list| && list[k] == i;
      assert WithoutEntry(list, j)[if k < j then k else k - 1] == i;
    }
  }

  lemma RemoveKeepsForest(t: Table, kids: map<nat, seq<nat>>, rank: map<nat, nat>, parent: nat, j: nat)
    requires Forest(t, kids, rank) && parent in kids && j < |kids[parent]|
    requires InRange(parent) && InRange(kids[parent][j]) && (j > 0 ==> InRange(kids[parent][j - 1]))
    requires t[kids[parent][j]].firstChild == 0
    ensures Forest(UnlinkedAt(t, parent, kids[parent], j)[kids[parent][j] := FREE_INODE],
                   KidsAfterRemove(kids, parent, j), rank)
  {
    var t' := UnlinkedAt(t, parent, kids[parent], j)[kids[parent][j] := FREE_INODE];
    var kids' := KidsAfterRemove(kids, parent, j);
    RemoveKeepsLists(t, kids, rank, parent, j);
    assert ListEntry(t, parent, kids[parent], j);
    forall i: nat ensures ParentOk(t', kids', i) && RankOk(t', rank, i) {
      RemoveKeepsParent(t, kids, rank, parent, j, i);
    }
    ChildrenAreLive(t, parent, kids[parent]);
    assert IsDir(t', ROOT_INODE) && t'[ROOT_INODE].parent == 0;
  }

  /** An inode without a first child is nobody's parent. */
  lemma NobodyBelow(t: Table, kids: map<nat, seq<nat>>, rank: map<nat, nat>, ino: nat)
    requires Forest(t, kids, rank) && Live(t, ino) && t[ino].firstChild == 0
    ensures forall i: nat :: Live(t, i) && i != ROOT_INODE ==> t[i].parent != ino
  {
    if ino in kids {
      assert ListEntry(t, ino, kids[ino], 0);
    }
    forall i: nat | Live(t, i) && i != ROOT_INODE ensures t[i].parent != ino {
      assert ParentOk(t, kids, i);
    }
  }
}
