/** Runs of file system operations from a formatted disk. */
module FsRuns {
  import opened Prelude
  import opened InodeForest
  import opened BlockMap
  import opened Resolution
  import opened Vfs

  datatype Operation =
    | MkDir(path: Bytes, cwd: nat)
    | TouchFile(path: Bytes, cwd: nat)
    | Unlink(path: Bytes, cwd: nat)
    | WriteAll(path: Bytes, cwd: nat, data: Bytes)

  /** Every live inode reaches the root, and each directory's list holds exactly its live children, once each. */
  ghost predicate TableIsOneTree(t: Table, kids: map<nat, seq<nat>>) {
    && (forall i: nat :: Live(t, i) ==> exists n: nat :: Ancestor(t, i, n) == ROOT_INODE)
    && forall d: nat :: IsDir(t, d) ==> d in kids && ListHolds(t, d, kids[d])
  }

  ghost predicate OneTree(fs: FileSystem)
    reads fs
  {
    TableIsOneTree(fs.table, fs.kids)
  }

  ghost predicate ListHolds(t: Table, d: nat, list: seq<nat>) {
    NoDuplicates(list) && forall i: nat :: i in list <==> Live(t, i) && i != ROOT_INODE && t[i].parent == d
  }

  lemma LinkedIsOneTree(fs: FileSystem)
    requires fs.WellLinked()
    ensures OneTree(fs)
  {
    var t, kids, rank := fs.table, fs.kids, fs.rank;
    forall i: nat | Live(t, i) ensures exists n: nat :: Ancestor(t, i, n) == ROOT_INODE {
      assert RankOk(t, rank, i);
      ReachesRoot(t, kids, rank, i);
    }
    forall d: nat | IsDir(t, d) ensures d in kids && ListHolds(t, d, kids[d]) {
      assert Children(t, d, kids[d]);
      forall i: nat ensures i in kids[d] <==> Live(t, i) && i != ROOT_INODE && t[i].parent == d {
        ListIsExact(t, kids, rank, d, i);
      }
    }
  }

  /** What the file system looked like before an operation, and what the operation answered. */
  datatype Event = Event(table: Table, kids: map<nat, seq<nat>>, bitmap: Bitmap, answer: Result<(), FsError>)

  /** What an operation is to answer, from the file system before it and the bounds of the data area. */
  ghost function AnswerTo(operation: Operation, event: Event, lo: nat, hi: nat): Result<(), FsError> {
    match operation
    case MkDir(path, cwd) => CreateAnswer(event.table, event.kids, path, cwd)
    case TouchFile(path, cwd) => TouchAnswer(event.table, event.kids, path, cwd)
    case Unlink(path, cwd) => RemoveAnswer(event.table, event.kids, path, cwd)
    case WriteAll(path, cwd, data) => WriteAnswer(event.table, event.kids, event.bitmap, path, cwd, |data|, lo, hi)
  }

  /** The one way allocation stops being exact: a write that finds no space for a file that had blocks. */
  ghost predicate LosesSpace(operation: Operation, event: Event) {
    && operation.WriteAll? && event.answer == Err(NoSpace)
    && SpaceLost(event.table, Resolve(event.table, event.kids, operation.path, operation.cwd))
  }

  ghost predicate NoneLosesSpace(operations: seq<Operation>, history: seq<Event>) {
    forall k :: 0 <= k < |history| && k < |operations| ==> !LosesSpace(operations[k], history[k])
  }

  /**
   Any sequence of operations on a fresh file system, errors and exhaustion included. The inodes form one tree and every
   extent lies in the data area throughout; allocation is exact as long as no write has lost the space of a file.
   */
  method Run(fs: FileSystem, operations: seq<Operation>, uid: nat, gid: nat) returns (ghost history: seq<Event>)
    requires fs.inodes.Length == 4097 && fs.Sized() && fs.DataStart() <= fs.totalBlocks <= MAP_BITS
    requires forall i :: 33 <= i <= 4096 ==> SlotOk(fs.inodes[i]) && fs.inodes[i].kind == 0
    modifies fs, fs.inodes, fs.bitmap, fs.disk
    ensures fs.InBounds() && OneTree(fs) && |history| == |operations|
    ensures NoneLosesSpace(operations, history) ==> fs.Valid()
    ensures forall k :: 0 <= k < |history| ==> TableIsOneTree(history[k].table, history[k].kids)
    ensures forall k :: 0 <= k < |history| ==>
              history[k].answer == AnswerTo(operations[k], history[k], fs.DataStart(), fs.totalBlocks)
  {
    hide Exact, Placed, Forest, Resolve, ListHolds, TableIsOneTree, FileSystem.Valid, AnswerTo;
    fs.Format();
    assert fs.Valid();
    fs.ValidIsInBounds();
    history := [];
    for i := 0 to |operations|
      invariant fs.InBounds() && |history| == i
      invariant NoneLosesSpace(operations, history) ==> fs.Valid()
      invariant forall k :: 0 <= k < i ==> TableIsOneTree(history[k].table, history[k].kids)
      invariant forall k :: 0 <= k < i ==>
                  history[k].answer == AnswerTo(operations[k], history[k], fs.DataStart(), fs.totalBlocks)
    {
      LinkedIsOneTree(fs);
      ghost var t, kids, m := fs.table, fs.kids, fs.bitmap[..];
      var answer := Apply(fs, operations[i], uid, gid);
      ghost var event := Event(t, kids, m, answer);
      OneMoreEvent(operations, history, event);
      history := history + [event];
    }
    LinkedIsOneTree(fs);
  }

  lemma OneMoreEvent(operations: seq<Operation>, history: seq<Event>, event: Event)
    requires |history| < |operations|
    ensures NoneLosesSpace(operations, history + [event])
            <==> NoneLosesSpace(operations, history) && !LosesSpace(operations[|history|], event)
  {
    var longer := history + [event];
    if NoneLosesSpace(operations, longer) {
      forall k | 0 <= k < |history| ensures !LosesSpace(operations[k], history[k]) {
        assert longer[k] == history[k];
      }
      assert longer[|history|] == event;
    }
  }

  /** One operation: it keeps the tree and the extents' places, and exactness too unless it loses space. */
  method Apply(fs: FileSystem, operation: Operation, uid: nat, gid: nat) returns (answer: Result<(), FsError>)
    requires fs.InBounds()
    modifies fs`table, fs`kids, fs`rank, fs.inodes, fs.bitmap, fs.disk
    ensures fs.InBounds()
    ensures var event := Event(old(fs.table), old(fs.kids), old(fs.bitmap[..]), answer);
            && answer == AnswerTo(operation, event, fs.DataStart(), fs.totalBlocks)
            && (old(fs.Valid()) ==> (fs.Valid() <==> !LosesSpace(operation, event)))
  {
    hide Exact, Placed, Forest, Resolve, PathsKept;
    match operation {
      case MkDir(path, cwd) =>
        var r, made := fs.MakeDir(path, cwd, uid, gid);
        answer := r;
      case TouchFile(path, cwd) =>
        var r, made := fs.Touch(path, cwd, uid, gid);
        answer := r;
      case Unlink(path, cwd) =>
        answer := fs.Remove(path, cwd);
      case WriteAll(path, cwd, data) =>
        var r, ino := fs.WriteFile(path, cwd, data, uid, gid);
        answer := r;
    }
  }
}
