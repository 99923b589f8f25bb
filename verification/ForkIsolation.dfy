/**
 What a forked child can do to memory, and what its parent can see of it. Every frame the child writes is a copy
 made by the fork or a frame taken off the free list since, unless a system call goes through a kernel slot of the
 child's space: these are shared by all processes, and lead to any frame the kernel maps there.
 */
module ForkIsolation {
  import opened Prelude
  import opened PageTables
  import opened FrameAllocation
  import opened Paging
  import opened PagingRuns
  import opened CloneSpace

  /** A running process: its space, and the frames it has been given. */
  datatype World = World(space: Space, mine: set<Pfn>)

  /** The process's tables, and every page user code can reach through them, lie in its own frames. */
  ghost predicate Confined(w: World) {
    var s := w.space;
    && Sound(s) && Plain(s.m, s.own)
    && s.own.Keys <= w.mine
    && (forall f :: f in w.mine ==> f !in s.free)
    && forall at :: UserPage(s.m, s.root, at) ==> PageIsMine(w, at)
  }

  ghost predicate PageIsMine(w: World, at: Path) {
    Walk(w.space.m, w.space.root, at).Page4K? ==>
      var f := Walk(w.space.m, w.space.root, at).entry.pfn;
      f in w.mine && f !in w.space.own
  }

  /** One thing a process does to memory, in user mode or through a system call. */
  datatype Move =
    | UserStore(at: Path, contents: Frame)     // a store through a page it can write
    | TakeFrame(frame: Pfn)                    // the kernel takes a frame for it
    | FillFrame(frame: Pfn, contents: Frame)   // the kernel fills a frame it was given
    | CopyOut(va: U64, contents: Frame)        // the kernel stores at an address it names
    | Serviced(request: Request)               // mmap, munmap, mprotect: one page table request
    | NewSpace(root: Pfn)                      // exec: an empty space under a fresh root

  ghost predicate Moves(w: World, move: Move, w': World) {
    var s, s' := w.space, w'.space;
    match move
    case UserStore(at, contents) =>
      && UserPage(s.m, s.root, at) && Walk(s.m, s.root, at).entry.flags.write
      && w' == w.(space := s.(m := s.m[Walk(s.m, s.root, at).entry.pfn := contents]))
    case TakeFrame(frame) =>
      frame in s.free && w' == World(s.(free := s.free - {frame}), w.mine + {frame})
    case FillFrame(frame, contents) =>
      && frame in w.mine && frame !in s.own
      && w' == w.(space := s.(m := s.m[frame := contents]))
    case CopyOut(va, contents) =>
      && CopyAllowed(s, va)
      && w' == w.(space := s.(m := s.m[TargetFrame(Walk(s.m, s.root, Indexes(va)), va) := contents]))
    case Serviced(q) =>
      && Admissible(q) && Step(s, q, s')
      && (q.MapPage? ==> var frame: Pfn := q.pa / 4096 % 0x100_0000_0000; frame in w.mine && frame !in s.own)
      && w'.mine == w.mine + (set f: Pfn | f in s.free && f !in s'.free)
    case NewSpace(root) =>
      && root in s.free
      && s'.root == root && s'.own == map[root := N4] && s'.free == s.free - {root} && w'.mine == w.mine + {root}
      && (forall f: Pfn :: f != root ==> s'.m[f] == s.m[f])
      && (forall i: Index :: var e := s'.m[root][i]; e.flags.present && !e.flags.user ==> e == s.m[s.root][i])
      && Shape(s'.m, root, s'.own) && Plain(s'.m, s'.own)
      && forall at :: KernelSlot(s'.m, root, at) || Walk(s'.m, root, at).Absent?
  }

  /** All that `copy_user_out` and `copy_user_zero` ask of an address, and that the store does not fault. */
  predicate CopyAllowed(s: Space, va: U64) {
    va < USER_LIMIT && !Walk(s.m, s.root, Indexes(va)).Absent? && Writable(s.m, s.root, Indexes(va))
  }

  /** Through a kernel slot the move writes something else into frame `f`. */
  ghost predicate HitBy(w: World, move: Move, f: Pfn) {
    match move
    case Serviced(q) => Hits(w.space, q, f)
    case CopyOut(va, contents) =>
      && KernelSlot(w.space.m, w.space.root, Indexes(va)) && !Walk(w.space.m, w.space.root, Indexes(va)).Absent?
      && f == TargetFrame(Walk(w.space.m, w.space.root, Indexes(va)), va) && contents != w.space.m[f]
    case _ => false
  }

  /** None of the tables is hit. */
  ghost predicate Spares(w: World, move: Move, own: map<Pfn, Node>) {
    forall t :: t in own ==> !HitBy(w, move, t)
  }

  /** The process never gets a frame from anywhere but the free list. */
  ghost predicate StaysInside(w: World, w': World) {
    && w.mine <= w'.mine && w'.space.free <= w.space.free
    && forall f: Pfn :: f in w'.mine ==> f in w.mine || f in w.space.free
  }

  /** In a plain tree, outside the kernel slots, every mapped page is a USER page of 4 KiB. */
  lemma PlainPages(m: Memory, root: Pfn, own: map<Pfn, Node>, at: Path)
    requires Shape(m, root, own) && Plain(m, own)
    ensures KernelSlot(m, root, at) || Walk(m, root, at).Absent? || UserPage(m, root, at)
  {
    if !KernelSlot(m, root, at) && !Walk(m, root, at).Absent? {
      PlainPath(m, root, own, at);
    }
  }

  lemma SamePagesStayMine(w: World, w': World)
    requires Confined(w)
    requires w'.space.root == w.space.root && w'.space.own == w.space.own && w.mine <= w'.mine
    requires forall t :: t in w.space.own ==> w'.space.m[t] == w.space.m[t]
    ensures Shape(w'.space.m, w'.space.root, w'.space.own) && Plain(w'.space.m, w'.space.own)
    ensures forall at :: UserPage(w'.space.m, w'.space.root, at) ==> PageIsMine(w', at)
  {
    var s, s' := w.space, w'.space;
    OtherFramesUntouched(s.m, s'.m, s.root, s.own);
    PlainKept(s.m, s'.m, s.own);
    forall at | UserPage(s'.m, s'.root, at) ensures PageIsMine(w', at) {
      RootIsOwned(s.m, s.root, s.own);
      PlainPages(s.m, s.root, s.own, at);
      assert PageIsMine(w, at);
    }
  }

  lemma RequestKeepsMine(w: World, q: Request, w': World, at: Path)
    requires Confined(w) && Moves(w, Serviced(q), w') && TreeStep(w.space, q, w'.space) && !TouchesKernel(w.space, q)
    requires UserPage(w'.space.m, w'.space.root, at)
    ensures PageIsMine(w', at)
  {
    hide Shape, Plain, Step;
    var s, s' := w.space, w'.space;
    PlainPages(s.m, s.root, s.own, at);
    PlainPages(s.m, s.root, s.own, Indexes(q.va));
    if UserPage(s.m, s.root, at) {
      assert PageIsMine(w, at);
    }
  }

  lemma RequestKeepsConfined(w: World, q: Request, w': World)
    requires Confined(w) && Moves(w, Serviced(q), w') && Spares(w, Serviced(q), w.space.own)
    ensures Confined(w') && StaysInside(w, w')
  {
    hide Shape, Plain, UserPage, PageIsMine, Remapped, RootKept, Hits, TouchesKernel;
    RequestSpares(w, q);
    SparedTreeStep(w.space, q, w'.space);
    if TouchesKernel(w.space, q) {
      TablesKeptIff(w.space, q, w'.space, w.space.own);
      SamePagesStayMine(w, w');
    } else {
      forall at | UserPage(w'.space.m, w'.space.root, at) ensures PageIsMine(w', at) {
        RequestKeepsMine(w, q, w', at);
      }
    }
  }

  lemma RequestSpares(w: World, q: Request)
    requires Spares(w, Serviced(q), w.space.own)
    ensures SparesTree(w.space, q)
  {
    hide Hits;
    forall t | t in w.space.own ensures !Hits(w.space, q, t) {
      assert !HitBy(w, Serviced(q), t);
    }
  }

  /** Outside the kernel slots a copy stays within the process's own pages. */
  lemma CopyIsMine(w: World, va: U64)
    requires Confined(w) && CopyAllowed(w.space, va) && !KernelSlot(w.space.m, w.space.root, Indexes(va))
    ensures var f := TargetFrame(Walk(w.space.m, w.space.root, Indexes(va)), va); f in w.mine && f !in w.space.own
  {
    hide Shape, Plain, Indexes, Writable;
    PlainPages(w.space.m, w.space.root, w.space.own, Indexes(va));
    assert PageIsMine(w, Indexes(va));
  }

  /** A move that hits none of its own tables keeps a process confined. */
  lemma MoveKeepsConfined(w: World, move: Move, w': World)
    requires Confined(w) && Moves(w, move, w') && Spares(w, move, w.space.own)
    ensures Confined(w') && StaysInside(w, w')
  {
    match move {
      case UserStore(at, contents) =>
        assert PageIsMine(w, at);
        SamePagesStayMine(w, w');
      case TakeFrame(frame) =>
        SamePagesStayMine(w, w');
      case FillFrame(frame, contents) =>
        SamePagesStayMine(w, w');
      case CopyOut(va, contents) =>
        CopyKeepsTables(w, va, contents, w');
        SamePagesStayMine(w, w');
      case Serviced(q) =>
        RequestKeepsConfined(w, q, w');
      case NewSpace(root) =>
    }
  }

  lemma CopyKeepsTables(w: World, va: U64, contents: Frame, w': World)
    requires Confined(w) && Moves(w, CopyOut(va, contents), w') && Spares(w, CopyOut(va, contents), w.space.own)
    ensures forall t :: t in w.space.own ==> w'.space.m[t] == w.space.m[t]
  {
    hide Shape, Plain, Indexes, Writable, Walk, TargetFrame;
    if !KernelSlot(w.space.m, w.space.root, Indexes(va)) {
      CopyIsMine(w, va);
    }
    forall t | t in w.space.own ensures w'.space.m[t] == w.space.m[t] {
      assert !HitBy(w, CopyOut(va, contents), t);
    }
  }

  /** A move leaves a frame that is not the process's alone if and only if it does not hit it through a kernel slot. */
  lemma MoveKeepsFrameIff(w: World, move: Move, w': World, f: Pfn)
    requires Confined(w) && Moves(w, move, w') && Spares(w, move, w.space.own) && f !in w'.mine
    ensures w'.space.m[f] == w.space.m[f] <==> !HitBy(w, move, f)
  {
    MoveKeepsConfined(w, move, w');
    hide Shape, Plain, Indexes, Writable, Walk, TargetFrame, Step, Hits, TouchesKernel;
    match move {
      case UserStore(at, contents) =>
        assert PageIsMine(w, at);
      case CopyOut(va, contents) =>
        if !KernelSlot(w.space.m, w.space.root, Indexes(va)) {
          CopyIsMine(w, va);
        }
      case Serviced(q) =>
        FrameKeptIff(w.space, q, w'.space, f);
      case _ =>
    }
  }

  // Runs.

  ghost predicate IsLife(life: seq<World>, moves: seq<Move>) {
    && |life| == |moves| + 1
    && forall k :: 0 <= k < |moves| ==> Moves(life[k], moves[k], life[k + 1])
  }

  /** No move hits the process's own tables. */
  ghost predicate LifeSparesItself(life: seq<World>, moves: seq<Move>)
    requires |life| == |moves| + 1
  {
    forall k :: 0 <= k < |moves| ==> Spares(life[k], moves[k], life[k].space.own)
  }

  ghost predicate Unhit(life: seq<World>, moves: seq<Move>, f: Pfn)
    requires |life| == |moves| + 1
  {
    forall k :: 0 <= k < |moves| ==> !HitBy(life[k], moves[k], f)
  }

  /**
   Over its whole life a process that does not hit its own tables writes only its own frames, those it takes off the
   free list, and those it hits.
   */
  lemma {:induction false} LifeStaysInside(life: seq<World>, moves: seq<Move>)
    requires IsLife(life, moves) && Confined(life[0]) && LifeSparesItself(life, moves)
    ensures Confined(life[|moves|]) && StaysInside(life[0], life[|moves|])
    ensures forall f: Pfn :: f !in life[|moves|].mine && Unhit(life, moves, f) ==>
              life[|moves|].space.m[f] == life[0].space.m[f]
  {
    hide Confined, Moves, HitBy, Spares;
    if moves != [] {
      var n := |moves| - 1;
      LifeStaysInside(life[..n + 1], moves[..n]);
      MoveKeepsConfined(life[n], moves[n], life[n + 1]);
      forall f: Pfn | f !in life[n + 1].mine && Unhit(life, moves, f)
        ensures life[n + 1].space.m[f] == life[0].space.m[f] {
        assert Unhit(life[..n + 1], moves[..n], f);
        MoveKeepsFrameIff(life[n], moves[n], life[n + 1], f);
      }
    }
  }

  // What a hit leaves behind.

  /** The frame is only ever hit by `munmap`. */
  ghost predicate OnlyUnmapped(life: seq<World>, moves: seq<Move>, f: Pfn)
    requires |life| == |moves| + 1
  {
    forall k :: 0 <= k < |moves| && HitBy(life[k], moves[k], f) ==> moves[k].Serviced? && moves[k].request.UnmapPage?
  }

  lemma AbsentStays(w: World, move: Move, w': World, f: Pfn, i: Index)
    requires Confined(w) && Moves(w, move, w') && Spares(w, move, w.space.own) && f !in w'.mine
    requires HitBy(w, move, f) ==> move.Serviced? && move.request.UnmapPage?
    requires !w.space.m[f][i].flags.present
    ensures !w'.space.m[f][i].flags.present
  {
    hide Confined, Spares;
    MoveKeepsFrameIff(w, move, w', f);
    if HitBy(w, move, f) {
      var cleared := UnmapClears(w, move.request, w', f);
    }
  }

  /** The word that `munmap` clears through a kernel slot. */
  lemma UnmapClears(w: World, q: Request, w': World, f: Pfn) returns (i: Index)
    requires Moves(w, Serviced(q), w') && q.UnmapPage? && Hits(w.space, q, f)
    ensures w'.space.m[f] == w.space.m[f][i := ZERO] && w.space.m[f][i].flags.present
  {
    hide Indexes, TreeStep;
    i := Indexes(q.va).i1;
    Level1Word(w.space.m, w.space.root, Indexes(q.va));
  }

  /** An entry that is gone stays gone. */
  lemma {:induction false} AbsentToTheEnd(life: seq<World>, moves: seq<Move>, f: Pfn, i: Index)
    requires IsLife(life, moves) && Confined(life[0]) && LifeSparesItself(life, moves) && OnlyUnmapped(life, moves, f)
    requires f !in life[|moves|].mine && !life[0].space.m[f][i].flags.present
    ensures !life[|moves|].space.m[f][i].flags.present
  {
    hide Confined, Moves, Spares, HitBy;
    if moves != [] {
      var n := |moves| - 1;
      LifeStaysInside(life[..n + 1], moves[..n]);
      MoveKeepsConfined(life[n], moves[n], life[n + 1]);
      AbsentToTheEnd(life[..n + 1], moves[..n], f, i);
      AbsentStays(life[n], moves[n], life[n + 1], f, i);
    }
  }

  /** A frame of somebody else's that is only ever hit by `munmap` stays as it was if and only if it is never hit. */
  lemma LifeKeepsFrameIff(life: seq<World>, moves: seq<Move>, f: Pfn)
    requires IsLife(life, moves) && Confined(life[0]) && LifeSparesItself(life, moves) && OnlyUnmapped(life, moves, f)
    requires f !in life[|moves|].mine
    ensures life[|moves|].space.m[f] == life[0].space.m[f] <==> Unhit(life, moves, f)
  {
    hide Confined, Moves, Spares, HitBy;
    LifeStaysInside(life, moves);
    if !Unhit(life, moves, f) {
      var k :| 0 <= k < |moves| && HitBy(life[k], moves[k], f);
      UnmapShows(life, moves, k, f);
    }
  }

  lemma UnmapShows(life: seq<World>, moves: seq<Move>, k: nat, f: Pfn)
    requires IsLife(life, moves) && Confined(life[0]) && LifeSparesItself(life, moves) && OnlyUnmapped(life, moves, f)
    requires f !in life[|moves|].mine && k < |moves| && HitBy(life[k], moves[k], f)
    ensures life[|moves|].space.m[f] != life[0].space.m[f]
  {
    hide Confined, Moves, Spares, Hits;
    var before, after, rest := life[..k + 1], life[k + 1..], moves[k + 1..];
    LifeStaysInside(before, moves[..k]);
    MoveKeepsConfined(life[k], moves[k], life[k + 1]);
    LifeStaysInside(after, rest);
    assert after[|rest|] == life[|moves|];
    var i := UnmapClears(life[k], moves[k].request, life[k + 1], f);
    AbsentToTheEnd(after, rest, f, i);
    if !life[0].space.m[f][i].flags.present {
      AbsentToTheEnd(before, moves[..k], f, i);
    }
  }

  /**
   A system call that stores at a lower-half address in a kernel slot writes the frame mapped there, whoever it
   belongs to.
   */
  lemma CopyReaches(w: World, va: U64, contents: Frame) returns (w': World)
    requires CopyAllowed(w.space, va) && KernelSlot(w.space.m, w.space.root, Indexes(va))
    ensures var f := TargetFrame(Walk(w.space.m, w.space.root, Indexes(va)), va);
            && Moves(w, CopyOut(va, contents), w') && w'.space.m[f] == contents
            && (HitBy(w, CopyOut(va, contents), f) <==> contents != w.space.m[f])
  {
    hide Indexes, Walk, TargetFrame;
    var s := w.space;
    w' := w.(space := s.(m := s.m[TargetFrame(Walk(s.m, s.root, Indexes(va)), va) := contents]));
  }

  // The fork.

  /** A space that can be forked: a plain tree, and nothing it uses is free. */
  ghost predicate Forkable(m: Memory, root: Pfn, own: map<Pfn, Node>, free: set<nat>) {
    Shape(m, root, own) && Plain(m, own) && Undisturbed(m, root, free) && own.Keys !! free
  }

  /** A space as the boot loader leaves it, with nothing but its recursive entry, can be forked. */
  lemma BootSpaceIsForkable(m: Memory, root: Pfn, r: Index, free: set<nat>)
    requires Recursive(m, root, r, root) && root !in free && forall i: Index :: i != r ==> !m[root][i].flags.present
    ensures Forkable(m, root, map[root := N4], free)
  {
    forall at ensures WalkAvoids(m, root, at, free) {
    }
  }

  /** What the fork's copy promises. */
  ghost predicate Forked(m0: Memory, m1: Memory, parent: Pfn, child: Pfn, copies: map<Pfn, Copy>, free0: set<nat>,
                         free1: set<nat>) {
    && free1 <= free0 && WroteFree(m0, m1, free0, free1)
    && (forall t :: t in copies ==> t in free0 && t !in free1)
    && DeepCopy(m0, m1, parent, child, copies)
    && forall at :: SameSpace(m0, m1, parent, child, copies, at)
  }

  ghost function ChildWorld(m: Memory, child: Pfn, copies: map<Pfn, Copy>, free: set<nat>): World {
    World(Space(m, child, ChildTree(m, child, copies), free), copies.Keys)
  }

  /** The child of a fork starts out confined to the frames of the copy. */
  lemma ChildIsConfined(m0: Memory, m: Memory, parent: Pfn, child: Pfn, own: map<Pfn, Node>, copies: map<Pfn, Copy>,
                        free0: set<nat>, free: set<nat>)
    requires Forkable(m0, parent, own, free0) && Forked(m0, m, parent, child, copies, free0, free)
    ensures Confined(ChildWorld(m, child, copies, free))
  {
    hide Undisturbed, WroteFree;
    ChildHasShape(m0, m, parent, child, own, copies);
    var w := ChildWorld(m, child, copies, free);
    forall at | UserPage(m, child, at) ensures PageIsMine(w, at) {
      assert SameSpace(m0, m, parent, child, copies, at);
      PlainPages(m0, parent, own, at);
      var f := Walk(m, child, at).entry.pfn;
      if f in w.space.own {
        TablesCorrespond(m0, m, parent, child, own, copies, copies[f].node);
        TableAtIsAbove(m, child, copies[f].node);
      }
    }
  }

  lemma TableAtIsAbove(m: Memory, root: Pfn, n: Node)
    requires n.N0?
    ensures TableAt(m, root, n).None?
  {
    assert Up(n).N1?;
  }

  /** The parent finds a page as it was: the same translation and the same bytes. */
  ghost predicate PageKept(m0: Memory, m2: Memory, root: Pfn, at: Path) {
    && KernelSlot(m2, root, at) == KernelSlot(m0, root, at)
    && (!KernelSlot(m0, root, at) ==> Walk(m2, root, at) == Walk(m0, root, at))
    && (UserPage(m0, root, at) ==>
          UserPage(m2, root, at) && m2[Walk(m0, root, at).entry.pfn] == m0[Walk(m0, root, at).entry.pfn])
  }

  /** No move hits a table or a user page of the parent. */
  ghost predicate SparesParent(life: seq<World>, moves: seq<Move>, m0: Memory, parent: Pfn, own: map<Pfn, Node>)
    requires |life| == |moves| + 1
  {
    && (forall t :: t in own ==> Unhit(life, moves, t))
    && forall at :: UserPage(m0, parent, at) ==> Unhit(life, moves, Walk(m0, parent, at).entry.pfn)
  }

  /**
   Whatever the child of a fork does until it exits, as long as it does not hit its own tables, every frame that was
   not free is as before the fork unless the child has hit it; and if it has hit none of the parent's, the parent
   finds all its tables, and every translation and every byte of every page of its own, as they were.
   */
  lemma ForkIsInvisible(m0: Memory, m1: Memory, parent: Pfn, child: Pfn, own: map<Pfn, Node>, copies: map<Pfn, Copy>,
                        free0: set<nat>, free1: set<nat>, life: seq<World>, moves: seq<Move>)
    requires Forkable(m0, parent, own, free0) && Forked(m0, m1, parent, child, copies, free0, free1)
    requires IsLife(life, moves) && life[0] == ChildWorld(m1, child, copies, free1) && LifeSparesItself(life, moves)
    ensures var m2 := life[|moves|].space.m;
            && (forall f: Pfn :: f !in free0 && Unhit(life, moves, f) ==> m2[f] == m0[f])
            && (SparesParent(life, moves, m0, parent, own) ==>
                  Shape(m2, parent, own) && Plain(m2, own) && forall at :: PageKept(m0, m2, parent, at))
  {
    hide Shape, Plain, Moves, DeepCopy, SameSpace, Undisturbed, UserPage, Confined, PageKept, LifeSparesItself, Unhit;
    ChildIsConfined(m0, m1, parent, child, own, copies, free0, free1);
    LifeStaysInside(life, moves);
    var m2 := life[|moves|].space.m;
    forall f: Pfn | f !in free0 && Unhit(life, moves, f) ensures m2[f] == m0[f] {
      assert f !in life[0].mine && f !in life[|moves|].mine;
    }
    if SparesParent(life, moves, m0, parent, own) {
      ParentKept(m0, m2, parent, own, free0, life, moves);
    }
  }

  lemma ParentKept(m0: Memory, m2: Memory, parent: Pfn, own: map<Pfn, Node>, free0: set<nat>, life: seq<World>,
                   moves: seq<Move>)
    requires Forkable(m0, parent, own, free0) && |life| == |moves| + 1 && SparesParent(life, moves, m0, parent, own)
    requires forall f: Pfn :: f !in free0 && Unhit(life, moves, f) ==> m2[f] == m0[f]
    ensures Shape(m2, parent, own) && Plain(m2, own)
    ensures forall at :: PageKept(m0, m2, parent, at)
  {
    hide UserPage, Shape, Plain, Unhit;
    RootIsOwned(m0, parent, own);
    OtherFramesUntouched(m0, m2, parent, own);
    PlainKept(m0, m2, own);
    forall at ensures PageKept(m0, m2, parent, at) {
      assert WalkAvoids(m0, parent, at, free0);
      UserPagesAreKept(m0, m2, parent, own, at);
      UserPageFrame(m0, parent, at, free0);
      if UserPage(m0, parent, at) {
        UserPageIs4K(m0, parent, at);
      }
    }
  }

  lemma UserPageFrame(m: Memory, root: Pfn, at: Path, free: set<nat>)
    requires WalkAvoids(m, root, at, free)
    ensures UserPage(m, root, at) ==> Walk(m, root, at).entry.pfn !in free
  {
  }

  lemma UserPagesAreKept(m: Memory, m': Memory, root: Pfn, own: map<Pfn, Node>, at: Path)
    requires Shape(m, root, own) && forall t :: t in own ==> m'[t] == m[t]
    ensures UserPage(m, root, at) ==> UserPage(m', root, at)
  {
    if UserPage(m, root, at) {
      WalkStaysInTree(m, root, own, at);
    }
  }

  /**
   With the recursive entry the boot loader sets up, a child can take whole stretches of the parent's space away: right
   after the fork it can unmap the page at r, r, r, j, and the parent has nothing left below its level-4 entry j.
   */
  lemma ChildUnhooksParent(m0: Memory, m1: Memory, parent: Pfn, child: Pfn, own: map<Pfn, Node>, copies: map<Pfn, Copy>,
                           free0: set<nat>, free1: set<nat>, r: Index, j: Index)
    returns (va: U64, w': World)
    requires Forkable(m0, parent, own, free0) && Forked(m0, m1, parent, child, copies, free0, free1)
    requires Recursive(m0, parent, r, parent) && m0[parent][j].flags.present
    ensures Moves(ChildWorld(m1, child, copies, free1), Serviced(UnmapPage(va)), w')
    ensures HitBy(ChildWorld(m1, child, copies, free1), Serviced(UnmapPage(va)), parent)
    ensures Spares(ChildWorld(m1, child, copies, free1), Serviced(UnmapPage(va)), ChildTree(m1, child, copies))
    ensures forall at: Path :: at.i4 == j ==> Walk(w'.space.m, parent, at).Absent?
  {
    hide Shape, Plain, Undisturbed, SameSpace, Step, Hits, Walk, TreeStep, Indexes;
    var w := ChildWorld(m1, child, copies, free1);
    ChildKeepsEntry(m0, m1, parent, child, own, copies, free0, free1, r);
    va := AddressOfPath(Path(r, r, r, j));
    RecursiveStep(w.space, va, r, parent, j);
    var s' := w.space.(m := Store(m1, parent, j, ZERO));
    w' := World(s', w.mine);
    RecursiveUnmap(w.space, s', r, parent, j, va);
    assert w'.mine == w.mine + (set f: Pfn | f in w.space.free && f !in s'.free);
    forall t | t in w.space.own ensures !HitBy(w, Serviced(UnmapPage(va)), t) {
      HitsOneFrame(w.space, UnmapPage(va), parent, t);
    }
  }

  lemma HitsOneFrame(s: Space, q: Request, f: Pfn, g: Pfn)
    requires Hits(s, q, f)
    ensures Hits(s, q, g) ==> g == f
  {
  }

  lemma RecursiveStep(s: Space, va: U64, r: Index, parent: Pfn, j: Index)
    requires Recursive(s.m, s.root, r, parent) && s.m[parent][j].flags.present
    requires Canonical(va) && va % 4096 == 0 && Indexes(va) == Path(r, r, r, j)
    ensures Step(s, UnmapPage(va), s.(m := Store(s.m, parent, j, ZERO)))
  {
    hide Indexes, TreeStep;
    assert Walk(s.m, s.root, Path(r, r, r, j)) == Page4K(s.m[parent][j]);
  }

  lemma ChildKeepsEntry(m0: Memory, m1: Memory, parent: Pfn, child: Pfn, own: map<Pfn, Node>, copies: map<Pfn, Copy>,
                        free0: set<nat>, free1: set<nat>, r: Index)
    requires Forkable(m0, parent, own, free0) && Forked(m0, m1, parent, child, copies, free0, free1)
    requires Recursive(m0, parent, r, parent)
    ensures Recursive(m1, child, r, parent) && m1[parent] == m0[parent] && parent !in copies
  {
    hide Undisturbed, Plain, SameSpace;
    assert Complete(m0, m1, copies, child);
    assert SlotCopied(m0, m1, copies, N4, parent, child, r);
  }
}
