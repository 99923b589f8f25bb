/** `clone_user_address_space` and `create_empty_user_address_space`: what fork and exec start from. */
module CloneSpace {
  import opened Prelude
  import opened PageTables
  import opened FrameAllocation
  import opened Paging

  /** A frame of the child: its place in the child's tree and the frame of the parent it was made from. */
  datatype Copy = Copy(node: Node, source: Pfn)

  /** A present entry that the child takes over as it is. */
  predicate Shared(n: Node, e: Word) {
    match n
    case N3(_) => e.flags.huge || !e.flags.user
    case N2(_, _) => e.flags.huge || !e.flags.user
    case _ => !e.flags.user
  }

  function Level(n: Node): nat {
    match n
    case N4 => 4
    case N3(_) => 3
    case N2(_, _) => 2
    case N1(_, _, _) => 1
    case N0(_) => 0
  }

  /** Nothing that the copy reads below table or page `t` lies in `writable`. */
  ghost predicate Readable(m: Memory, n: Node, t: Pfn, writable: set<nat>)
    decreases Level(n)
  {
    && t !in writable
    && (Level(n) > 0 ==>
          forall i: Index :: m[t][i].flags.present && !Shared(n, m[t][i]) ==>
              Readable(m, Sub(n, i), m[t][i].pfn, writable))
  }

  /** Slot `i` of child table `t` holds what the copy makes of slot `i` of parent table `source`. */
  ghost predicate SlotCopied(m0: Memory, m: Memory, copies: map<Pfn, Copy>, n: Node, source: Pfn, t: Pfn, i: Index) {
    var e, w := m0[source][i], m[t][i];
    if !e.flags.present then w == ZERO
    else if Shared(n, e) then w == e
    else
      && w.flags == e.flags
      && w.pfn in copies && copies[w.pfn] == Copy(Sub(n, i), e.pfn)
      && (n.N1? ==> m[w.pfn] == m0[e.pfn])
  }

  ghost predicate Complete(m0: Memory, m: Memory, copies: map<Pfn, Copy>, t: Pfn) {
    t in copies && (Level(copies[t].node) > 0 ==>
      forall i: Index :: SlotCopied(m0, m, copies, copies[t].node, copies[t].source, t, i))
  }

  /** Only `writable` frames have changed since `m0`; those are the child's copies and the free frames. */
  ghost predicate Context(m0: Memory, m: Memory, writable: set<nat>, copies: map<Pfn, Copy>, free: set<nat>) {
    && (forall f: Pfn :: f !in writable ==> m[f] == m0[f])
    && free <= writable
    && (forall f :: f in copies ==> f in writable && f !in free)
  }

  /** Copies are only added, and only in frames taken off the free list. */
  ghost predicate Extends(copies: map<Pfn, Copy>, copies': map<Pfn, Copy>, free: set<nat>, free': set<nat>) {
    && free' <= free
    && (forall t :: t in copies ==> t in copies' && copies'[t] == copies[t])
    && (forall t :: t in copies' && t !in copies ==> t in free && t !in free')
  }

  /** Between `m` and `m'` only `dst` and frames taken off the free list were written. */
  ghost predicate WroteOnly(m: Memory, m': Memory, dst: Pfn, free: set<nat>, free': set<nat>) {
    forall f: Pfn :: f != dst && (f !in free || f in free') ==> m'[f] == m[f]
  }

  ghost predicate WroteFree(m: Memory, m': Memory, free: set<nat>, free': set<nat>) {
    forall f: Pfn :: f !in free || f in free' ==> m'[f] == m[f]
  }

  ghost predicate NewComplete(m0: Memory, m: Memory, copies: map<Pfn, Copy>, copies': map<Pfn, Copy>) {
    forall t :: t in copies' && t !in copies ==> Complete(m0, m, copies', t)
  }

  /** A table under construction: its first `done` slots are copied, the others still empty. */
  ghost predicate Partial(m0: Memory, m: Memory, copies: map<Pfn, Copy>, n: Node, source: Pfn, dst: Pfn, done: nat) {
    && (forall i: Index :: i < done ==> SlotCopied(m0, m, copies, n, source, dst, i))
    && (forall i: Index :: i >= done ==> m[dst][i] == ZERO)
  }

  /** Copies made earlier stay complete while another table is written. */
  lemma StaysComplete(m0: Memory, m: Memory, m': Memory, copies: map<Pfn, Copy>, copies': map<Pfn, Copy>, dst: Pfn,
                      t: Pfn)
    requires Complete(m0, m, copies, t) && t != dst
    requires dst in copies && Level(copies[dst].node) > 0
    requires forall f :: f in copies ==> f in copies' && copies'[f] == copies[f]
    requires forall f :: f in copies && f != dst ==> m'[f] == m[f]
    ensures Complete(m0, m', copies', t)
  {
    forall i: Index | Level(copies[t].node) > 0
      ensures SlotCopied(m0, m', copies', copies'[t].node, copies'[t].source, t, i)
    {
      assert SlotCopied(m0, m, copies, copies[t].node, copies[t].source, t, i);
    }
  }

  lemma AllStayComplete(m0: Memory, m: Memory, m': Memory, copies: map<Pfn, Copy>, copies1: map<Pfn, Copy>,
                        copies2: map<Pfn, Copy>, dst: Pfn)
    requires NewComplete(m0, m, copies, copies1) && NewComplete(m0, m', copies1, copies2)
    requires dst in copies && dst in copies1 && Level(copies1[dst].node) > 0
    requires forall f :: f in copies1 ==> f in copies2 && copies2[f] == copies1[f]
    requires forall f :: f in copies1 && f != dst ==> m'[f] == m[f]
    ensures NewComplete(m0, m', copies, copies2)
  {
    forall t | t in copies2 && t !in copies ensures Complete(m0, m', copies2, t) {
      if t in copies1 {
        StaysComplete(m0, m, m', copies1, copies2, dst, t);
      }
    }
  }

  /** Filling slot `done` of a table keeps the slots before it. */
  lemma SlotsStay(m0: Memory, m: Memory, m': Memory, copies: map<Pfn, Copy>, copies': map<Pfn, Copy>,
                  n: Node, source: Pfn, dst: Pfn, done: Index)
    requires Partial(m0, m, copies, n, source, dst, done)
    requires dst in copies && copies[dst].node == n && Level(n) > 0
    requires forall f :: f in copies ==> f in copies' && copies'[f] == copies[f]
    requires forall f :: f in copies && f != dst ==> m'[f] == m[f]
    requires forall i: Index :: i != done ==> m'[dst][i] == m[dst][i]
    requires SlotCopied(m0, m', copies', n, source, dst, done)
    ensures Partial(m0, m', copies', n, source, dst, done + 1)
  {
    forall i: Index | i < done ensures SlotCopied(m0, m', copies', n, source, dst, i) {
      assert SlotCopied(m0, m, copies, n, source, dst, i);
    }
  }

  // How many frames a copy takes.

  /** One for the table or page itself, and those for everything below it that is not shared. */
  ghost function CopyCost(m: Memory, n: Node, t: Pfn): nat
    decreases Level(n), 1, 0
  {
    1 + if Level(n) == 0 then 0 else SlotsCost(m, n, t, 512)
  }

  ghost function SlotsCost(m: Memory, n: Node, t: Pfn, done: nat): nat
    requires Level(n) > 0 && done <= 512
    decreases Level(n), 0, done
  {
    if done == 0 then 0
    else
      var e := m[t][done - 1];
      SlotsCost(m, n, t, done - 1) + if e.flags.present && !Shared(n, e) then CopyCost(m, Sub(n, done - 1), e.pfn)
                                     else 0
  }

  lemma {:induction false} SlotsCostMore(m: Memory, n: Node, t: Pfn, done: nat, total: nat)
    requires Level(n) > 0 && done <= total <= 512
    ensures SlotsCost(m, n, t, done) <= SlotsCost(m, n, t, total)
  {
    if done < total {
      SlotsCostMore(m, n, t, done, total - 1);
    }
  }

  /**
   A fresh frame standing for a table or a user page of the parent: the page's bytes, or a table whose slots are
   copied. The source spells the levels out as nested loops. It takes as many frames as the copy costs, or fails for
   want of them.
   */
  method CopyBelow(pages: PageTableManager, source: Pfn, alloc: FrameAllocator, n: Node,
                   ghost m0: Memory, ghost writable: set<nat>, ghost copies: map<Pfn, Copy>)
    returns (r: Option<Pfn>, ghost copies': map<Pfn, Copy>)
    requires pages.Backed() && alloc.Supplies()
    requires Context(m0, pages.memory, writable, copies, alloc.Frames())
    requires Readable(m0, n, source, writable)
    modifies pages`memory, pages.ram, alloc
    ensures pages.Backed() && alloc.Supplies()
    ensures Context(m0, pages.memory, writable, copies', alloc.Frames())
    ensures Extends(copies, copies', old(alloc.Frames()), alloc.Frames())
    ensures WroteFree(old(pages.memory), pages.memory, old(alloc.Frames()), alloc.Frames())
    ensures r.Some? ==> r.value in copies' && r.value !in copies && copies'[r.value] == Copy(n, source)
    ensures r.Some? ==>
              NewComplete(m0, pages.memory, copies, copies') && (n.N0? ==> pages.memory[r.value] == m0[source])
    ensures if r.Some? then |old(alloc.Frames())| == |alloc.Frames()| + CopyCost(m0, n, source)
            else |old(alloc.Frames())| < CopyCost(m0, n, source)
    decreases Level(n), 2
  {
    hide FrameAllocator.Supplies, FrameAllocator.Frames, SlotsCost, CopyCost, Context, Extends;
    hide WroteFree, WroteOnly, NewComplete;
    hide Complete, Readable;
    CostOfOne(m0, n, source);
    ghost var m, free := pages.memory, alloc.Frames();
    NothingTaken(m0, m, copies, free);
    SourceIsParents(m0, m, writable, copies, free, n, source);
    copies' := copies;
    var page := alloc.AllocatePage();
    if page.None? {
      return None, copies';
    }
    var frame: Pfn := page.value;
    copies' := copies[frame := Copy(n, source)];
    if n.N0? {
      FrameTaken(m0, m, writable, copies, free, n, source, frame, m[source]);
      pages.CopyPage(source, frame);
      return Some(frame), copies';
    }
    FrameTaken(m0, m, writable, copies, free, n, source, frame, ZERO_FRAME);
    pages.ZeroTable(frame);
    ghost var m1, copies1, free1 := pages.memory, copies', alloc.Frames();
    var ok;
    ok, copies' := CopySlots(pages, source, frame, alloc, n, m0, writable, copies');
    TableDone(m0, m, m1, pages.memory, copies, copies1, copies', free, free1, alloc.Frames(), frame, ok);
    r := if ok then Some(frame) else None;
  }

  lemma CostOfOne(m: Memory, n: Node, t: Pfn)
    ensures CopyCost(m, n, t) == 1 + if Level(n) == 0 then 0 else SlotsCost(m, n, t, 512)
  {
  }

  lemma NothingTaken(m0: Memory, m: Memory, copies: map<Pfn, Copy>, free: set<nat>)
    ensures Extends(copies, copies, free, free) && WroteFree(m, m, free, free)
  {
  }

  lemma SourceIsParents(m0: Memory, m: Memory, writable: set<nat>, copies: map<Pfn, Copy>, free: set<nat>, n: Node,
                        source: Pfn)
    requires Context(m0, m, writable, copies, free) && Readable(m0, n, source, writable)
    ensures m[source] == m0[source]
  {
  }

  lemma FrameTaken(m0: Memory, m: Memory, writable: set<nat>, copies: map<Pfn, Copy>, free: set<nat>, n: Node,
                   source: Pfn,
                   frame: Pfn, contents: Frame)
    requires Context(m0, m, writable, copies, free) && frame in free
    ensures var m', copies', free' := m[frame := contents], copies[frame := Copy(n, source)], free - {frame};
            && Context(m0, m', writable, copies', free') && Extends(copies, copies', free, free')
            && WroteFree(m, m', free, free')
            && (n.N0? ==> NewComplete(m0, m', copies, copies'))
    ensures frame !in copies && |free| == |free - {frame}| + 1
  {
  }

  lemma TableDone(m0: Memory, m: Memory, m1: Memory, m2: Memory, copies: map<Pfn, Copy>, copies1: map<Pfn, Copy>,
                  copies2: map<Pfn, Copy>,
                  free: set<nat>, free1: set<nat>, free2: set<nat>, frame: Pfn, ok: bool)
    requires Extends(copies, copies1, free, free1) && Extends(copies1, copies2, free1, free2)
    requires WroteFree(m, m1, free, free1) && WroteOnly(m1, m2, frame, free1, free2) && frame in free && frame !in free1
    requires copies1.Keys == copies.Keys + {frame} && frame !in copies
    requires ok ==> NewComplete(m0, m2, copies1, copies2) && Complete(m0, m2, copies2, frame)
    ensures Extends(copies, copies2, free, free2) && WroteFree(m, m2, free, free2)
    ensures frame in copies2 && copies2[frame] == copies1[frame]
    ensures ok ==> NewComplete(m0, m2, copies, copies2)
  {
    hide Complete;
  }

  /** A copy under way: `done` slots of `dst` are filled since `m1`, `copies1` and `free1`. */
  ghost predicate Underway(m0: Memory, m1: Memory, m: Memory, writable: set<nat>, copies1: map<Pfn, Copy>,
                           copies: map<Pfn, Copy>,
                           free1: set<nat>, free: set<nat>, n: Node, source: Pfn, dst: Pfn, done: nat)
    requires Level(n) > 0 && done <= 512
  {
    && Context(m0, m, writable, copies, free) && Extends(copies1, copies, free1, free)
    && WroteOnly(m1, m, dst, free1, free)
    && Partial(m0, m, copies, n, source, dst, done) && NewComplete(m0, m, copies1, copies)
    && |free1| == |free| + SlotsCost(m0, n, source, done)
  }

  lemma NothingUnderway(m0: Memory, m: Memory, writable: set<nat>, copies: map<Pfn, Copy>, free: set<nat>, n: Node,
                        source: Pfn, dst: Pfn)
    requires Level(n) > 0 && Context(m0, m, writable, copies, free) && m[dst] == ZERO_FRAME
    ensures Underway(m0, m, m, writable, copies, copies, free, free, n, source, dst, 0)
  {
  }

  lemma AllDone(m0: Memory, m1: Memory, m: Memory, writable: set<nat>, copies1: map<Pfn, Copy>, copies: map<Pfn, Copy>,
                free1: set<nat>, free: set<nat>, n: Node, source: Pfn, dst: Pfn)
    requires Level(n) > 0 && Underway(m0, m1, m, writable, copies1, copies, free1, free, n, source, dst, 512)
    requires dst in copies1 && copies1[dst] == Copy(n, source)
    ensures Context(m0, m, writable, copies, free) && Extends(copies1, copies, free1, free)
            && WroteOnly(m1, m, dst, free1, free)
    ensures Complete(m0, m, copies, dst) && NewComplete(m0, m, copies1, copies)
    ensures |free1| == |free| + SlotsCost(m0, n, source, 512)
  {
    hide SlotCopied, SlotsCost;
  }

  lemma AbsentSlot(m0: Memory, m1: Memory, m: Memory, writable: set<nat>, copies1: map<Pfn, Copy>,
                   copies: map<Pfn, Copy>,
                   free1: set<nat>, free: set<nat>, n: Node, source: Pfn, dst: Pfn, i: Index)
    requires Level(n) > 0 && Underway(m0, m1, m, writable, copies1, copies, free1, free, n, source, dst, i)
    requires !m0[source][i].flags.present
    ensures Underway(m0, m1, m, writable, copies1, copies, free1, free, n, source, dst, i + 1)
  {
    hide Context, Extends, WroteOnly, NewComplete;
  }

  /** The slot is filled after the copy below it is made. */
  lemma FilledSlot(m0: Memory, m1: Memory, m: Memory, m': Memory, w: Word, writable: set<nat>,
                   copies1: map<Pfn, Copy>, copies: map<Pfn, Copy>, copies': map<Pfn, Copy>,
                   free1: set<nat>, free: set<nat>, free': set<nat>, n: Node, source: Pfn, dst: Pfn, i: Index)
    requires Level(n) > 0 && Underway(m0, m1, m, writable, copies1, copies, free1, free, n, source, dst, i)
    requires dst in copies1 && copies1[dst] == Copy(n, source)
    requires Context(m0, m', writable, copies', free') && Extends(copies, copies', free, free')
             && WroteFree(m, m', free, free')
    requires NewComplete(m0, m', copies, copies')
    requires SlotCopied(m0, Store(m', dst, i, w), copies', n, source, dst, i)
    requires |free| + SlotsCost(m0, n, source, i) == |free'| + SlotsCost(m0, n, source, i + 1)
    ensures Underway(m0, m1, Store(m', dst, i, w), writable, copies1, copies', free1, free', n, source, dst, i + 1)
  {
    hide SlotCopied, SlotsCost, Complete;
    var m'' := Store(m', dst, i, w);
    AllStayComplete(m0, m, m', copies1, copies, copies', dst);
    AllStayComplete(m0, m', m'', copies1, copies', copies', dst);
    SlotsStay(m0, m, m'', copies, copies', n, source, dst, i);
  }

  /** One slot of a table. */
  method CopySlot(pages: PageTableManager, source: Pfn, dst: Pfn, alloc: FrameAllocator, n: Node, i: Index,
                  ghost m0: Memory,
                  ghost m1: Memory, ghost writable: set<nat>, ghost copies1: map<Pfn, Copy>,
                  ghost copies: map<Pfn, Copy>, ghost free1: set<nat>)
    returns (ok: bool, ghost copies': map<Pfn, Copy>)
    requires pages.Backed() && alloc.Supplies() && Level(n) > 0 && Readable(m0, n, source, writable)
    requires dst in copies1 && copies1[dst] == Copy(n, source)
    requires Underway(m0, m1, pages.memory, writable, copies1, copies, free1, alloc.Frames(), n, source, dst, i)
    modifies pages`memory, pages.ram, alloc
    ensures pages.Backed() && alloc.Supplies()
    ensures ok ==>
              Underway(m0, m1, pages.memory, writable, copies1, copies', free1, alloc.Frames(), n, source, dst, i + 1)
    ensures !ok ==>
              && Context(m0, pages.memory, writable, copies', alloc.Frames())
              && Extends(copies1, copies', free1, alloc.Frames())
              && WroteOnly(m1, pages.memory, dst, free1, alloc.Frames())
              && |free1| < SlotsCost(m0, n, source, i + 1)
    decreases Level(n), 0
  {
    hide FrameAllocator.Supplies, FrameAllocator.Frames, Underway, Partial, CopyCost, Readable, NewComplete, Complete;
    ReadsParent(m0, m1, pages.memory, writable, copies1, copies, free1, alloc.Frames(), n, source, dst, i);
    ghost var m, free := pages.memory, alloc.Frames();
    var e := pages.ram[source][i];
    assert e == m0[source][i];
    copies' := copies;
    if !e.flags.present {
      AbsentSlot(m0, m1, m, writable, copies1, copies, free1, free, n, source, dst, i);
      return true, copies';
    }
    var w := e;
    if Shared(n, e) {
      NothingNew(m0, m, copies);
    } else {
      var below;
      below, copies' := CopyBelow(pages, e.pfn, alloc, Sub(n, i), m0, writable, copies);
      if below.None? {
        WroteMore(m1, m, pages.memory, free1, free, alloc.Frames(), dst);
        return false, copies';
      }
      w := Word(below.value, e.flags);
    }
    FilledSlot(m0, m1, m, pages.memory, w, writable, copies1, copies, copies', free1, free, alloc.Frames(), n, source,
               dst, i);
    pages.WriteEntry(dst, i, w);
    return true, copies';
  }

  lemma NothingNew(m0: Memory, m: Memory, copies: map<Pfn, Copy>)
    ensures NewComplete(m0, m, copies, copies)
  {
  }

  lemma WroteMore(m: Memory, m': Memory, m'': Memory, free: set<nat>, free': set<nat>, free'': set<nat>, dst: Pfn)
    requires WroteOnly(m, m', dst, free, free') && WroteFree(m', m'', free', free'') && free'' <= free' <= free
    ensures WroteOnly(m, m'', dst, free, free'')
  {
  }

  /** What the copy reads is as the parent left it. */
  lemma ReadsParent(m0: Memory, m1: Memory, m: Memory, writable: set<nat>, copies1: map<Pfn, Copy>,
                    copies: map<Pfn, Copy>,
                    free1: set<nat>, free: set<nat>, n: Node, source: Pfn, dst: Pfn, i: Index)
    requires Level(n) > 0 && Underway(m0, m1, m, writable, copies1, copies, free1, free, n, source, dst, i)
    requires Readable(m0, n, source, writable)
    ensures m[source] == m0[source] && Context(m0, m, writable, copies, free) && Extends(copies1, copies, free1, free)
    ensures WroteOnly(m1, m, dst, free1, free) && |free1| == |free| + SlotsCost(m0, n, source, i)
    ensures m0[source][i].flags.present && !Shared(n, m0[source][i]) ==>
              Readable(m0, Sub(n, i), m0[source][i].pfn, writable)
  {
    hide SlotCopied, SlotsCost, NewComplete, Partial;
  }

  /** The loop over the 512 slots of a table. */
  method CopySlots(pages: PageTableManager, source: Pfn, dst: Pfn, alloc: FrameAllocator, n: Node,
                   ghost m0: Memory, ghost writable: set<nat>, ghost copies: map<Pfn, Copy>)
    returns (ok: bool, ghost copies': map<Pfn, Copy>)
    requires pages.Backed() && alloc.Supplies()
    requires Context(m0, pages.memory, writable, copies, alloc.Frames())
    requires Level(n) > 0 && Readable(m0, n, source, writable)
    requires dst in copies && copies[dst] == Copy(n, source) && pages.memory[dst] == ZERO_FRAME
    modifies pages`memory, pages.ram, alloc
    ensures pages.Backed() && alloc.Supplies()
    ensures Context(m0, pages.memory, writable, copies', alloc.Frames())
    ensures Extends(copies, copies', old(alloc.Frames()), alloc.Frames())
    ensures WroteOnly(old(pages.memory), pages.memory, dst, old(alloc.Frames()), alloc.Frames())
    ensures ok ==> Complete(m0, pages.memory, copies', dst) && NewComplete(m0, pages.memory, copies, copies')
    ensures if ok then |old(alloc.Frames())| == |alloc.Frames()| + SlotsCost(m0, n, source, 512)
            else |old(alloc.Frames())| < SlotsCost(m0, n, source, 512)
    decreases Level(n), 1
  {
    hide FrameAllocator.Supplies, FrameAllocator.Frames, Underway, Context, Extends, WroteOnly;
    hide SlotsCost, Complete, NewComplete, Readable;
    ghost var m1, free1 := pages.memory, alloc.Frames();
    copies' := copies;
    NothingUnderway(m0, m1, writable, copies, free1, n, source, dst);
    for i := 0 to 512
      invariant pages.Backed() && alloc.Supplies()
      invariant Underway(m0, m1, pages.memory, writable, copies, copies', free1, alloc.Frames(), n, source, dst, i)
    {
      ok, copies' := CopySlot(pages, source, dst, alloc, n, i, m0, m1, writable, copies, copies', free1);
      if !ok {
        SlotsCostMore(m0, n, source, i + 1, 512);
        return;
      }
    }
    AllDone(m0, m1, pages.memory, writable, copies, copies', free1, alloc.Frames(), n, source, dst);
    return true, copies';
  }

  // What the copy means for translation.

  /** No table the walk of `at` reads, and no user page it ends at, lies in `writable`. */
  ghost predicate WalkAvoids(m: Memory, root: Pfn, at: Path, writable: set<nat>) {
    var e4 := m[root][at.i4];
    root !in writable && (e4.flags.present ==>
      var e3 := m[e4.pfn][at.i3];
      e4.pfn !in writable && (e3.flags.present && !e3.flags.huge ==>
        var e2 := m[e3.pfn][at.i2];
        e3.pfn !in writable && (e2.flags.present && !e2.flags.huge ==>
          e2.pfn !in writable && (UserPage(m, root, at) ==> m[e2.pfn][at.i1].pfn !in writable))))
  }

  ghost predicate Undisturbed(m: Memory, root: Pfn, writable: set<nat>) {
    forall at :: WalkAvoids(m, root, at, writable)
  }

  lemma UndisturbedIsReadable(m: Memory, root: Pfn, writable: set<nat>)
    requires Undisturbed(m, root, writable)
    ensures Readable(m, N4, root, writable)
  {
    assert WalkAvoids(m, root, Path(0, 0, 0, 0), writable);
    forall a: Index | m[root][a].flags.present && !Shared(N4, m[root][a])
      ensures Readable(m, N3(a), m[root][a].pfn, writable)
    {
      var t3 := m[root][a].pfn;
      assert WalkAvoids(m, root, Path(a, 0, 0, 0), writable);
      forall b: Index | m[t3][b].flags.present && !Shared(N3(a), m[t3][b])
        ensures Readable(m, N2(a, b), m[t3][b].pfn, writable)
      {
        var t2 := m[t3][b].pfn;
        assert WalkAvoids(m, root, Path(a, b, 0, 0), writable);
        forall c: Index | m[t2][c].flags.present && !Shared(N2(a, b), m[t2][c])
          ensures Readable(m, N1(a, b, c), m[t2][c].pfn, writable)
        {
          var t1 := m[t2][c].pfn;
          assert WalkAvoids(m, root, Path(a, b, c, 0), writable);
          forall d: Index | m[t1][d].flags.present && !Shared(N1(a, b, c), m[t1][d])
            ensures Readable(m, N0(Path(a, b, c, d)), m[t1][d].pfn, writable)
          {
            assert WalkAvoids(m, root, Path(a, b, c, d), writable);
          }
        }
      }
    }
  }

  /** `child` and everything below it is a finished copy of `parent` as it was in `m0`. */
  ghost predicate DeepCopy(m0: Memory, m: Memory, parent: Pfn, child: Pfn, copies: map<Pfn, Copy>) {
    && child in copies && copies[child] == Copy(N4, parent)
    && forall t :: t in copies ==> Complete(m0, m, copies, t)
  }

  /**
   The child translates exactly the addresses the parent does, with the same flags and page sizes. A page
   that is USER at all levels sits in a frame of its own with the same bytes; every other leaf is shared.
   */
  ghost predicate SameSpace(m0: Memory, m: Memory, parent: Pfn, child: Pfn, copies: map<Pfn, Copy>, at: Path) {
    var p, c := Walk(m0, parent, at), Walk(m, child, at);
    && KernelSlot(m, child, at) == KernelSlot(m0, parent, at)
    && if UserPage(m0, parent, at) then
         && c.Page4K? && c.entry.flags == p.entry.flags
         && c.entry.pfn in copies && copies[c.entry.pfn] == Copy(N0(at), p.entry.pfn)
         && m[c.entry.pfn] == m0[p.entry.pfn]
       else c == p
  }

  lemma DeepCopyTranslates(m0: Memory, m: Memory, parent: Pfn, child: Pfn, copies: map<Pfn, Copy>, writable: set<nat>,
                           at: Path)
    requires DeepCopy(m0, m, parent, child, copies)
    requires WalkAvoids(m0, parent, at, writable) && forall f: Pfn :: f !in writable ==> m[f] == m0[f]
    ensures SameSpace(m0, m, parent, child, copies, at)
  {
    assert Complete(m0, m, copies, child);
    assert SlotCopied(m0, m, copies, N4, parent, child, at.i4);
    var e4, w4 := m0[parent][at.i4], m[child][at.i4];
    if e4.flags.present && e4.flags.user {
      assert Complete(m0, m, copies, w4.pfn);
      assert SlotCopied(m0, m, copies, N3(at.i4), e4.pfn, w4.pfn, at.i3);
      var e3, w3 := m0[e4.pfn][at.i3], m[w4.pfn][at.i3];
      if e3.flags.present && !e3.flags.huge && e3.flags.user {
        assert Complete(m0, m, copies, w3.pfn);
        assert SlotCopied(m0, m, copies, N2(at.i4, at.i3), e3.pfn, w3.pfn, at.i2);
        var e2, w2 := m0[e3.pfn][at.i2], m[w3.pfn][at.i2];
        if e2.flags.present && !e2.flags.huge && e2.flags.user {
          assert Complete(m0, m, copies, w2.pfn);
          assert SlotCopied(m0, m, copies, N1(at.i4, at.i3, at.i2), e2.pfn, w2.pfn, at.i1);
        }
      }
    }
  }

  // The child's tree.

  function Up(n: Node): Node {
    match n
    case N4 => N4
    case N3(_) => N4
    case N2(a, _) => N3(a)
    case N1(a, b, _) => N2(a, b)
    case N0(at) => N1(at.i4, at.i3, at.i2)
  }

  function Last(n: Node): Index {
    match n
    case N4 => 0
    case N3(a) => a
    case N2(_, b) => b
    case N1(_, _, c) => c
    case N0(at) => at.i1
  }

  /** The table at a place of the tree under `root`. */
  ghost function TableAt(m: Memory, root: Pfn, n: Node): Option<Pfn>
    decreases 4 - Level(n)
  {
    if n.N4? then Some(root)
    else
      match TableAt(m, root, Up(n))
      case None => None
      case Some(t) => if Links(Up(n), m[t][Last(n)]) then Some(m[t][Last(n)].pfn) else None
  }

  lemma {:induction false} TableAtIsOwned(m: Memory, root: Pfn, own: map<Pfn, Node>, n: Node)
    requires Shape(m, root, own) && TableAt(m, root, n).Some?
    ensures TableAt(m, root, n).value in own && own[TableAt(m, root, n).value] == n
    decreases 4 - Level(n)
  {
    if !n.N4? {
      TableAtIsOwned(m, root, own, Up(n));
      assert Sub(Up(n), Last(n)) == n;
    }
  }

  /** A table of the child's tree is the copy of the parent's table at the same place. */
  lemma {:induction false} TablesCorrespond(m0: Memory, m: Memory, parent: Pfn, child: Pfn,
                                            own: map<Pfn, Node>, copies: map<Pfn, Copy>, n: Node)
    requires DeepCopy(m0, m, parent, child, copies) && Shape(m0, parent, own) && Plain(m0, own)
    requires TableAt(m, child, n).Some?
    ensures var t := TableAt(m, child, n).value;
            t in copies && copies[t].node == n && TableAt(m0, parent, n) == Some(copies[t].source)
    decreases 4 - Level(n)
  {
    if !n.N4? {
      var up, i := Up(n), Last(n);
      TablesCorrespond(m0, m, parent, child, own, copies, up);
      TableAtIsOwned(m0, parent, own, up);
      var t := TableAt(m, child, up).value;
      assert Complete(m0, m, copies, t);
      assert SlotCopied(m0, m, copies, up, copies[t].source, t, i);
      assert Sub(up, i) == n;
    }
  }

  /** The places of the child's tables. */
  ghost function ChildTree(m: Memory, child: Pfn, copies: map<Pfn, Copy>): map<Pfn, Node> {
    map t | t in copies && TableAt(m, child, copies[t].node) == Some(t) :: copies[t].node
  }

  /** The copy of a plain tree is a plain tree of its own, in the frames of the copy. */
  lemma ChildHasShape(m0: Memory, m: Memory, parent: Pfn, child: Pfn, own: map<Pfn, Node>, copies: map<Pfn, Copy>)
    requires DeepCopy(m0, m, parent, child, copies) && Shape(m0, parent, own) && Plain(m0, own)
    ensures Shape(m, child, ChildTree(m, child, copies)) && Plain(m, ChildTree(m, child, copies))
    ensures Permissive(m0, own) ==> Permissive(m, ChildTree(m, child, copies))
  {
    var tree := ChildTree(m, child, copies);
    forall t, i: Index | t in tree
      ensures Links(tree[t], m[t][i]) ==> m[t][i].pfn in tree && tree[m[t][i].pfn] == Sub(tree[t], i)
      ensures Links(tree[t], m[t][i]) && Permissive(m0, own) ==> Allows(m[t][i])
      ensures PlainLevel(tree[t]) && m[t][i].flags.present ==>
                m[t][i].flags.user && (tree[t].N1? || !m[t][i].flags.huge)
    {
      var n := tree[t];
      TablesCorrespond(m0, m, parent, child, own, copies, n);
      TableAtIsOwned(m0, parent, own, n);
      assert Complete(m0, m, copies, t);
      assert SlotCopied(m0, m, copies, n, copies[t].source, t, i);
      if Links(n, m[t][i]) {
        assert Up(Sub(n, i)) == n && Last(Sub(n, i)) == i;
        TablesCorrespond(m0, m, parent, child, own, copies, Sub(n, i));
      }
    }
  }

  // The two entry points.

  /**
   `clone_user_address_space`. The frames the parent uses must not be on the free list; the kernel
   subtrees it shares count as used.
   */
  method CloneUserAddressSpace(pages: PageTableManager, parent: Pfn, alloc: FrameAllocator)
    returns (child: Option<Pfn>, ghost copies: map<Pfn, Copy>)
    requires pages.Backed() && alloc.Supplies()
    requires Undisturbed(pages.memory, parent, alloc.Frames())
    modifies pages`memory, pages.ram, alloc
    ensures pages.Backed() && alloc.Supplies()
    ensures alloc.Frames() <= old(alloc.Frames())
    ensures WroteFree(old(pages.memory), pages.memory, old(alloc.Frames()), alloc.Frames())
    ensures forall t :: t in copies ==> t in old(alloc.Frames()) && t !in alloc.Frames()
    ensures forall at :: Walk(pages.memory, parent, at) == Walk(old(pages.memory), parent, at)
    ensures child.Some? <==> CopyCost(old(pages.memory), N4, parent) <= |old(alloc.Frames())|
    ensures child.Some? ==> |old(alloc.Frames())| == |alloc.Frames()| + CopyCost(old(pages.memory), N4, parent)
    ensures child.Some? ==> DeepCopy(old(pages.memory), pages.memory, parent, child.value, copies)
    ensures child.Some? ==> forall at :: SameSpace(old(pages.memory), pages.memory, parent, child.value, copies, at)
  {
    hide FrameAllocator.Supplies, FrameAllocator.Frames, CopyCost;
    ghost var m0, writable := pages.memory, alloc.Frames();
    UndisturbedIsReadable(m0, parent, writable);
    child, copies := CopyBelow(pages, parent, alloc, N4, m0, writable, map[]);
    forall at ensures Walk(pages.memory, parent, at) == Walk(m0, parent, at)
      ensures child.Some? ==> SameSpace(m0, pages.memory, parent, child.value, copies, at)
    {
      assert WalkAvoids(m0, parent, at, writable);
      if child.Some? {
        DeepCopyTranslates(m0, pages.memory, parent, child.value, copies, writable, at);
      }
    }
  }

  /** `create_empty_user_address_space`: the kernel half of the current space and nothing else. */
  method CreateEmptyUserAddressSpace(pages: PageTableManager, alloc: FrameAllocator) returns (r: Option<Pfn>)
    requires pages.Backed() && alloc.Supplies() && pages.cr3 !in alloc.Frames()
    modifies pages`memory, pages.ram, alloc
    ensures pages.Backed() && alloc.Supplies()
    ensures r.None? ==> pages.memory == old(pages.memory) && old(alloc.Frames()) == {}
    ensures r.Some? ==> r.value in old(alloc.Frames()) && alloc.Frames() == old(alloc.Frames()) - {r.value}
    ensures r.Some? ==> forall f: Pfn :: f != r.value ==> pages.memory[f] == old(pages.memory)[f]
    ensures r.Some? ==> Shape(pages.memory, r.value, map[r.value := N4]) && Plain(pages.memory, map[r.value := N4])
    ensures r.Some? ==> Permissive(pages.memory, map[r.value := N4])
    ensures r.Some? ==>
              forall at :: KernelSlot(pages.memory, r.value, at) <==> KernelSlot(old(pages.memory), pages.cr3, at)
    ensures r.Some? ==>
              forall at :: !KernelSlot(pages.memory, r.value, at) ==> Walk(pages.memory, r.value, at) == Absent
    ensures r.Some? ==> forall i: Index :: var e := old(pages.memory)[pages.cr3][i];
              e.flags.present && !e.flags.user ==> pages.memory[r.value][i] == e
  {
    hide FrameAllocator.Supplies, FrameAllocator.Frames;
    var page := alloc.AllocatePage();
    if page.None? {
      return None;
    }
    var root: Pfn := page.value;
    ghost var m0 := pages.memory;
    pages.ZeroTable(root);
    var index := 0;
    while index < 512
      modifies pages`memory, pages.ram
      invariant 0 <= index <= 512 && pages.Backed()
      invariant forall f: Pfn :: f != root ==> pages.memory[f] == m0[f]
      invariant forall i: Index :: pages.memory[root][i] ==
                  var e := m0[pages.cr3][i];
                  if i < index && e.flags.present && !e.flags.user then e else ZERO
    {
      var value := pages.ram[pages.cr3][index];
      assert value == m0[pages.cr3][index];
      if value.flags.present && !value.flags.user {
        pages.WriteEntry(root, index, value);
      }
      index := index + 1;
    }
    return Some(root);
  }
}
