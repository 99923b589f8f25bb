/** Fresh pages mapped into a process's space and filled: the step `load_at` and `mmap` repeat. */
module UserPages {
  import opened Prelude
  import opened Bytes
  import opened PageTables
  import opened FrameAllocation
  import opened Paging
  import opened PagingRuns
  import opened Words

  predicate PageAddress(p: nat) {
    p % 4096 == 0 && p < USER_LIMIT
  }

  lemma PathOfPage(p: nat) returns (v: Vpn)
    requires PageAddress(p)
    ensures p == 4096 * v && Indexes(p) == PathOf(v)
  {
    hide PathOf, Indexes;
    IndexesOfPage(p);
    v := p / 4096;
    Quotient(v, 0x10_0000_0000, 0, v);
  }

  /** Different user pages have different paths. */
  lemma PathsOfPages(p: nat, q: nat)
    requires PageAddress(p) && PageAddress(q) && Indexes(p) == Indexes(q)
    ensures p == q
  {
    hide PathOf, Indexes, VpnOf;
    var v := PathOfPage(p);
    var w := PathOfPage(q);
    PathsAreVpns(v, PathOf(v));
    PathsAreVpns(w, PathOf(w));
  }

  /** What changed on the way from `s` to `s'`: the translation of `touched`, and frames that were free. */
  ghost predicate Extended(s: Space, s': Space, touched: set<Path>) {
    && s'.root == s.root && Sound(s') && s'.free <= s.free && RootsAgree(s.m[s.root], s'.m[s.root])
    && (forall t: Pfn :: t in s'.own ==> t in s.own || (t in s.free && t !in s'.free))
    && (forall t :: t in s.own ==> t in s'.own)
    && (forall f: Pfn :: f !in s.own && f !in s.free ==> s'.m[f] == s.m[f])
    && (Permissive(s.m, s.own) ==> Permissive(s'.m, s'.own)) && UserPathsKept(s.m, s'.m, s.root)
    && forall at :: at !in touched ==> SamePlace(s, s', at)
  }

  /** Two level-4 tables have the same kernel entries. */
  ghost predicate RootsAgree(a: Frame, b: Frame) {
    forall i: Index :: IsKernelEntry(a[i]) || IsKernelEntry(b[i]) ==> a[i] == b[i]
  }

  predicate IsKernelEntry(e: Word) {
    e.flags.present && !e.flags.user
  }

  ghost predicate SamePlace(s: Space, s': Space, at: Path) {
    && KernelSlot(s'.m, s.root, at) == KernelSlot(s.m, s.root, at)
    && (!KernelSlot(s.m, s.root, at) ==> Walk(s'.m, s.root, at) == Walk(s.m, s.root, at))
  }

  lemma ExtendedTwice(s: Space, s': Space, s'': Space, a: set<Path>, b: set<Path>)
    requires Extended(s, s', a) && Extended(s', s'', b)
    ensures Extended(s, s'', a + b)
  {
    hide Permissive, UserPath, Walk, KernelSlot, Shape;
    forall at | at !in a + b ensures SamePlace(s, s'', at) {
      assert SamePlace(s, s', at) && SamePlace(s', s'', at);
    }
  }

  /** Nothing is mapped there, and the process could map something. */
  ghost predicate Vacant(s: Space, at: Path) {
    !KernelSlot(s.m, s.root, at) && Walk(s.m, s.root, at).Absent?
  }

  /** A 4 KiB page in a frame that was on the free list of `s` and serves nothing else in `s'`. */
  ghost predicate FreshAt(s: Space, s': Space, at: Path) {
    && !KernelSlot(s'.m, s'.root, at)
    && var leaf := Walk(s'.m, s'.root, at);
    leaf.Page4K? && leaf.entry.pfn in s.free && leaf.entry.pfn !in s'.free && leaf.entry.pfn !in s'.own
  }

  ghost predicate SameFrame(s: Space, at: Path, other: Path) {
    var a, b := Walk(s.m, s.root, at), Walk(s.m, s.root, other);
    a.Page4K? && b.Page4K? && a.entry.pfn == b.entry.pfn
  }

  /** Each of the pages is in a fresh frame, and no two share one. */
  ghost predicate FreshFrames(s: Space, s': Space, added: set<Path>) {
    && (forall at :: at in added ==> FreshAt(s, s', at))
    && forall at, other :: at in added && other in added && at != other ==> !SameFrame(s', at, other)
  }

  lemma FreshFramesTwice(s: Space, s': Space, s'': Space, a: set<Path>, b: set<Path>)
    requires Extended(s, s', a) && Extended(s', s'', b) && a !! b
    requires FreshFrames(s, s', a) && FreshFrames(s', s'', b)
    ensures FreshFrames(s, s'', a + b)
  {
    hide Walk, KernelSlot;
    forall at | at in a ensures FreshAt(s, s'', at) && Walk(s''.m, s''.root, at) == Walk(s'.m, s'.root, at) {
      assert FreshAt(s, s', at) && SamePlace(s', s'', at);
    }
    forall at | at in b ensures FreshAt(s, s'', at) {
      assert FreshAt(s', s'', at);
    }
    forall at, other | at in a + b && other in a + b && at != other ensures !SameFrame(s'', at, other) {
      assert at in a && other in a ==> !SameFrame(s', at, other);
      assert at in a ==> FreshAt(s, s', at);
      assert other in a ==> FreshAt(s, s', other);
      assert at in b ==> FreshAt(s', s'', at);
      assert other in b ==> FreshAt(s', s'', other);
    }
  }

  /** `s'` has pages at `added` that `s` did not have, each in a frame of its own, and everything else unchanged. */
  ghost predicate Grew(s: Space, s': Space, added: set<Path>) {
    Extended(s, s', added) && (forall at :: at in added ==> Vacant(s, at)) && FreshFrames(s, s', added)
  }

  lemma StillVacant(s: Space, s': Space, touched: set<Path>, at: Path)
    requires Extended(s, s', touched) && at !in touched && Vacant(s', at)
    ensures Vacant(s, at)
  {
    assert SamePlace(s, s', at);
  }

  lemma GrewTwice(s: Space, s': Space, s'': Space, a: set<Path>, b: set<Path>)
    requires Grew(s, s', a) && Grew(s', s'', b)
    ensures Grew(s, s'', a + b)
  {
    hide Walk, KernelSlot, Extended;
    ExtendedTwice(s, s', s'', a, b);
    forall at | at in a ensures at !in b {
      assert FreshAt(s, s', at);
      assert at in b ==> Vacant(s', at);
    }
    FreshFramesTwice(s, s', s'', a, b);
    forall at | at in a + b ensures Vacant(s, at) {
      if at !in a {
        StillVacant(s, s', a, at);
      }
    }
  }

  // How many frames it takes.

  /** The places above a set of pages that have no table yet. */
  ghost function PlacesFor(m: Memory, root: Pfn, paths: set<Path>): set<Node> {
    set at, n | at in paths && n in MissingPlaces(m, root, at) :: n
  }

  ghost function AllAbove(paths: set<Path>): set<Node> {
    set at, n | at in paths && n in Above(at) :: n
  }

  /** The frames it takes to map fresh pages there: one for each page and one for each missing table. */
  ghost function FramesFor(s: Space, paths: set<Path>): nat {
    |paths| + |PlacesFor(s.m, s.root, paths)|
  }

  /** On the way from `s` to `s'` just the frames for pages at `added` were used. */
  ghost predicate Charged(s: Space, s': Space, added: set<Path>) {
    && Opens(s.m, s'.m, s.root, AllAbove(added))
    && |s.free| == |s'.free| + FramesFor(s, added)
  }

  /** Outside the kernel slots, with no huge page in the way. */
  ghost predicate Small(s: Space, at: Path) {
    !KernelSlot(s.m, s.root, at) && (Walk(s.m, s.root, at).Absent? || Walk(s.m, s.root, at).Page4K?)
  }

  ghost predicate AllSmall(s: Space, paths: set<Path>) {
    forall at :: at in paths ==> Small(s, at)
  }

  lemma VacantIsSmall(s: Space, paths: set<Path>)
    ensures AllVacant(s, paths) ==> AllSmall(s, paths)
  {
    if AllVacant(s, paths) {
      forall at | at in paths ensures Small(s, at) {
        assert Vacant(s, at);
      }
    }
  }

  ghost predicate AllVacant(s: Space, paths: set<Path>) {
    forall at :: at in paths ==> Vacant(s, at)
  }

  /** The space can grow by pages at `paths`: nothing is in the way, and there are frames enough. */
  ghost predicate CanGrow(s: Space, paths: set<Path>) {
    AllVacant(s, paths) && FramesFor(s, paths) <= |s.free|
  }

  lemma NothingCharged(s: Space)
    ensures Charged(s, s, {}) && CanGrow(s, {})
  {
    assert PlacesFor(s.m, s.root, {}) == {} && AllAbove({}) == {};
  }

  lemma OnePage(s: Space, at: Path)
    ensures AllAbove({at}) == Above(at) && FramesFor(s, {at}) == 1 + MissingTables(s.m, s.root, at)
  {
    MissingPlacesCount(s.m, s.root, at);
    assert AllAbove({at}) == Above(at);
    assert PlacesFor(s.m, s.root, {at}) == MissingPlaces(s.m, s.root, at);
  }

  lemma MoreFramesForMore(s: Space, a: set<Path>, b: set<Path>)
    requires a <= b
    ensures FramesFor(s, a) <= FramesFor(s, b)
    ensures CanGrow(s, b) ==> CanGrow(s, a)
  {
    hide Vacant, MissingPlaces;
    SmallerSet(a, b);
    SmallerSet(PlacesFor(s.m, s.root, a), PlacesFor(s.m, s.root, b));
  }

  lemma SmallerSet<T>(a: set<T>, b: set<T>)
    requires a <= b
    ensures |a| <= |b|
  {
    assert b == a + (b - a);
  }

  /** Tables opened for some pages serve the others: what the others still miss is missing to begin with. */
  lemma PlacesAfter(s: Space, s': Space, a: set<Path>, b: set<Path>)
    requires Opens(s.m, s'.m, s.root, AllAbove(a)) && s'.root == s.root && AllSmall(s, a) && AllSmall(s, b)
    ensures PlacesFor(s'.m, s.root, b) == PlacesFor(s.m, s.root, b) - PlacesFor(s.m, s.root, a)
  {
    hide MissingPlaces, Above, Walk, KernelSlot;
    var early, late, after := PlacesFor(s.m, s.root, a), PlacesFor(s.m, s.root, b), PlacesFor(s'.m, s.root, b);
    forall n | n in after ensures n in late - early {
      var p :| p in b && n in MissingPlaces(s'.m, s.root, p);
      assert Small(s, p);
      if n in early {
        var q :| q in a && n in MissingPlaces(s.m, s.root, q);
        MissingIsAbove(s.m, s.root, q);
      }
    }
    forall n | n in late && n in AllAbove(a) ensures n in early {
      var p :| p in b && n in MissingPlaces(s.m, s.root, p);
      var q :| q in a && n in Above(q);
      assert Small(s, p) && Small(s, q);
      PlacesAreShared(s.m, s.root, p, q, n);
    }
    forall n | n in late - early ensures n in after {
      var p :| p in b && n in MissingPlaces(s.m, s.root, p);
      assert Small(s, p);
      assert n in MissingPlaces(s'.m, s.root, p);
    }
  }

  lemma MissingIsAbove(m: Memory, root: Pfn, at: Path)
    ensures MissingPlaces(m, root, at) <= Above(at)
  {
  }

  lemma FramesForBoth(s: Space, s': Space, a: set<Path>, b: set<Path>)
    requires Charged(s, s', a) && s'.root == s.root && AllSmall(s, a) && AllSmall(s, b) && a !! b
    ensures FramesFor(s, a + b) == FramesFor(s, a) + FramesFor(s', b)
  {
    hide MissingPlaces, Small, AllAbove, Opens;
    PlacesAfter(s, s', a, b);
    var early, late := PlacesFor(s.m, s.root, a), PlacesFor(s.m, s.root, b);
    assert PlacesFor(s.m, s.root, a + b) == early + (late - early);
  }

  lemma GrownVacant(s: Space, s': Space, a: set<Path>, b: set<Path>)
    requires Grew(s, s', a)
    ensures AllVacant(s', b) <==> a !! b && AllVacant(s, b)
  {
    hide Extended, Walk, KernelSlot;
    SameRoot(s, s', a);
    forall at | at in b ensures Vacant(s', at) <==> at !in a && Vacant(s, at) {
      if at in a {
        assert FreshAt(s, s', at);
      } else {
        Untouched(s, s', a, at);
      }
    }
  }

  lemma Untouched(s: Space, s': Space, touched: set<Path>, at: Path)
    requires Extended(s, s', touched) && at !in touched
    ensures SamePlace(s, s', at) && s'.root == s.root
  {
  }

  /** After growing by `a` the space can grow by `b` exactly when it could have grown by both. */
  lemma GrowsOn(s: Space, s': Space, a: set<Path>, b: set<Path>)
    requires Grew(s, s', a) && Charged(s, s', a)
    ensures CanGrow(s', b) <==> a !! b && CanGrow(s, a + b)
    ensures CanGrow(s, a)
  {
    hide Charged, Vacant, Extended, FreshFrames, FramesFor, Small;
    GrownVacant(s, s', a, b);
    ChargedFrames(s, s', a);
    VacantIsSmall(s, a);
    VacantIsSmall(s, b);
    if a !! b && AllVacant(s, b) {
      FramesForBoth(s, s', a, b);
    }
  }

  lemma ChargedFrames(s: Space, s': Space, a: set<Path>)
    requires Charged(s, s', a) && Grew(s, s', a)
    ensures |s.free| == |s'.free| + FramesFor(s, a) && s'.root == s.root
  {
    hide FramesFor, FreshFrames, Vacant;
  }

  lemma ChargedTwice(s: Space, s': Space, s'': Space, a: set<Path>, b: set<Path>)
    requires Grew(s, s', a) && Charged(s, s', a) && Grew(s', s'', b) && Charged(s', s'', b)
    ensures Charged(s, s'', a + b)
  {
    hide Vacant, Small, Extended, FreshFrames, FramesFor, MissingPlaces, AllAbove, Opens;
    GrownVacant(s, s', a, b);
    ChargedFrames(s, s', a);
    VacantIsSmall(s, a);
    VacantIsSmall(s, b);
    FramesForBoth(s, s', a, b);
    SameRoot(s, s', a);
    OpensBoth(s, s', s'', a, b);
  }

  lemma OpensBoth(s: Space, s': Space, s'': Space, a: set<Path>, b: set<Path>)
    requires RootsAgree(s.m[s.root], s'.m[s.root])
    requires Opens(s.m, s'.m, s.root, AllAbove(a)) && Opens(s'.m, s''.m, s.root, AllAbove(b))
    ensures Opens(s.m, s''.m, s.root, AllAbove(a + b))
  {
    hide MissingPlaces, Above, Walk, Opens;
    OpensTwice(s.m, s'.m, s''.m, s.root, AllAbove(a), AllAbove(b));
    assert AllAbove(a) + AllAbove(b) == AllAbove(a + b);
  }

  lemma SameRoot(s: Space, s': Space, touched: set<Path>)
    requires Extended(s, s', touched)
    ensures s'.root == s.root && RootsAgree(s.m[s.root], s'.m[s.root])
  {
  }

  /** A user page is mapped with `flags` to a frame of its own that holds `bytes`. */
  ghost predicate Holds(s: Space, p: nat, flags: Flags, bytes: seq<Byte>) {
    && PageAddress(p) && !KernelSlot(s.m, s.root, Indexes(p)) && UserPath(s.m, s.root, Indexes(p))
    && var leaf := Walk(s.m, s.root, Indexes(p));
    && leaf.Page4K? && leaf.entry.flags == flags
    && leaf.entry.pfn !in s.own && leaf.entry.pfn !in s.free && PageBytes(s.m[leaf.entry.pfn]) == bytes
  }

  /** The processor allows for the page what its flags say, in a tree whose links allow everything. */
  lemma HeldIsPermitted(s: Space, p: U64, flags: Flags, bytes: seq<Byte>)
    requires Sound(s) && Permissive(s.m, s.own) && Holds(s, p, flags, bytes)
    ensures Permitted(s.m, s.root, Indexes(p), flags)
  {
    hide Indexes, Shape, Permissive, UserPath, Permitted, PageBytes;
    MappedPermissions(s.m, s.root, s.own, Indexes(p), Walk(s.m, s.root, Indexes(p)).entry);
  }

  /** A page stays as it is while other pages are mapped. */
  lemma StillHolds(s: Space, s': Space, touched: set<Path>, p: U64, flags: Flags, bytes: seq<Byte>)
    requires Extended(s, s', touched) && Indexes(p) !in touched && Holds(s, p, flags, bytes)
    ensures Holds(s', p, flags, bytes)
    ensures Walk(s'.m, s'.root, Indexes(p)) == Walk(s.m, s.root, Indexes(p))
  {
    hide PageBytes, Walk, Indexes;
    assert SamePlace(s, s', Indexes(p));
  }

  /** The same while a space grows: the page was not vacant, so nothing was added there. */
  lemma GrowthKeepsPage(s: Space, s': Space, added: set<Path>, p: U64, flags: Flags, bytes: seq<Byte>)
    requires Grew(s, s', added) && Holds(s, p, flags, bytes)
    ensures Holds(s', p, flags, bytes)
  {
    hide Extended;
    assert Indexes(p) in added ==> Vacant(s, Indexes(p));
    StillHolds(s, s', added, p, flags, bytes);
  }

  datatype PageError = NoFrame | NoMapping

  /** Whether a fresh page can be mapped at `p`, with one frame for itself beside those for the tables. */
  function FreshPageOutcome(m: Memory, root: Pfn, p: U64, free: nat): Result<(), PageError> {
    if free == 0 then Err(NoFrame)
    else if MapOutcome(m, root, p, 0, true, free - 1).Err? then Err(NoMapping)
    else Ok(())
  }

  /** Where the physical address comes from does not matter, only that it is a frame. */
  lemma AnyFrameWillDo(m: Memory, root: Pfn, p: U64, frame: Pfn, flags: Flags, free: nat)
    requires flags.present
    ensures frame * 4096 < U64_LIMIT && LeafEntry(frame * 4096, flags) == Word(frame, flags)
    ensures MapOutcome(m, root, p, frame * 4096, true, free) == MapOutcome(m, root, p, 0, true, free)
  {
    Quotient(frame * 4096, 4096, frame, 0);
  }

  /** A user page is mapped with `flags` to `frame`, which is its own. */
  ghost predicate MapsTo(s: Space, p: U64, flags: Flags, frame: Pfn) {
    && PageAddress(p) && !KernelSlot(s.m, s.root, Indexes(p)) && UserPath(s.m, s.root, Indexes(p))
    && Walk(s.m, s.root, Indexes(p)) == Page4K(Word(frame, flags)) && frame !in s.own && frame !in s.free
  }

  /** Takes a frame and maps it at `p`. */
  method MapFreshFrame(pages: PageTableManager, alloc: FrameAllocator, p: U64, flags: Flags)
    returns (r: Result<Pfn, PageError>)
    requires pages.Valid() && alloc.Supplies() && pages.own.Keys !! alloc.Frames()
    requires flags.user && flags.present
    modifies pages`own, pages`memory, pages.ram, alloc
    ensures pages.Valid() && alloc.Supplies() && pages.own.Keys !! alloc.Frames()
    ensures var was := old(FreshPageOutcome(pages.memory, pages.cr3, p, |alloc.Frames()|));
            r.Ok? == was.Ok? && (r.Err? ==> was == Err(r.error))
    ensures Extended(old(SpaceOf(pages, alloc)), SpaceOf(pages, alloc), if r.Ok? then {Indexes(p)} else {})
    ensures r.Ok? ==> r.value in old(alloc.Frames()) && MapsTo(SpaceOf(pages, alloc), p, flags, r.value)
    ensures r.Ok? ==> Vacant(old(SpaceOf(pages, alloc)), Indexes(p))
    ensures r.Ok? ==> Charged(old(SpaceOf(pages, alloc)), SpaceOf(pages, alloc), {Indexes(p)})
  {
    hide FrameAllocator.Supplies, FrameAllocator.Frames, Walk, Indexes, LeafEntry, Opens;
    hide MissingTables, FramesFor, AllAbove, Permissive, UserPath, Permitted;
    OnePage(SpaceOf(pages, alloc), Indexes(p));
    var page := alloc.AllocatePage();
    if page.None? {
      return Err(NoFrame);
    }
    var frame: Pfn := page.value;
    AnyFrameWillDo(pages.memory, pages.cr3, p, frame, flags, |alloc.Frames()|);
    var mapped := pages.Map4K(p, frame * 4096, flags, alloc);
    r := if mapped.Ok? then Ok(frame) else Err(NoMapping);
  }

  /** Copies `bytes` into a frame outside the tables, through the physical window. */
  method StoreBytes(pages: PageTableManager, frame: Pfn, at: nat, bytes: seq<Byte>)
    requires pages.Valid() && frame !in pages.own && at + |bytes| <= 4096
    modifies pages`memory, pages.ram
    ensures pages.Valid()
    ensures var f := FrameOf(Overlay(PageBytes(old(pages.memory)[frame]), at, bytes));
            pages.memory == old(pages.memory)[frame := f]
  {
    hide FrameOf, PageBytes;
    ghost var f := FrameOf(Overlay(PageBytes(pages.memory[frame]), at, bytes));
    OtherFramesUntouched(pages.memory, pages.memory[frame := f], pages.cr3, pages.own);
    pages.ram[frame] := FrameOf(Overlay(PageBytes(pages.ram[frame]), at, bytes));
    pages.memory := pages.memory[frame := f];
  }

  /** Writing to a frame that came off the free list leaves everything there was before as it was. */
  lemma FillKeepsExtended(s: Space, s': Space, touched: set<Path>, frame: Pfn, contents: Frame)
    requires Extended(s, s', touched) && frame in s.free && frame !in s'.own && frame !in s'.free
    ensures Extended(s, s'.(m := s'.m[frame := contents]), touched)
  {
    var after := s'.(m := s'.m[frame := contents]);
    UntouchedPermissions(s'.m, after.m, s'.root, s'.own);
    OtherFramesUntouched(s'.m, after.m, s'.root, s'.own);
    forall at | at !in touched ensures SamePlace(s, after, at) {
      assert SamePlace(s, s', at);
    }
  }

  lemma FillsPage(s: Space, p: U64, flags: Flags, frame: Pfn, bytes: seq<Byte>)
    requires Sound(s) && MapsTo(s, p, flags, frame) && |bytes| == 4096
    ensures var after := s.(m := s.m[frame := FrameOf(bytes)]);
            MapsTo(after, p, flags, frame) && Holds(after, p, flags, bytes)
  {
    hide FrameOf, PageBytes, Walk;
    FramesAreBytes(ZERO_FRAME, bytes);
    UntouchedPermissions(s.m, s.m[frame := FrameOf(bytes)], s.root, s.own);
    OtherFramesUntouched(s.m, s.m[frame := FrameOf(bytes)], s.root, s.own);
  }

  lemma FillKeepsCharged(s: Space, s': Space, at: Path, frame: Pfn, contents: Frame)
    requires Extended(s, s', {at}) && !KernelSlot(s'.m, s'.root, at) && Charged(s, s', {at}) && frame !in s'.own
    ensures Charged(s, s'.(m := s'.m[frame := contents]), {at})
  {
    hide FramesFor, AllAbove, MissingPlaces, Walk;
    var m := s'.m[frame := contents];
    forall p | !KernelSlot(s.m, s.root, p)
      ensures !KernelSlot(s'.m, s.root, p) && MissingPlaces(m, s.root, p) == MissingPlaces(s'.m, s.root, p)
    {
      if p != at {
        assert SamePlace(s, s', p);
      }
      PlacesOfTables(s'.m, m, s.root, s'.own, p);
    }
  }

  /** Which tables are missing is decided by the tables there are. */
  lemma PlacesOfTables(m: Memory, m': Memory, root: Pfn, own: map<Pfn, Node>, at: Path)
    requires Shape(m, root, own) && (forall t :: t in own ==> m'[t] == m[t]) && !KernelSlot(m, root, at)
    ensures MissingPlaces(m', root, at) == MissingPlaces(m, root, at)
  {
    WalkStaysInTree(m, root, own, at);
  }

  /** A page that is not mapped yet can be mapped just when the space can grow by it. */
  lemma FreshFits(s: Space, p: U64)
    requires PageAddress(p) && Walk(s.m, s.root, Indexes(p)).Absent?
    ensures FreshPageOutcome(s.m, s.root, p, |s.free|).Ok? <==> CanGrow(s, {Indexes(p)})
  {
    hide Indexes, Walk, FramesFor;
    OnePage(s, Indexes(p));
  }
}
