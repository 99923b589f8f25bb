/** Runs of page-table requests: the radix tree stays a tree and acts as one flat map of pages. */
module PagingRuns {
  import opened Prelude
  import opened PageTables
  import opened FrameAllocation
  import opened Paging

  /** A 36-bit virtual page number. */
  type Vpn = v: nat | v < 0x10_0000_0000

  function PathOf(v: Vpn): Path {
    Path(v / 0x800_0000, v / 0x4_0000 % 512, v / 512 % 512, v % 512)
  }

  function VpnOf(at: Path): Vpn {
    at.i4 * 0x800_0000 + at.i3 * 0x4_0000 + at.i2 * 512 + at.i1
  }

  /** Page numbers and index paths name the same pages. */
  lemma PathsAreVpns(v: Vpn, at: Path)
    ensures VpnOf(PathOf(v)) == v && PathOf(VpnOf(at)) == at
  {
    PathOfVpn(at);
    var p3, p2 := v / 512, v / 512 / 512;
    var digits := Path(p2 / 512, p2 % 512, p3 % 512, v % 512);
    assert v == VpnOf(digits);
    PathOfVpn(digits);
  }

  lemma PathOfVpn(at: Path)
    ensures PathOf(VpnOf(at)) == at
  {
    var v := VpnOf(at);
    var p2 := at.i4 * 512 + at.i3;
    var p3 := p2 * 512 + at.i2;
    Quotient(v, 512, p3, at.i1);
    Quotient(v, 0x4_0000, p2, at.i2 * 512 + at.i1);
    Quotient(v, 0x800_0000, at.i4, at.i3 * 0x4_0000 + at.i2 * 512 + at.i1);
    Quotient(p3, 512, p2, at.i2);
    Quotient(p2, 512, at.i4, at.i3);
  }

  /** The walk of a canonical address is the walk of its page number: bits 12..47 and nothing else. */
  lemma IndexesOfPage(va: U64)
    requires Canonical(va)
    ensures Indexes(va) == PathOf(va / 4096 % 0x10_0000_0000)
  {
    var page := va / 4096;
    var p2 := page / 512;
    var p3 := p2 / 512;
    var p4 := p3 / 512;
    var q := p4 / 512;
    Digits(va, va % 4096, page % 512, p2 % 512, p3 % 512, p4 % 512, q);
  }

  lemma Digits(va: nat, off: nat, i1: Index, i2: Index, i3: Index, i4: Index, q: nat)
    requires off < 4096
    requires va == off + 4096 * (i1 + 512 * (i2 + 512 * (i3 + 512 * (i4 + 512 * q))))
    ensures va / 0x1000 % 512 == i1 && va / 0x20_0000 % 512 == i2
    ensures va / 0x4000_0000 % 512 == i3 && va / 0x80_0000_0000 % 512 == i4
    ensures PathOf(va / 4096 % 0x10_0000_0000) == Path(i4, i3, i2, i1)
  {
    var p4 := i4 + 512 * q;
    var p3 := i3 + 512 * p4;
    var p2 := i2 + 512 * p3;
    var page := i1 + 512 * p2;
    Quotient(va, 0x1000, page, off);
    Quotient(va, 0x20_0000, p2, off + 4096 * i1);
    Quotient(va, 0x4000_0000, p3, off + 4096 * i1 + 0x20_0000 * i2);
    Quotient(va, 0x80_0000_0000, p4, off + 4096 * i1 + 0x20_0000 * i2 + 0x4000_0000 * i3);
    Quotient(page, 512, p2, i1);
    Quotient(p2, 512, p3, i2);
    Quotient(p3, 512, p4, i3);
    Quotient(p4, 512, q, i4);
    var at := Path(i4, i3, i2, i1);
    Quotient(page, 0x10_0000_0000, q, VpnOf(at));
    PathsAreVpns(VpnOf(at), at);
  }

  type FlatMap = map<Vpn, Leaf>

  /** The translations of a space outside its kernel slots, as one finite map. */
  ghost function Flat(m: Memory, root: Pfn): FlatMap {
    map v: Vpn | 0 <= v < 0x10_0000_0000 && !KernelSlot(m, root, PathOf(v)) && Walk(m, root, PathOf(v)) != Absent
      :: Walk(m, root, PathOf(v))
  }

  datatype Request =
    | MapPage(va: U64, pa: U64, flags: Flags)
    | UnmapPage(va: U64)
    | ProtectPage(va: U64, flags: Flags)

  /** An address space with the frames still free beside it. */
  datatype Space = Space(m: Memory, root: Pfn, own: map<Pfn, Node>, free: set<nat>)

  ghost predicate Sound(s: Space) {
    Shape(s.m, s.root, s.own) && s.own.Keys !! s.free
  }

  /**
   The requests of `mmap`, `munmap` and `mprotect`: mappings and protections carry USER, and any address may be
   named.
   */
  predicate Admissible(q: Request) {
    match q
    case MapPage(_, _, flags) => flags.user
    case UnmapPage(va) => true
    case ProtectPage(va, flags) => flags.user
  }

  /** A request to unmap or protect a page in a kernel slot that has a 4 KiB page there: both succeed. */
  predicate TouchesKernel(s: Space, q: Request) {
    !q.MapPage? && KernelSlot(s.m, s.root, Indexes(q.va)) && Succeeds(s, q)
  }

  predicate Succeeds(s: Space, q: Request) {
    match q
    case MapPage(va, pa, flags) => MapOutcome(s.m, s.root, va, pa, flags.user, |s.free|).Ok?
    case UnmapPage(va) => UnmapOutcome(s.m, s.root, va).Ok?
    case ProtectPage(va, _) => ProtectOutcome(s.m, s.root, va).Ok?
  }

  function NewLeaf(q: Request, before: Leaf): Leaf
    requires q.ProtectPage? ==> before.Page4K?
  {
    match q
    case MapPage(_, pa, flags) => Page4K(LeafEntry(pa, flags))
    case UnmapPage(_) => Absent
    case ProtectPage(_, flags) => Page4K(Word(before.entry.pfn, flags.(present := true)))
  }

  function NewWord(q: Request, before: Leaf): Word
    requires !q.MapPage? && before.Page4K?
  {
    if q.UnmapPage? then ZERO else Word(before.entry.pfn, q.flags.(present := true))
  }

  /**
   What serving a request does to a space, whether it succeeds or fails: an edit of the tree, or one word written at
   the end of a walk through a kernel slot.
   */
  ghost predicate Step(s: Space, q: Request, s': Space) {
    if TouchesKernel(s, q) then
      var at := Indexes(q.va);
      s' == s.(m := Store(s.m, Level1(s.m, s.root, at), at.i1, NewWord(q, Walk(s.m, s.root, at))))
    else
      TreeStep(s, q, s') && forall f: Pfn :: f !in s'.own ==> s'.m[f] == s.m[f]
  }

  /** What it does to the tree, as long as that is not hit from the side. */
  ghost predicate TreeStep(s: Space, q: Request, s': Space) {
    var before := Walk(s.m, s.root, Indexes(q.va));
    && s'.root == s.root && Sound(s')
    && Grown(s.own, s'.own, s.free, s'.free)
    && RootKept(s.m, s'.m, s.root, Indexes(q.va))
    && (Plain(s.m, s.own) ==> Plain(s'.m, s'.own))
    && (Permissive(s.m, s.own) ==> Permissive(s'.m, s'.own)) && UserPathsKept(s.m, s'.m, s.root)
    && (q.MapPage? && Succeeds(s, q) ==> UserPath(s'.m, s.root, Indexes(q.va)))
    && Remapped(s.m, s'.m, s.root, Indexes(q.va),
                if Succeeds(s, q) && !TouchesKernel(s, q) then NewLeaf(q, before) else before)
  }

  /** Through a kernel slot the request writes another word into frame `f`. */
  ghost predicate Hits(s: Space, q: Request, f: Pfn) {
    && TouchesKernel(s, q)
    && var at := Indexes(q.va);
    f == Level1(s.m, s.root, at) && NewWord(q, Walk(s.m, s.root, at)) != Walk(s.m, s.root, at).entry
  }

  /** None of the process's own tables is hit. */
  ghost predicate SparesTree(s: Space, q: Request) {
    forall t :: t in s.own ==> !Hits(s, q, t)
  }

  /** A frame outside the tree, and with a request to a kernel slot any frame, stays if and only if it is not hit. */
  lemma FrameKeptIff(s: Space, q: Request, s': Space, f: Pfn)
    requires Step(s, q, s') && (TouchesKernel(s, q) || f !in s'.own)
    ensures s'.m[f] == s.m[f] <==> !Hits(s, q, f)
  {
    hide Indexes, Walk, Level1;
    if TouchesKernel(s, q) {
      Level1Word(s.m, s.root, Indexes(q.va));
    }
  }

  /** The tables of any tree stay under a request to a kernel slot if and only if none of them is hit. */
  lemma TablesKeptIff(s: Space, q: Request, s': Space, own: map<Pfn, Node>)
    requires Step(s, q, s') && TouchesKernel(s, q)
    ensures (forall t :: t in own ==> s'.m[t] == s.m[t]) <==> (forall t :: t in own ==> !Hits(s, q, t))
  {
    hide Step, Hits;
    forall t | t in own ensures s'.m[t] == s.m[t] <==> !Hits(s, q, t) {
      FrameKeptIff(s, q, s', t);
    }
  }

  /** A request that spares the process's tables acts on the tree as it should, or not at all. */
  lemma SparedTreeStep(s: Space, q: Request, s': Space)
    requires Sound(s) && Step(s, q, s') && SparesTree(s, q)
    ensures TreeStep(s, q, s')
  {
    hide Indexes, Walk, Level1, Plain, Hits, Permissive, UserPath;
    if TouchesKernel(s, q) {
      TablesKeptIff(s, q, s', s.own);
      RootIsOwned(s.m, s.root, s.own);
      OtherFramesUntouched(s.m, s'.m, s.root, s.own);
      PlainKept(s.m, s'.m, s.own);
      UntouchedPermissions(s.m, s'.m, s.root, s.own);
    }
  }

  lemma PlainKept(m: Memory, m': Memory, own: map<Pfn, Node>)
    requires forall t :: t in own ==> m'[t] == m[t]
    ensures Plain(m, own) ==> Plain(m', own)
  {
  }

  ghost function SpaceOf(pages: PageTableManager, alloc: FrameAllocator): Space
    reads pages, alloc
  {
    Space(pages.memory, pages.cr3, pages.own, alloc.Frames())
  }

  /** Each request of a run is served by one call of the page table manager. */
  method Serve(pages: PageTableManager, q: Request, alloc: FrameAllocator) returns (ok: bool)
    requires pages.Valid() && alloc.Supplies() && pages.own.Keys !! alloc.Frames() && Admissible(q)
    modifies pages`own, pages`memory, pages.ram, alloc
    ensures pages.Backed() && alloc.Supplies() && pages.own.Keys !! alloc.Frames()
    ensures ok == old(Succeeds(SpaceOf(pages, alloc), q))
    ensures Step(old(SpaceOf(pages, alloc)), q, SpaceOf(pages, alloc))
    ensures old(SparesTree(SpaceOf(pages, alloc), q)) || q.UnmapPage? ==> pages.Valid()
  {
    hide FrameAllocator.Supplies, FrameAllocator.Frames, Shape, Step, Indexes, Walk, Rewritten;
    hide MapKept, Hits, SparesTree;
    ghost var s := SpaceOf(pages, alloc);
    match q {
      case MapPage(va, pa, flags) =>
        var r := pages.Map4K(va, pa, flags, alloc);
        ok := r.Ok?;
        MapIsStep(s, q, SpaceOf(pages, alloc));
      case UnmapPage(va) =>
        var r := pages.Unmap4K(va);
        ok := r.Ok?;
        RewriteIsStep(s, q, SpaceOf(pages, alloc));
      case ProtectPage(va, flags) =>
        var r := pages.Protect4K(va, flags);
        ok := r.Ok?;
        RewriteIsStep(s, q, SpaceOf(pages, alloc));
    }
    if SparesTree(s, q) {
      SparedTreeStep(s, q, SpaceOf(pages, alloc));
    }
  }

  lemma MapIsStep(s: Space, q: Request, s': Space)
    requires Sound(s) && Admissible(q) && q.MapPage? && s'.root == s.root && Sound(s')
    requires MapKept(s.m, s'.m, s.root, s.own, s'.own, s.free, s'.free, Indexes(q.va),
                     if Succeeds(s, q) then NewLeaf(q, Walk(s.m, s.root, Indexes(q.va)))
                     else Walk(s.m, s.root, Indexes(q.va)),
                     true)
    requires Succeeds(s, q) ==> UserPath(s'.m, s.root, Indexes(q.va))
    ensures Step(s, q, s')
  {
    hide Shape, Indexes, Walk, Plain, Grown, RootKept, Permissive, UserPath;
  }

  lemma RewriteIsStep(s: Space, q: Request, s': Space)
    requires Sound(s) && Admissible(q) && !q.MapPage? && s' == s.(m := s'.m)
    requires var before := Walk(s.m, s.root, Indexes(q.va));
             Rewritten(s.m, s'.m, s.root, s.own, Indexes(q.va), Succeeds(s, q),
                       if q.ProtectPage? && before.Page4K? then Word(before.entry.pfn, q.flags.(present := true))
                       else ZERO)
    ensures Step(s, q, s')
  {
    hide Shape, Indexes, Walk, Opens, Permissive, UserPath;
    RootIsOwned(s.m, s.root, s.own);
  }

  // The flat map a run is held against.

  function PageOf(va: U64): Vpn {
    va / 4096 % 0x10_0000_0000
  }

  function FlatStep(flat: FlatMap, q: Request, ok: bool): FlatMap {
    var v := PageOf(q.va);
    if !ok then flat
    else
      match q
      case MapPage(_, pa, flags) => flat[v := Page4K(LeafEntry(pa, flags))]
      case UnmapPage(_) => flat - {v}
      case ProtectPage(_, _) => if v in flat && flat[v].Page4K? then flat[v := NewLeaf(q, flat[v])] else flat
  }

  /**
   Which answers a flat map allows: outside the kernel slots a request succeeds for reasons visible in it, or fails
   for want of frames.
   */
  predicate AnswerFits(flat: FlatMap, q: Request, ok: bool, kernel: bool, free: nat) {
    match q
    case MapPage(va, pa, flags) =>
      var legal := va < USER_LIMIT && va % 4096 == 0 && pa % 4096 == 0 && !kernel && PageOf(q.va) !in flat;
      (ok ==> legal) && (legal && 3 <= free ==> ok)
    case _ =>
      !kernel ==> (ok <==> Canonical(q.va) && q.va % 4096 == 0 && PageOf(q.va) in flat && flat[PageOf(q.va)].Page4K?)
  }

  /** A page of the flat map, read off the walk. */
  ghost predicate FlatAt(flat: FlatMap, m: Memory, root: Pfn, v: Vpn) {
    if KernelSlot(m, root, PathOf(v)) || Walk(m, root, PathOf(v)).Absent? then v !in flat
    else v in flat && flat[v] == Walk(m, root, PathOf(v))
  }

  lemma AnswersFit(s: Space, q: Request)
    requires Admissible(q)
    ensures AnswerFits(Flat(s.m, s.root), q, Succeeds(s, q), KernelSlot(s.m, s.root, Indexes(q.va)), |s.free|)
  {
    if Canonical(q.va) {
      IndexesOfPage(q.va);
      assert FlatAt(Flat(s.m, s.root), s.m, s.root, PageOf(q.va));
    }
  }

  lemma OtherPagesStay(s: Space, q: Request, s': Space, u: Vpn)
    requires TreeStep(s, q, s')
    requires Canonical(q.va) ==> u != PageOf(q.va) || !Succeeds(s, q) || TouchesKernel(s, q)
    ensures KernelSlot(s'.m, s.root, PathOf(u)) == KernelSlot(s.m, s.root, PathOf(u))
    ensures !KernelSlot(s.m, s.root, PathOf(u)) ==> Walk(s'.m, s.root, PathOf(u)) == Walk(s.m, s.root, PathOf(u))
  {
    if Canonical(q.va) {
      IndexesOfPage(q.va);
      PathsAreVpns(u, PathOf(u));
      PathsAreVpns(PageOf(q.va), PathOf(PageOf(q.va)));
    }
  }

  /** Pages in kernel slots are none of the flat map's. */
  lemma TouchedIsNotFlat(s: Space, q: Request)
    requires TouchesKernel(s, q)
    ensures PageOf(q.va) !in Flat(s.m, s.root)
  {
    IndexesOfPage(q.va);
  }

  lemma FlatStepAt(s: Space, q: Request, s': Space, u: Vpn)
    requires Sound(s) && Admissible(q) && TreeStep(s, q, s')
    ensures FlatAt(FlatStep(Flat(s.m, s.root), q, Succeeds(s, q)), s'.m, s'.root, u)
  {
    hide PathOf, Indexes, Walk, Shape, Grown, Plain, RootKept, Succeeds;
    var flat := Flat(s.m, s.root);
    AnswersFit(s, q);
    assert FlatAt(flat, s.m, s.root, u);
    if Succeeds(s, q) && u == PageOf(q.va) && !TouchesKernel(s, q) {
      IndexesOfPage(q.va);
    } else {
      if TouchesKernel(s, q) {
        TouchedIsNotFlat(s, q);
      }
      OtherPagesStay(s, q, s', u);
    }
  }

  lemma TreeStepRoot(s: Space, q: Request, s': Space)
    requires TreeStep(s, q, s')
    ensures s'.root == s.root
  {
  }

  /** One request moves the flat map at the page it names and nowhere else. */
  lemma StepIsFlatStep(s: Space, q: Request, s': Space)
    requires Sound(s) && Admissible(q) && Step(s, q, s') && SparesTree(s, q)
    ensures Flat(s'.m, s'.root) == FlatStep(Flat(s.m, s.root), q, Succeeds(s, q))
  {
    hide PathOf, Indexes, FlatStep, Walk, Step, TreeStep, SparesTree, Succeeds;
    SparedTreeStep(s, q, s');
    assert s'.root == s.root by {
      TreeStepRoot(s, q, s');
    }
    var flat', stepped := Flat(s'.m, s'.root), FlatStep(Flat(s.m, s.root), q, Succeeds(s, q));
    forall u: Vpn ensures (u in flat' <==> u in stepped) && (u in flat' ==> flat'[u] == stepped[u]) {
      assert FlatAt(flat', s'.m, s'.root, u);
      FlatStepAt(s, q, s', u);
    }
  }

  // Whole runs.

  ghost predicate IsRun(run: seq<Space>, requests: seq<Request>) {
    && |run| == |requests| + 1
    && Sound(run[0])
    && forall k :: 0 <= k < |requests| ==> Admissible(requests[k]) && Step(run[k], requests[k], run[k + 1])
  }

  /** No request of the run hits the process's own tables; a request outside the kernel slots never does. */
  ghost predicate RunSparesTree(run: seq<Space>, requests: seq<Request>)
    requires |run| == |requests| + 1
  {
    forall k :: 0 <= k < |requests| ==> SparesTree(run[k], requests[k])
  }

  ghost predicate NeverHit(run: seq<Space>, requests: seq<Request>, f: Pfn)
    requires |run| == |requests| + 1
  {
    forall k :: 0 <= k < |requests| ==> !Hits(run[k], requests[k], f)
  }

  /** The flat map after a sequence of requests with the given answers. */
  function Replay(flat: FlatMap, requests: seq<Request>, answers: seq<bool>): FlatMap
    requires |requests| == |answers|
  {
    if requests == [] then flat
    else
      var n := |requests| - 1;
      FlatStep(Replay(flat, requests[..n], answers[..n]), requests[n], answers[n])
  }

  ghost function Answers(run: seq<Space>, requests: seq<Request>): seq<bool>
    requires |run| == |requests| + 1
  {
    seq(|requests|, k requires 0 <= k < |requests| => Succeeds(run[k], requests[k]))
  }

  /**
   Over every run that does not hit its own tables the tree keeps its shape and translation is one flat map,
   replayed request by request; a frame outside the tree that is never hit stays as it was.
   */
  lemma {:induction false} RunRefinesFlatMap(run: seq<Space>, requests: seq<Request>)
    requires IsRun(run, requests) && RunSparesTree(run, requests)
    ensures Sound(run[|requests|]) && run[|requests|].root == run[0].root
    ensures Plain(run[0].m, run[0].own) ==> Plain(run[|requests|].m, run[|requests|].own)
    ensures Permissive(run[0].m, run[0].own) ==> Permissive(run[|requests|].m, run[|requests|].own)
    ensures Grown(run[0].own, run[|requests|].own, run[0].free, run[|requests|].free)
    ensures forall f: Pfn :: f !in run[|requests|].own && NeverHit(run, requests, f) ==>
              run[|requests|].m[f] == run[0].m[f]
    ensures Flat(run[|requests|].m, run[|requests|].root)
            == Replay(Flat(run[0].m, run[0].root), requests, Answers(run, requests))
  {
    hide Flat, FlatStep, Succeeds, Plain, Permissive, Shape, Step, Hits, SparesTree, Grown;
    if requests != [] {
      var n := |requests| - 1;
      RunRefinesFlatMap(run[..n + 1], requests[..n]);
      assert Answers(run[..n + 1], requests[..n]) == Answers(run, requests)[..n];
      StepIsFlatStep(run[n], requests[n], run[n + 1]);
      OneMoreStep(run[0], run[n], requests[n], run[n + 1]);
      forall f: Pfn | f !in run[n + 1].own && NeverHit(run, requests, f) ensures run[n + 1].m[f] == run[0].m[f] {
        assert NeverHit(run[..n + 1], requests[..n], f);
        assert !Hits(run[n], requests[n], f);
      }
    } else {
      GrownNot(run[0].own, run[0].free);
    }
  }

  lemma GrownNot(own: map<Pfn, Node>, free: set<nat>)
    ensures Grown(own, own, free, free)
  {
  }

  lemma OneMoreStep(s0: Space, s: Space, q: Request, s': Space)
    requires Sound(s) && Step(s, q, s') && SparesTree(s, q) && Grown(s0.own, s.own, s0.free, s.free)
    ensures Sound(s') && s'.root == s.root && (Plain(s.m, s.own) ==> Plain(s'.m, s'.own))
    ensures Permissive(s.m, s.own) ==> Permissive(s'.m, s'.own)
    ensures Grown(s0.own, s'.own, s0.free, s'.free) && s.own.Keys <= s'.own.Keys
    ensures forall f: Pfn :: f !in s'.own && !Hits(s, q, f) ==> s'.m[f] == s.m[f]
  {
    hide Succeeds, Plain, Permissive, UserPath, Shape, Walk, Indexes, KernelSlot, RootKept, Remapped;
    hide Hits, SparesTree, Step;
    SparedTreeStep(s, q, s');
    forall f: Pfn | f !in s'.own && !Hits(s, q, f) ensures s'.m[f] == s.m[f] {
      FrameKeptIff(s, q, s', f);
    }
  }

  /** In a plain tree, outside the kernel slots, every mapped page is a 4 KiB page behind USER entries. */
  lemma PlainPath(m: Memory, root: Pfn, own: map<Pfn, Node>, at: Path)
    requires Shape(m, root, own) && Plain(m, own) && !KernelSlot(m, root, at) && !Walk(m, root, at).Absent?
    ensures UserPath(m, root, at) && UserPage(m, root, at)
  {
    WalkStaysInTree(m, root, own, at);
  }

  /**
   After a run from a plain tree whose links allow everything, the processor allows for every page of the flat map
   exactly what its flags say.
   */
  lemma RunPermits(run: seq<Space>, requests: seq<Request>, at: Path)
    requires IsRun(run, requests) && RunSparesTree(run, requests)
    requires Plain(run[0].m, run[0].own) && Permissive(run[0].m, run[0].own)
    ensures var s := run[|requests|];
            !KernelSlot(s.m, s.root, at) && !Walk(s.m, s.root, at).Absent? ==>
              Permitted(s.m, s.root, at, Walk(s.m, s.root, at).entry.flags) && UserPage(s.m, s.root, at)
  {
    hide Shape, Plain, Permissive, Step, RunSparesTree, Walk, KernelSlot, UserPath, UserPage;
    RunRefinesFlatMap(run, requests);
    var s := run[|requests|];
    if !KernelSlot(s.m, s.root, at) && !Walk(s.m, s.root, at).Absent? {
      PlainPath(s.m, s.root, s.own, at);
      UserPageIs4K(s.m, s.root, at);
      MappedPermissions(s.m, s.root, s.own, at, Walk(s.m, s.root, at).entry);
    }
  }

  lemma UserPageIs4K(m: Memory, root: Pfn, at: Path)
    requires UserPage(m, root, at)
    ensures Walk(m, root, at).Page4K?
  {
  }

  /** A failing request changes no translation, even after it has installed tables on the way. */
  lemma FailureChangesNothing(s: Space, q: Request, s': Space)
    requires Sound(s) && Admissible(q) && Step(s, q, s') && !Succeeds(s, q)
    ensures Flat(s'.m, s'.root) == Flat(s.m, s.root)
  {
    StepIsFlatStep(s, q, s');
  }

  // The recursive slot.

  /** Kernel entry `r` leads to the level-4 table `parent`, whose own entry `r` leads back to it. */
  predicate Recursive(m: Memory, root: Pfn, r: Index, parent: Pfn) {
    && m[root][r].flags.present && !m[root][r].flags.user && m[root][r].pfn == parent
    && m[parent][r].flags.present && !m[parent][r].flags.huge && m[parent][r].pfn == parent
  }

  /**
   The boot loader sets such an entry up, and fork and exec copy it: `munmap` of the page at indices r, r, r, j
   clears entry j of the table it leads to, the process's own or its parent's, and nothing below that entry is
   mapped there any more.
   */
  lemma RecursiveUnmap(s: Space, s': Space, r: Index, parent: Pfn, j: Index, va: U64)
    requires Recursive(s.m, s.root, r, parent) && s.m[parent][j].flags.present
    requires Canonical(va) && va % 4096 == 0 && Indexes(va) == Path(r, r, r, j) && Step(s, UnmapPage(va), s')
    ensures Succeeds(s, UnmapPage(va)) && Hits(s, UnmapPage(va), parent)
    ensures s'.m == Store(s.m, parent, j, ZERO)
    ensures forall at: Path :: at.i4 == j ==> Walk(s'.m, parent, at).Absent?
  {
    hide Indexes, TreeStep;
    assert Walk(s.m, s.root, Path(r, r, r, j)) == Page4K(s.m[parent][j]);
    assert s'.m[parent][j] == ZERO;
  }

  /** Every path has a page-aligned canonical address. */
  lemma AddressOfPath(at: Path) returns (va: U64)
    ensures Canonical(va) && va % 4096 == 0 && Indexes(va) == at
  {
    hide Indexes, PathOf;
    PathsAreVpns(VpnOf(at), at);
    var v: nat, high: nat := VpnOf(at), if at.i4 < 256 then 0 else 0xffff;
    va := 4096 * (v + high * 0x10_0000_0000);
    Quotient(va, 4096, v + high * 0x10_0000_0000, 0);
    Quotient(v + high * 0x10_0000_0000, 0x10_0000_0000, high, v);
    IndexesOfPage(va);
  }
}
