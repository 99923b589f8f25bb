/** The page table manager: mapping, unmapping and protecting 4 KiB pages in place. */
module Paging {
  import opened Prelude
  import opened PageTables
  import opened FrameAllocation

  datatype MapError =
    NonCanonicalAddress | AlreadyMapped | HugePageConflict | OutOfMemory | InvalidPhysicalAddress | KernelMapping

  datatype UnmapError = UnmapNonCanonical | NotMapped | HugePage

  /** A present, writable entry for a table frame, USER when the mapping asks for it. */
  function TableLink(frame: Pfn, user: bool): Word {
    Word(frame, NO_FLAGS.(present := true, write := true, user := user))
  }

  function LeafEntry(pa: U64, flags: Flags): Word {
    Word(pa / 4096 % 0x100_0000_0000, flags.(present := true))
  }

  /** Outside kernel slots the translation of `at` becomes `leaf` and no other translation changes. */
  ghost predicate Remapped(m: Memory, m': Memory, root: Pfn, at: Path, leaf: Leaf) {
    forall p :: !KernelSlot(m, root, p) ==>
      !KernelSlot(m', root, p) && Walk(m', root, p) == if p == at then leaf else Walk(m, root, p)
  }

  /** Level-4 entries elsewhere stay, and a kernel entry stays wherever it is. */
  ghost predicate RootKept(m: Memory, m': Memory, root: Pfn, at: Path) {
    forall i: Index :: i != at.i4 || KernelSlot(m, root, at) ==> m'[root][i] == m[root][i]
  }

  predicate OpenSucceeds(m: Memory, root: Pfn, at: Path, user: bool, free: nat) {
    && !(user && KernelSlot(m, root, at))
    && !Walk(m, root, at).Page1G? && !Walk(m, root, at).Page2M?
    && MissingTables(m, root, at) <= free
  }

  function OpenError(m: Memory, root: Pfn, at: Path, user: bool): MapError {
    if user && KernelSlot(m, root, at) then KernelMapping
    else if Walk(m, root, at).Page1G? || Walk(m, root, at).Page2M? then HugePageConflict
    else OutOfMemory
  }

  /** What is decided below the checks of the addresses. */
  function PathOutcome(m: Memory, root: Pfn, at: Path, user: bool, free: nat): Result<(), MapError> {
    if user && KernelSlot(m, root, at) then Err(KernelMapping)
    else
      match Walk(m, root, at)
      case Page1G(_) => Err(HugePageConflict)
      case Page2M(_) => Err(HugePageConflict)
      case Page4K(_) => Err(AlreadyMapped)
      case Absent => if free < MissingTables(m, root, at) then Err(OutOfMemory) else Ok(())
  }

  /** What `map_4k` answers, from the translation before the call and the number of free frames. */
  function MapOutcome(m: Memory, root: Pfn, va: U64, pa: U64, user: bool, free: nat): Result<(), MapError> {
    if !Canonical(va) then Err(NonCanonicalAddress)
    else if va % 4096 != 0 || pa % 4096 != 0 then Err(InvalidPhysicalAddress)
    else if user && va >= USER_LIMIT then Err(NonCanonicalAddress)
    else PathOutcome(m, root, Indexes(va), user, free)
  }

  /** The walk stops at an absent level-3 or level-2 entry whose bit 7 is nevertheless set. */
  predicate StopsAtHugeBit(m: Memory, root: Pfn, at: Path) {
    var e4 := m[root][at.i4];
    e4.flags.present &&
    var e3 := m[e4.pfn][at.i3];
    e3.flags.huge || (e3.flags.present && var e2 := m[e3.pfn][at.i2]; !e2.flags.present && e2.flags.huge)
  }

  /** `unmap_4k` tests bit 7 of an entry it has found absent, and then reports HugePage. */
  function UnmapOutcome(m: Memory, root: Pfn, va: U64): Result<U64, UnmapError> {
    if !Canonical(va) then Err(UnmapNonCanonical)
    else if va % 4096 != 0 then Err(NotMapped)
    else
      match Walk(m, root, Indexes(va))
      case Absent => Err(if StopsAtHugeBit(m, root, Indexes(va)) then HugePage else NotMapped)
      case Page4K(e) => Ok(e.pfn * 4096)
      case _ => Err(HugePage)
  }

  /** `protect_4k` reports an absent page as AlreadyMapped or HugePageConflict, by the level it is absent at. */
  function ProtectOutcome(m: Memory, root: Pfn, va: U64): Result<(), MapError> {
    var at := Indexes(va);
    if !Canonical(va) then Err(NonCanonicalAddress)
    else if va % 4096 != 0 then Err(InvalidPhysicalAddress)
    else if Walk(m, root, at).Page4K? then Ok(())
    else if Walk(m, root, at).Absent? && MissingTables(m, root, at) in {0, 3} then Err(AlreadyMapped)
    else Err(HugePageConflict)
  }

  /** What the level-2 entry decides once the tables above it are open. */
  lemma Level2Decides(m: Memory, m': Memory, root: Pfn, at: Path, t: Pfn, user: bool)
    requires SameWalks(m, m', root) && !(user && KernelSlot(m, root, at)) && (!user ==> !KernelSlot(m, root, at))
    requires LeadsToL2(m', root, at, t)
    ensures var e := m'[t][at.i2].flags;
            && MissingTables(m', root, at) == (if e.present then 0 else 1)
            && OpenError(m, root, at, user) == (if e.present && e.huge then HugePageConflict else OutOfMemory)
            && forall free :: OpenSucceeds(m, root, at, user, free) <==>
                 !(e.present && e.huge) && MissingTables(m, root, at) <= free
  {
    assert Walk(m', root, at) == Walk(m, root, at);
  }

  /** What the level-3 entry decides once its table is open. */
  lemma Level3Decides(m: Memory, m': Memory, root: Pfn, at: Path, user: bool)
    requires SameWalks(m, m', root) && !(user && KernelSlot(m, root, at)) && (!user ==> !KernelSlot(m, root, at))
    requires Links(N4, m'[root][at.i4])
    ensures var e := m'[m'[root][at.i4].pfn][at.i3].flags;
            && (!e.present ==> MissingTables(m', root, at) == 2)
            && (e.present && e.huge ==> MissingTables(m', root, at) == 0)
            && (e.present && e.huge ==> OpenError(m, root, at, user) == HugePageConflict && Walk(m, root, at).Page1G?)
            && (!e.present ==> OpenError(m, root, at, user) == OutOfMemory)
  {
    assert Walk(m', root, at) == Walk(m, root, at);
  }

  /** What `translate` reports: the page, the physical address and the entry's flags. */
  datatype Mapping = Mapping(virtualAddress: U64, physicalAddress: nat, flags: Flags, pageSize: nat)

  const GIB: nat := 0x4000_0000
  const MIB2: nat := 0x20_0000

  /** The mapping a walk stands for; a 1 GiB entry loses address bits 30 to 37 to the mask of paging.rs line 263. */
  function MappingOf(leaf: Leaf, va: U64): Option<Mapping> {
    match leaf
    case Absent => None
    case Page4K(e) => Some(Mapping(va - va % 4096, e.pfn * 4096 + va % 4096, e.flags, 4096))
    case Page2M(e) => Some(Mapping(va - va % MIB2, e.pfn / 512 * MIB2 + va % MIB2, e.flags, MIB2))
    case Page1G(e) => Some(Mapping(va - va % GIB, e.pfn / 0x400_0000 * 0x40_0000_0000 + va % GIB, e.flags, GIB))
  }

  /** The physical address the processor forms (Intel SDM volume 3A, tables 4-15, 4-17 and 4-20). */
  function HardwareAddress(leaf: Leaf, va: U64): Option<nat> {
    match leaf
    case Absent => None
    case Page4K(e) => Some(e.pfn * 4096 + va % 4096)
    case Page2M(e) => Some(e.pfn / 512 * MIB2 + va % MIB2)
    case Page1G(e) => Some(e.pfn / 0x4_0000 * GIB + va % GIB)
  }

  /**
   `translate` agrees with the processor on every leaf but a 1 GiB page whose address bits 30 to 37 are not all
   zero.
   */
  lemma TranslateAgreesWithHardware(leaf: Leaf, va: U64)
    ensures (leaf.Absent?
              || (MappingOf(leaf, va).Some?
                  && Some(MappingOf(leaf, va).value.physicalAddress) == HardwareAddress(leaf, va)))
            <==> (leaf.Page1G? ==> leaf.entry.pfn / 0x4_0000 % 256 == 0)
  {
    if leaf.Page1G? {
      var n := leaf.entry.pfn / 0x4_0000;
      Quotient(leaf.entry.pfn, 0x400_0000, n / 256, n % 256 * 0x4_0000 + leaf.entry.pfn % 0x4_0000);
    }
  }

  /** The frame a page's address falls into. */
  function TargetFrame(leaf: Leaf, va: U64): Pfn
    requires !leaf.Absent?
  {
    match leaf
    case Page4K(e) => e.pfn
    case Page2M(e) => e.pfn / 512 * 512 + va / 4096 % 512
    case Page1G(e) => e.pfn / 0x4_0000 * 0x4_0000 + va / 4096 % 0x4_0000
  }

  lemma TargetIsHardwareAddress(leaf: Leaf, va: U64)
    requires !leaf.Absent?
    ensures HardwareAddress(leaf, va) == Some(TargetFrame(leaf, va) * 4096 + va % 4096)
  {
    var page := va / 4096;
    Quotient(va, MIB2, page / 512, page % 512 * 4096 + va % 4096);
    Quotient(va, GIB, page / 0x4_0000, page % 0x4_0000 * 4096 + va % 4096);
  }

  lemma RootIsOwned(m: Memory, root: Pfn, own: map<Pfn, Node>)
    requires Shape(m, root, own)
    ensures root in own && own[root] == N4 && SameWalks(m, m, root)
  {
  }

  lemma AbsentRoot(m: Memory, root: Pfn, at: Path)
    ensures !m[root][at.i4].flags.present ==> Walk(m, root, at).Absent? && MissingTables(m, root, at) == 3
  {
  }

  /** Tables were added to a tree and no translation changed. */
  ghost predicate Grows(m: Memory, m': Memory, root: Pfn, own: map<Pfn, Node>, own': map<Pfn, Node>,
                        free: set<nat>, free': set<nat>, user: bool) {
    && Grown(own, own', free, free')
    && SameWalks(m, m', root)
    && (user && Plain(m, own) ==> Plain(m', own'))
    && UserPathsKept(m, m', root) && (Permissive(m, own) ==> Permissive(m', own'))
    && forall f: Pfn :: f !in own' ==> m'[f] == m[f]
  }

  lemma GrowsTwice(m0: Memory, m1: Memory, m2: Memory, root: Pfn, own0: map<Pfn, Node>, own1: map<Pfn, Node>,
                   own2: map<Pfn, Node>,
                   free0: set<nat>, free1: set<nat>, free2: set<nat>, user: bool)
    requires Grows(m0, m1, root, own0, own1, free0, free1, user) && Grows(m1, m2, root, own1, own2, free1, free2, user)
    ensures Grows(m0, m2, root, own0, own2, free0, free2, user)
  {
    hide Plain, Walk, Permissive, UserPath;
  }

  lemma NothingGrows(m: Memory, root: Pfn, own: map<Pfn, Node>, free: set<nat>, user: bool)
    ensures Grows(m, m, root, own, own, free, free, user)
  {
  }

  lemma FreshTableGrows(m: Memory, root: Pfn, own: map<Pfn, Node>, free: set<nat>, t: Pfn, i: Index, frame: Pfn,
                        user: bool)
    requires Shape(m, root, own) && own.Keys !! free && frame in free && t in own && !m[t][i].flags.present
    requires own[t].N3? || own[t].N2? || (own[t].N4? && user)
    ensures var m', own' := Store(m[frame := ZERO_FRAME], t, i, TableLink(frame, user)), own[frame := Sub(own[t], i)];
            && Grows(m, m', root, own, own', free, free - {frame}, user)
            && Opened(m, m', own, own[t], t, i) && Shape(m', root, own')
  {
    LinkFreshTable(m, root, own, t, i, TableLink(frame, user));
    LinkKeepsPermissions(m, root, own, t, i, TableLink(frame, user));
    hide Shape, SameWalks;
  }

  lemma PromotionGrows(m: Memory, root: Pfn, own: map<Pfn, Node>, free: set<nat>, t: Pfn, i: Index, user: bool)
    requires Shape(m, root, own) && t in own && (own[t].N3? || own[t].N2?) && Links(own[t], m[t][i])
    ensures var w := m[t][i]; var m' := Store(m, t, i, w.(flags := w.flags.(user := true)));
            Grows(m, m', root, own, own, free, free, user) && Opened(m, m', own, own[t], t, i) && Shape(m', root, own)
  {
    PromoteLink(m, root, own, t, i);
    PromotionKeepsPermissions(m, root, own, t, i);
    hide Shape, SameWalks;
  }

  lemma OpenedKeepsRoot(m: Memory, m': Memory, root: Pfn, own: map<Pfn, Node>, n: Node, t: Pfn, i: Index, at: Path)
    requires Opened(m, m', own, n, t, i) && root in own && own[root] == N4
    requires n.N4? ==> t == root && i == at.i4 && !KernelSlot(m, root, at)
    ensures RootKept(m, m', root, at)
  {
  }

  lemma OpenedUpper(m0: Memory, m1: Memory, m2: Memory, root: Pfn, own0: map<Pfn, Node>, own1: map<Pfn, Node>, at: Path)
    requires Shape(m0, root, own0) && SameWalks(m0, m1, root) && Opened(m0, m1, own0, N4, root, at.i4)
    requires Shape(m1, root, own1) && Opened(m1, m2, own1, N3(at.i4), m1[root][at.i4].pfn, at.i3)
    ensures Opens(m0, m2, root, {N3(at.i4), N2(at.i4, at.i3)})
  {
    hide Shape, SameWalks, Opens;
    OpenedPlace(m0, m1, root, own0, at, N4, root, at.i4);
    OpenedPlace(m1, m2, root, own1, at, N3(at.i4), m1[root][at.i4].pfn, at.i3);
    OpensTwice(m0, m1, m2, root, {N3(at.i4)}, {N2(at.i4, at.i3)});
    assert {N3(at.i4)} + {N2(at.i4, at.i3)} == {N3(at.i4), N2(at.i4, at.i3)};
  }

  lemma SameKeepsRoot(m: Memory, root: Pfn, at: Path)
    ensures RootKept(m, m, root, at)
  {
  }

  /** The upper two of the entries above a page are USER. */
  predicate UserTop(m: Memory, root: Pfn, at: Path) {
    m[root][at.i4].flags.user && m[m[root][at.i4].pfn][at.i3].flags.user
  }

  lemma OpenedUserTop(m: Memory, m': Memory, root: Pfn, own: map<Pfn, Node>, at: Path)
    requires Shape(m, root, own) && Links(N4, m[root][at.i4]) && m'[m[root][at.i4].pfn][at.i3].flags.user
    requires Opened(m, m', own, N3(at.i4), m[root][at.i4].pfn, at.i3)
    ensures UserTop(m', root, at)
  {
  }

  lemma OpenedUserPath(m: Memory, m': Memory, root: Pfn, own: map<Pfn, Node>, at: Path, t: Pfn)
    requires Shape(m, root, own) && LeadsToL2(m, root, at, t) && UserTop(m, root, at) && m'[t][at.i2].flags.user
    requires Opened(m, m', own, N2(at.i4, at.i3), t, at.i2)
    ensures UserPath(m', root, at)
  {
    WalkStaysInTree(m, root, own, at);
  }

  lemma RootKeptTwice(m0: Memory, m1: Memory, m2: Memory, root: Pfn, at: Path)
    requires RootKept(m0, m1, root, at) && RootKept(m1, m2, root, at)
    ensures RootKept(m0, m2, root, at)
  {
  }

  /** What is known once the level-4 entry of a path is open. */
  lemma OpenedRoot(m: Memory, m': Memory, root: Pfn, own: map<Pfn, Node>, own': map<Pfn, Node>, free: set<nat>,
                   free': set<nat>,
                   at: Path, user: bool)
    requires Shape(m, root, own) && Shape(m', root, own') && Opened(m, m', own, N4, root, at.i4)
    requires Grows(m, m', root, own, own', free, free', user) && !KernelSlot(m, root, at)
    ensures RootKept(m, m', root, at) && Links(N4, m'[root][at.i4]) && SameWalks(m, m', root)
    ensures var t := m'[root][at.i4].pfn;
            && t in own' && own'[t] == N3(at.i4)
            && var e := m'[t][at.i3].flags;
            (!e.present ==> MissingTables(m', root, at) == 2 && OpenError(m, root, at, user) == OutOfMemory)
            && (e.present && e.huge ==> OpenError(m, root, at, user) == HugePageConflict && Walk(m, root, at).Page1G?)
    ensures MissingTables(m, root, at) == if m[root][at.i4].flags.present then MissingTables(m', root, at) else 3
    ensures !m[root][at.i4].flags.present ==> !m'[m'[root][at.i4].pfn][at.i3].flags.present
  {
    hide Plain, Walk, Grown, SameWalks;
    OpenedKeepsRoot(m, m', root, own, N4, root, at.i4, at);
    MissingAt(m, m', root, own, at, N4, root, at.i4, at);
    Level3Decides(m, m', root, at, user);
  }

  /** What is known once the level-2 table of a path is reached. */
  lemma OpenedLevel3Table(m: Memory, m': Memory, root: Pfn, own: map<Pfn, Node>, own': map<Pfn, Node>,
                          free: set<nat>, free': set<nat>, at: Path, t: Pfn, user: bool)
    requires Shape(m', root, own') && LeadsToL2(m', root, at, t)
    requires Grows(m, m', root, own, own', free, free', user) && !KernelSlot(m, root, at)
    ensures t in own' && own'[t] == N2(at.i4, at.i3) && SameWalks(m, m', root)
    ensures var e := m'[t][at.i2].flags;
            && MissingTables(m', root, at) == (if e.present then 0 else 1)
            && OpenError(m, root, at, user) == (if e.present && e.huge then HugePageConflict else OutOfMemory)
            && forall free :: OpenSucceeds(m, root, at, user, free) <==>
                 !(e.present && e.huge) && MissingTables(m, root, at) <= free
  {
    hide Plain, Walk, Grown, SameWalks, Shape, OpenError, OpenSucceeds;
    LeadsInTree(m', root, own', at);
    Level2Decides(m, m', root, at, t, user);
  }

  /** In a tree the paths that are not free of USER checks are those outside the kernel slots. */
  lemma OpenForWhom(m: Memory, root: Pfn, at: Path, user: bool)
    requires !user ==> m[root][at.i4].flags.present && m[root][at.i4].flags.user
    ensures !(user && KernelSlot(m, root, at)) ==> !KernelSlot(m, root, at)
  {
  }

  lemma OpenedPath(m0: Memory, m1: Memory, m2: Memory, root: Pfn, own1: map<Pfn, Node>, at: Path, t: Pfn)
    requires SameWalks(m0, m1, root) && Opens(m0, m1, root, {N3(at.i4), N2(at.i4, at.i3)})
    requires Shape(m1, root, own1) && LeadsToL2(m1, root, at, t) && Opened(m1, m2, own1, N2(at.i4, at.i3), t, at.i2)
    ensures Opens(m0, m2, root, Above(at))
  {
    hide Shape, Walk, Opens, LeadsToL2, Opened;
    OpenedPlace(m1, m2, root, own1, at, N2(at.i4, at.i3), t, at.i2);
    OpensTwice(m0, m1, m2, root, {N3(at.i4), N2(at.i4, at.i3)}, {N1(at.i4, at.i3, at.i2)});
    assert {N3(at.i4), N2(at.i4, at.i3)} + {N1(at.i4, at.i3, at.i2)} == Above(at);
  }

  /** A level-1 entry of the tree was written: one translation changed, and no table came or went. */
  ghost predicate LeafSet(m: Memory, m': Memory, root: Pfn, own: map<Pfn, Node>, at: Path, w: Word) {
    && Shape(m', root, own)
    && Remapped(m, m', root, at, if w.flags.present then Page4K(w) else Absent)
    && m'[root] == m[root] && Opens(m, m', root, {})
    && ((w.flags.present ==> w.flags.user) && Plain(m, own) ==> Plain(m', own))
    && UserPathsKept(m, m', root) && (Permissive(m, own) ==> Permissive(m', own))
    && forall f: Pfn :: f !in own ==> m'[f] == m[f]
  }

  lemma SetsLeaf(m: Memory, root: Pfn, own: map<Pfn, Node>, at: Path, t: Pfn, w: Word)
    requires Shape(m, root, own) && LeadsToL1(m, root, at, t)
    ensures LeafSet(m, Store(m, t, at.i1, w), root, own, at, w)
  {
    hide Opens, Plain, Walk;
    LeadsInTree(m, root, own, at);
    LeafOpensNothing(m, root, own, at, t, w);
    LeafKeepsPermissions(m, root, own, at, t, w);
    StoreLeaf(m, root, own, at, t, w);
  }

  /** The level-1 table of a path, whoever it belongs to. */
  function Level1(m: Memory, root: Pfn, at: Path): Pfn {
    m[m[m[root][at.i4].pfn][at.i3].pfn][at.i2].pfn
  }

  lemma OwnLevel1(m: Memory, root: Pfn, at: Path)
    requires Walk(m, root, at).Page4K? && !KernelSlot(m, root, at)
    ensures LeadsToL1(m, root, at, Level1(m, root, at)) && m[Level1(m, root, at)][at.i1] == Walk(m, root, at).entry
  {
  }

  /** What the level-1 entry decides once its table is reached. */
  lemma OpenedLeaf(m: Memory, m': Memory, root: Pfn, own: map<Pfn, Node>, own': map<Pfn, Node>, free: set<nat>,
                   free': set<nat>,
                   at: Path, t: Pfn, user: bool)
    requires Grows(m, m', root, own, own', free, free', user) && LeadsToL1(m', root, at, t) && !KernelSlot(m, root, at)
    ensures Walk(m, root, at) == if m'[t][at.i1].flags.present then Page4K(m'[t][at.i1]) else Absent
  {
    WalkOfL1(m', root, at, t);
    hide Walk;
  }

  lemma LeafKeepsShape(m: Memory, m': Memory, root: Pfn, own: map<Pfn, Node>, at: Path, w: Word)
    requires LeafSet(m, m', root, own, at, w)
    ensures Shape(m', root, own)
  {
  }

  /** `map_4k` from outside: tables may have been added, and the one page has `leaf` now. */
  ghost predicate MapKept(m: Memory, m': Memory, root: Pfn, own: map<Pfn, Node>, own': map<Pfn, Node>,
                          free: set<nat>, free': set<nat>, at: Path, leaf: Leaf, user: bool) {
    && Grown(own, own', free, free')
    && Remapped(m, m', root, at, leaf)
    && RootKept(m, m', root, at)
    && (user && Plain(m, own) ==> Plain(m', own'))
    && UserPathsKept(m, m', root) && (Permissive(m, own) ==> Permissive(m', own'))
    && forall f: Pfn :: f !in own' ==> m'[f] == m[f]
  }

  lemma GrowthIsKept(m: Memory, m': Memory, root: Pfn, own: map<Pfn, Node>, own': map<Pfn, Node>,
                     free: set<nat>, free': set<nat>, at: Path, user: bool)
    requires Grows(m, m', root, own, own', free, free', user) && RootKept(m, m', root, at)
    ensures MapKept(m, m', root, own, own', free, free', at, Walk(m, root, at), user)
  {
    hide Plain, Walk, Grown;
  }

  lemma MappedIsKept(m0: Memory, m1: Memory, m2: Memory, root: Pfn, own0: map<Pfn, Node>, own: map<Pfn, Node>,
                     free0: set<nat>, free: set<nat>, at: Path, w: Word, user: bool)
    requires Grows(m0, m1, root, own0, own, free0, free, user) && RootKept(m0, m1, root, at)
             && LeafSet(m1, m2, root, own, at, w)
    requires w.flags.present && w.flags.user == user
    requires Opens(m0, m1, root, Above(at))
    ensures MapKept(m0, m2, root, own0, own, free0, free, at, Page4K(w), user)
    ensures Opens(m0, m2, root, Above(at)) && (UserPath(m1, root, at) ==> UserPath(m2, root, at))
  {
    hide Plain, Walk, Grown, Shape, Opens;
    OpensTwice(m0, m1, m2, root, Above(at), {});
    assert Above(at) + {} == Above(at);
  }

  /**
   What the processor allows for a page that was mapped: a USER mapping is a USER page, and in a tree whose links allow
   everything it can be written and executed as its flags say.
   */
  lemma MappedPermissions(m: Memory, root: Pfn, own: map<Pfn, Node>, at: Path, w: Word)
    requires Shape(m, root, own) && Permissive(m, own) && !KernelSlot(m, root, at)
    requires Walk(m, root, at) == Page4K(w) && (w.flags.user ==> UserPath(m, root, at))
    ensures Permitted(m, root, at, w.flags)
  {
    LastEntryDecides(m, root, own, at);
  }

  /** Over all four levels the processor allows what the flags ask for. */
  predicate Permitted(m: Memory, root: Pfn, at: Path, flags: Flags) {
    && (Writable(m, root, at) <==> flags.write)
    && (Executable(m, root, at) <==> !flags.noExecute)
    && (UserPage(m, root, at) <==> flags.user)
  }

  lemma PresentPermits(flags: Flags)
    ensures forall m: Memory, root: Pfn, at ::
              Permitted(m, root, at, flags.(present := true)) ==> Permitted(m, root, at, flags)
  {
  }

  lemma KeptPermissions(m: Memory, m': Memory, root: Pfn, own: map<Pfn, Node>, own': map<Pfn, Node>,
                        free: set<nat>, free': set<nat>, at: Path, w: Word, user: bool)
    requires MapKept(m, m', root, own, own', free, free', at, Page4K(w), user) && Shape(m', root, own')
    requires Permissive(m, own) && !KernelSlot(m, root, at) && (w.flags.user ==> UserPath(m', root, at))
    ensures Permissive(m', own') && Permitted(m', root, at, w.flags)
  {
    hide Plain, Permissive, UserPath, Walk, Permitted, Shape;
    MappedPermissions(m', root, own', at, w);
  }

  /** A level-1 entry is not on the way to any table. */
  lemma LeafOpensNothing(m: Memory, root: Pfn, own: map<Pfn, Node>, at: Path, t: Pfn, w: Word)
    requires Shape(m, root, own) && LeadsToL1(m, root, at, t)
    ensures Opens(m, Store(m, t, at.i1, w), root, {})
  {
    LeadsInTree(m, root, own, at);
    forall p | !KernelSlot(m, root, p)
      ensures MissingPlaces(Store(m, t, at.i1, w), root, p) == MissingPlaces(m, root, p) - {}
    {
      WalkStaysInTree(m, root, own, p);
    }
  }

  /**
   What `unmap_4k` and `protect_4k` do to memory: nothing when they fail, else write the level-1 entry of the page.
   Outside the kernel slots that is an entry of the tree. A kernel slot can lead anywhere, through a recursive entry
   even to the tree's own tables: the tree does not notice if the table is none of its own, and an entry cleared
   leaves a tree.
   */
  ghost predicate Rewritten(m: Memory, m': Memory, root: Pfn, own: map<Pfn, Node>, at: Path, ok: bool, w: Word) {
    && m' == (if ok then Store(m, Level1(m, root, at), at.i1, w) else m)
    && (ok && !KernelSlot(m, root, at) ==> LeafSet(m, m', root, own, at, w))
    && (ok && KernelSlot(m, root, at) && Level1(m, root, at) !in own ==> Shape(m', root, own) && SameWalks(m, m', root))
    && (ok && !w.flags.present ==> Shape(m', root, own))
  }

  /** Clearing an entry, whichever, leaves a tree. */
  lemma ClearKeepsShape(m: Memory, root: Pfn, own: map<Pfn, Node>, t: Pfn, i: Index, w: Word)
    requires Shape(m, root, own) && !w.flags.present
    ensures Shape(Store(m, t, i, w), root, own)
  {
  }

  /** The word at the end of a walk lies in the level-1 table. */
  lemma Level1Word(m: Memory, root: Pfn, at: Path)
    requires Walk(m, root, at).Page4K?
    ensures m[Level1(m, root, at)][at.i1] == Walk(m, root, at).entry
  {
  }

  lemma RewritesLeaf(m: Memory, root: Pfn, own: map<Pfn, Node>, at: Path, w: Word)
    requires Shape(m, root, own) && Walk(m, root, at).Page4K?
    ensures Rewritten(m, Store(m, Level1(m, root, at), at.i1, w), root, own, at, true, w)
  {
    hide Walk, Shape, LeafSet, SameWalks;
    var t := Level1(m, root, at);
    if !w.flags.present {
      ClearKeepsShape(m, root, own, t, at.i1, w);
    }
    if !KernelSlot(m, root, at) {
      OwnLevel1(m, root, at);
      SetsLeaf(m, root, own, at, t, w);
    } else if t !in own {
      OtherFramesUntouched(m, Store(m, t, at.i1, w), root, own);
    }
  }

  class PageTableManager {
    /** Physical memory behind the offset mapping, one element per page frame. */
    const ram: array<Frame>
    /** The frame the CR3 register points at. */
    var cr3: Pfn
    /** The place of each table frame of the active tree. */
    ghost var own: map<Pfn, Node>

    /** The contents of `ram`. */
    ghost var memory: Memory

    /** A manager for the tree under `cr3`, whose tables are at the places `own` says. */
    constructor (ram: array<Frame>, cr3: Pfn, ghost own: map<Pfn, Node>)
      requires ram.Length == 0x100_0000_0000 && Shape(ram[..], cr3, own)
      ensures Valid() && this.ram == ram && this.cr3 == cr3 && this.own == own && memory == ram[..]
    {
      this.ram, this.cr3, this.own, memory := ram, cr3, own, ram[..];
    }

    ghost predicate Valid()
      reads this, ram
    {
      Backed() && Shape(memory, cr3, own)
    }

    ghost predicate Backed()
      reads this, ram
    {
      ram.Length == 0x100_0000_0000 && ram[..] == memory
    }

    method WriteEntry(t: Pfn, i: Index, w: Word)
      requires Backed()
      modifies this`memory, ram
      ensures Backed() && memory == Store(old(memory), t, i, w)
    {
      ram[t] := ram[t][i := w];
      memory := Store(memory, t, i, w);
    }

    method ZeroTable(t: Pfn)
      requires Backed()
      modifies this`memory, ram
      ensures Backed() && memory == old(memory)[t := ZERO_FRAME]
    {
      ram[t] := ZERO_FRAME;
      memory := memory[t := ZERO_FRAME];
    }

    /** `copy_nonoverlapping` of one page. */
    method CopyPage(source: Pfn, target: Pfn)
      requires Backed()
      modifies this`memory, ram
      ensures Backed() && memory == old(memory)[target := old(memory)[source]]
    {
      memory := memory[target := memory[source]];
      ram[target] := ram[source];
    }

    /** Levels 3 and 2 of `map_4k`: open the table under entry `i` of `t`, installing or promoting it. */
    method OpenTable(t: Pfn, i: Index, user: bool, alloc: FrameAllocator) returns (r: Result<Pfn, MapError>)
      requires Valid() && alloc.Supplies() && own.Keys !! alloc.Frames()
      requires t in own && (own[t].N3? || own[t].N2?)
      modifies this`own, this`memory, ram, alloc
      ensures Valid() && alloc.Supplies() && own.Keys !! alloc.Frames()
      ensures Grows(old(memory), memory, cr3, old(own), own, old(alloc.Frames()), alloc.Frames(), user)
      ensures var e := old(memory)[t][i];
              r == if e.flags.present then (if e.flags.huge then Err(HugePageConflict) else Ok(e.pfn))
                   else if old(alloc.Frames()) == {} then Err(OutOfMemory) else Ok(memory[t][i].pfn)
      ensures r.Ok? ==> memory[t][i].pfn == r.value && Opened(old(memory), memory, old(own), old(own[t]), t, i)
      ensures r.Ok? && user ==> memory[t][i].flags.user
      ensures r.Ok? && !old(memory)[t][i].flags.present ==> |old(alloc.Frames())| == |alloc.Frames()| + 1
      ensures r.Err? || old(memory)[t][i].flags.present ==> alloc.Frames() == old(alloc.Frames())
      ensures r.Err? ==> memory == old(memory) && own == old(own)
    {
      hide FrameAllocator.Supplies, FrameAllocator.Frames, Shape, Grows, SameWalks, Plain;
      NothingGrows(memory, cr3, own, alloc.Frames(), user);
      var e := ram[t][i];
      if e.flags.present && e.flags.huge {
        return Err(HugePageConflict);
      }
      if !e.flags.present {
        ghost var free := alloc.Frames();
        var page := alloc.AllocatePage();
        if page.None? {
          return Err(OutOfMemory);
        }
        var frame: Pfn := page.value;
        FreshTableGrows(memory, cr3, own, free, t, i, frame, user);
        ZeroTable(frame);
        e := TableLink(frame, user);
        WriteEntry(t, i, e);
        own := own[frame := Sub(own[t], i)];
      } else if user && !e.flags.user {
        PromotionGrows(memory, cr3, own, alloc.Frames(), t, i, user);
        e := e.(flags := e.flags.(user := true));
        WriteEntry(t, i, e);
      }
      return Ok(e.pfn);
    }

    /** Level 4 of `map_4k`: open the table under the level-4 entry. */
    method OpenRoot(i: Index, user: bool, alloc: FrameAllocator) returns (r: Result<Pfn, MapError>)
      requires Valid() && alloc.Supplies() && own.Keys !! alloc.Frames()
      requires var e4 := memory[cr3][i]; !user ==> e4.flags.present && e4.flags.user
      modifies this`own, this`memory, ram, alloc
      ensures Valid() && alloc.Supplies() && own.Keys !! alloc.Frames()
      ensures Grows(old(memory), memory, cr3, old(own), own, old(alloc.Frames()), alloc.Frames(), user)
      ensures var e := old(memory)[cr3][i];
              r == if e.flags.present then (if user && !e.flags.user then Err(KernelMapping) else Ok(e.pfn))
                   else if old(alloc.Frames()) == {} then Err(OutOfMemory) else Ok(memory[cr3][i].pfn)
      ensures r.Ok? ==> memory[cr3][i].pfn == r.value && Opened(old(memory), memory, old(own), N4, cr3, i)
      ensures r.Ok? && !old(memory)[cr3][i].flags.present ==> |old(alloc.Frames())| == |alloc.Frames()| + 1
      ensures r.Err? || old(memory)[cr3][i].flags.present ==>
                alloc.Frames() == old(alloc.Frames()) && memory == old(memory) && own == old(own)
    {
      hide FrameAllocator.Supplies, FrameAllocator.Frames, Shape, Grows, SameWalks, Plain;
      RootIsOwned(memory, cr3, own);
      NothingGrows(memory, cr3, own, alloc.Frames(), user);
      var e4 := ram[cr3][i];
      if !e4.flags.present {
        ghost var free := alloc.Frames();
        var page := alloc.AllocatePage();
        if page.None? {
          return Err(OutOfMemory);
        }
        var frame: Pfn := page.value;
        e4 := TableLink(frame, user);
        FreshTableGrows(memory, cr3, own, free, cr3, i, frame, user);
        ZeroTable(frame);
        WriteEntry(cr3, i, e4);
        own := own[frame := N3(i)];
      } else if user && !e4.flags.user {
        return Err(KernelMapping);
      }
      return Ok(e4.pfn);
    }

    /** Levels 4 and 3 of `map_4k`: reach the level-2 table of a path. */
    method OpenUpper(at: Path, user: bool, alloc: FrameAllocator) returns (r: Result<Pfn, MapError>)
      requires Valid() && alloc.Supplies() && own.Keys !! alloc.Frames()
      requires var e4 := memory[cr3][at.i4]; !user ==> e4.flags.present && e4.flags.user
      modifies this`own, this`memory, ram, alloc
      ensures Valid() && alloc.Supplies() && own.Keys !! alloc.Frames()
      ensures Grows(old(memory), memory, cr3, old(own), own, old(alloc.Frames()), alloc.Frames(), user)
      ensures r.Err? ==> r.error == OpenError(old(memory), cr3, at, user)
                         && !OpenSucceeds(old(memory), cr3, at, user, |old(alloc.Frames())|)
      ensures r.Ok? ==> !(user && KernelSlot(old(memory), cr3, at))
      ensures r.Ok? ==> LeadsToL2(memory, cr3, at, r.value)
      ensures r.Ok? ==> MissingTables(memory, cr3, at) + |old(alloc.Frames())|
                        == MissingTables(old(memory), cr3, at) + |alloc.Frames()|
      ensures r.Ok? ==> Opens(old(memory), memory, cr3, {N3(at.i4), N2(at.i4, at.i3)})
      ensures r.Ok? && user ==> UserTop(memory, cr3, at)
      ensures RootKept(old(memory), memory, cr3, at)
    {
      hide FrameAllocator.Supplies, FrameAllocator.Frames, Plain, Walk, Opens, Grows, Shape;
      hide SameWalks, RootKept, Opened, MissingTables, UserTop, UserPath;
      RootIsOwned(memory, cr3, own);
      ghost var m0, own0, free0 := memory, own, alloc.Frames();
      AbsentRoot(m0, cr3, at);
      var l4 := OpenRoot(at.i4, user, alloc);
      if l4.Err? {
        SameKeepsRoot(m0, cr3, at);
        return Err(l4.error);
      }
      OpenedRoot(m0, memory, cr3, own0, own, free0, alloc.Frames(), at, user);
      ghost var m1, own1, free1 := memory, own, alloc.Frames();
      RootIsOwned(m1, cr3, own1);
      var l3 := OpenTable(l4.value, at.i3, user, alloc);
      if l3.Ok? {
        OpenedLevel3(m1, memory, cr3, own1, at);
        OpenedUpper(m0, m1, memory, cr3, own0, own1, at);
        if user {
          OpenedUserTop(m1, memory, cr3, own1, at);
        }
        OpenedKeepsRoot(m1, memory, cr3, own1, N3(at.i4), l4.value, at.i3, at);
        RootKeptTwice(m0, m1, memory, cr3, at);
        GrowsTwice(m0, m1, memory, cr3, own0, own1, own, free0, free1, alloc.Frames(), user);
      }
      return l3;
    }

    /** The part of `map_4k` above level 1: reach the level-1 table of a path, installing what is absent. */
    method OpenPath(at: Path, user: bool, alloc: FrameAllocator) returns (r: Result<Pfn, MapError>)
      requires Valid() && alloc.Supplies() && own.Keys !! alloc.Frames()
      requires var e4 := memory[cr3][at.i4]; !user ==> e4.flags.present && e4.flags.user
      modifies this`own, this`memory, ram, alloc
      ensures Valid() && alloc.Supplies() && own.Keys !! alloc.Frames()
      ensures Grows(old(memory), memory, cr3, old(own), own, old(alloc.Frames()), alloc.Frames(), user)
      ensures r.Err? ==> r.error == OpenError(old(memory), cr3, at, user)
      ensures r.Ok? <==> OpenSucceeds(old(memory), cr3, at, user, |old(alloc.Frames())|)
      ensures r.Ok? ==> LeadsToL1(memory, cr3, at, r.value) && Opens(old(memory), memory, cr3, Above(at))
      ensures r.Ok? && user ==> UserPath(memory, cr3, at)
      ensures r.Ok? ==> |old(alloc.Frames())| == |alloc.Frames()| + MissingTables(old(memory), cr3, at)
      ensures RootKept(old(memory), memory, cr3, at)
    {
      hide FrameAllocator.Supplies, FrameAllocator.Frames, Plain, Walk, Opens, Grows, Shape;
      hide SameWalks, RootKept, Opened, MissingTables, UserTop, UserPath;
      hide LeadsToL1, LeadsToL2, OpenError, OpenSucceeds;
      RootIsOwned(memory, cr3, own);
      OpenForWhom(memory, cr3, at, user);
      ghost var m0, own0, free0 := memory, own, alloc.Frames();
      var l3 := OpenUpper(at, user, alloc);
      if l3.Err? {
        return Err(l3.error);
      }
      ghost var m1, own1, free1 := memory, own, alloc.Frames();
      RootIsOwned(m1, cr3, own1);
      OpenedLevel3Table(m0, m1, cr3, own0, own1, free0, free1, at, l3.value, user);
      var l2 := OpenTable(l3.value, at.i2, user, alloc);
      if l2.Ok? {
        OpenedLevel2(m1, memory, cr3, own1, at, l3.value);
        OpenedPath(m0, m1, memory, cr3, own1, at, l3.value);
        if user {
          OpenedUserPath(m1, memory, cr3, own1, at, l3.value);
        }
        OpenedKeepsRoot(m1, memory, cr3, own1, N2(at.i4, at.i3), l3.value, at.i2, at);
        RootKeptTwice(m0, m1, memory, cr3, at);
        GrowsTwice(m0, m1, memory, cr3, own0, own1, own, free0, free1, alloc.Frames(), user);
      }
      return l2;
    }

    /** `map_4k` past its checks of the addresses. */
    method MapAt(at: Path, w: Word, alloc: FrameAllocator) returns (r: Result<(), MapError>)
      requires Valid() && alloc.Supplies() && own.Keys !! alloc.Frames() && w.flags.present
      requires var e4 := memory[cr3][at.i4]; !w.flags.user ==> e4.flags.present && e4.flags.user
      modifies this`own, this`memory, ram, alloc
      ensures Valid() && alloc.Supplies() && own.Keys !! alloc.Frames()
      ensures r == PathOutcome(old(memory), cr3, at, w.flags.user, |old(alloc.Frames())|)
      ensures MapKept(old(memory), memory, cr3, old(own), own, old(alloc.Frames()), alloc.Frames(), at,
                      if r.Ok? then Page4K(w) else Walk(old(memory), cr3, at), w.flags.user)
      ensures r.Ok? && w.flags.user ==> UserPath(memory, cr3, at)
      ensures r.Ok? && Permissive(old(memory), old(own)) ==> Permitted(memory, cr3, at, w.flags)
      ensures r.Ok? ==> Opens(old(memory), memory, cr3, Above(at))
                        && |old(alloc.Frames())| == |alloc.Frames()| + MissingTables(old(memory), cr3, at)
    {
      hide FrameAllocator.Supplies, FrameAllocator.Frames, Plain, Walk, LeadsToL1, MissingTables, Opens;
      hide Grows, Shape, MapKept, LeafSet, UserPath, Permissive, Permitted;
      ghost var m0, own0, free0 := memory, own, alloc.Frames();
      MappedNeedsNoTable(m0, cr3, at);
      var table := OpenPath(at, w.flags.user, alloc);
      GrowthIsKept(m0, memory, cr3, own0, own, free0, alloc.Frames(), at, w.flags.user);
      if table.Err? {
        return Err(table.error);
      }
      var l1 := table.value;
      OpenedLeaf(m0, memory, cr3, own0, own, free0, alloc.Frames(), at, l1, w.flags.user);
      if ram[l1][at.i1].flags.present {
        return Err(AlreadyMapped);
      }
      ghost var m1 := memory;
      SetsLeaf(m1, cr3, own, at, l1, w);
      WriteEntry(l1, at.i1, w);
      MappedIsKept(m0, m1, memory, cr3, own0, own, free0, alloc.Frames(), at, w, w.flags.user);
      LeafKeepsShape(m1, memory, cr3, own, at, w);
      if Permissive(m0, own0) {
        KeptPermissions(m0, memory, cr3, own0, own, free0, alloc.Frames(), at, w, w.flags.user);
      }
      return Ok(());
    }

    /**
     `map_4k`. A kernel mapping (flags without USER) is only asked for below a level-4 entry that is
     already USER; below a kernel entry the tables are shared and not this tree's to describe.
     */
    method Map4K(va: U64, pa: U64, flags: Flags, alloc: FrameAllocator) returns (r: Result<(), MapError>)
      requires Valid() && alloc.Supplies() && own.Keys !! alloc.Frames()
      requires var e4 := memory[cr3][Indexes(va).i4]; !flags.user ==> e4.flags.present && e4.flags.user
      modifies this`own, this`memory, ram, alloc
      ensures Valid() && alloc.Supplies() && own.Keys !! alloc.Frames()
      ensures r == MapOutcome(old(memory), cr3, va, pa, flags.user, |old(alloc.Frames())|)
      ensures MapKept(old(memory), memory, cr3, old(own), own, old(alloc.Frames()), alloc.Frames(), Indexes(va),
                      if r.Ok? then Page4K(LeafEntry(pa, flags)) else Walk(old(memory), cr3, Indexes(va)), flags.user)
      ensures r.Ok? && flags.user ==> UserPath(memory, cr3, Indexes(va))
      ensures r.Ok? && Permissive(old(memory), old(own)) ==> Permitted(memory, cr3, Indexes(va), flags)
      ensures r.Ok? ==> Opens(old(memory), memory, cr3, Above(Indexes(va)))
                        && |old(alloc.Frames())| == |alloc.Frames()| + MissingTables(old(memory), cr3, Indexes(va))
    {
      hide FrameAllocator.Supplies, FrameAllocator.Frames, Plain, Walk, MissingTables, Opens;
      hide Grows, Shape, MapKept, Indexes, UserPath, Permissive, Permitted;
      NothingGrows(memory, cr3, own, alloc.Frames(), flags.user);
      SameKeepsRoot(memory, cr3, Indexes(va));
      GrowthIsKept(memory, memory, cr3, own, own, alloc.Frames(), alloc.Frames(), Indexes(va), flags.user);
      if !Canonical(va) {
        return Err(NonCanonicalAddress);
      }
      if va % 4096 != 0 || pa % 4096 != 0 {
        return Err(InvalidPhysicalAddress);
      }
      if flags.user && va >= USER_LIMIT {
        return Err(NonCanonicalAddress);
      }
      PresentPermits(flags);
      r := MapAt(Indexes(va), LeafEntry(pa, flags), alloc);
    }

    method Translate(va: U64) returns (r: Option<Mapping>)
      requires Backed()
      ensures r == if Canonical(va) then MappingOf(Walk(memory, cr3, Indexes(va)), va) else None
    {
      if !Canonical(va) {
        return None;
      }
      var at := Indexes(va);
      hide Indexes;
      var e4 := ram[cr3][at.i4];
      if !e4.flags.present {
        return None;
      }
      var e3 := ram[e4.pfn][at.i3];
      if !e3.flags.present {
        return None;
      }
      if e3.flags.huge {
        return Some(Mapping(va - va % GIB, e3.pfn / 0x400_0000 * 0x40_0000_0000 + va % GIB, e3.flags, GIB));
      }
      var e2 := ram[e3.pfn][at.i2];
      if !e2.flags.present {
        return None;
      }
      if e2.flags.huge {
        return Some(Mapping(va - va % MIB2, e2.pfn / 512 * MIB2 + va % MIB2, e2.flags, MIB2));
      }
      var e1 := ram[e2.pfn][at.i1];
      if !e1.flags.present {
        return None;
      }
      return Some(Mapping(va - va % 4096, e1.pfn * 4096 + va % 4096, e1.flags, 4096));
    }

    /**
     `unmap_4k`. One word is written: the level-1 entry of the page. When a kernel entry of level 4 serves the page,
     that word is wherever the entry leads; the tree is left alone if the table is none of its own, and is a tree in
     any case.
     */
    method Unmap4K(va: U64) returns (r: Result<U64, UnmapError>)
      requires Valid()
      modifies this`memory, ram
      ensures Valid() && r == UnmapOutcome(old(memory), cr3, va)
      ensures Rewritten(old(memory), memory, cr3, own, Indexes(va), r.Ok?, ZERO)
    {
      hide Plain, LeafSet, Indexes;
      if !Canonical(va) {
        return Err(UnmapNonCanonical);
      }
      if va % 4096 != 0 {
        return Err(NotMapped);
      }
      var at := Indexes(va);
      var e4 := ram[cr3][at.i4];
      if !e4.flags.present {
        return Err(NotMapped);
      }
      var e3 := ram[e4.pfn][at.i3];
      if !e3.flags.present || e3.flags.huge {
        return Err(if e3.flags.huge then HugePage else NotMapped);
      }
      var e2 := ram[e3.pfn][at.i2];
      if !e2.flags.present || e2.flags.huge {
        return Err(if e2.flags.huge then HugePage else NotMapped);
      }
      var entry := ram[e2.pfn][at.i1];
      if !entry.flags.present {
        return Err(NotMapped);
      }
      RewritesLeaf(memory, cr3, own, at, ZERO);
      WriteEntry(e2.pfn, at.i1, ZERO);
      return Ok(entry.pfn * 4096);
    }

    /** `protect_4k`: likewise. */
    method Protect4K(va: U64, flags: Flags) returns (r: Result<(), MapError>)
      requires Valid()
      modifies this`memory, ram
      ensures Backed() && r == ProtectOutcome(old(memory), cr3, va)
      ensures var before := Walk(old(memory), cr3, Indexes(va));
              Rewritten(old(memory), memory, cr3, own, Indexes(va), r.Ok?,
                        if before.Page4K? then Word(before.entry.pfn, flags.(present := true)) else ZERO)
    {
      hide Plain, LeafSet, Indexes;
      if !Canonical(va) {
        return Err(NonCanonicalAddress);
      }
      if va % 4096 != 0 {
        return Err(InvalidPhysicalAddress);
      }
      var at := Indexes(va);
      var e4 := ram[cr3][at.i4];
      if !e4.flags.present {
        return Err(AlreadyMapped);
      }
      var e3 := ram[e4.pfn][at.i3];
      if !e3.flags.present || e3.flags.huge {
        return Err(HugePageConflict);
      }
      var e2 := ram[e3.pfn][at.i2];
      if !e2.flags.present || e2.flags.huge {
        return Err(HugePageConflict);
      }
      var entry := ram[e2.pfn][at.i1];
      if !entry.flags.present {
        return Err(AlreadyMapped);
      }
      var w := Word(entry.pfn, flags.(present := true));
      RewritesLeaf(memory, cr3, own, at, w);
      WriteEntry(e2.pfn, at.i1, w);
      return Ok(());
    }
  }

  /** The tree took exactly the frames that left the free list and moved none of its tables. */
  ghost predicate Grown(own: map<Pfn, Node>, own': map<Pfn, Node>, free: set<nat>, free': set<nat>) {
    && free' <= free
    && (forall t: Pfn :: t in own' <==> t in own || (t in free && t !in free'))
    && forall t :: t in own ==> own'[t] == own[t]
  }
}
