/**
 Page-table words, the four-level walk over physical memory, and the tree shape under which
 the radix tree refines a flat map (kernel/src/arch/x86_64/paging.rs; Intel SDM volume 3A, section 4.5).
 */
module PageTables {
  import opened Prelude

  /** A page frame number: the 40 address bits 12..51 that ENTRY_ADDR_MASK keeps. */
  type Pfn = n: nat | n < 0x100_0000_0000

  /** The 24 bits of a table entry outside ENTRY_ADDR_MASK. */
  datatype Flags = Flags(
    present: bool, write: bool, user: bool, writeThrough: bool, cacheDisable: bool, accessed: bool, dirty: bool,
    huge: bool, global: bool, available: Available, high: High, noExecute: bool)

  type Available = n: nat | n < 8
  type High = n: nat | n < 2048

  /** A 64-bit table entry, split into its address field and its flag bits. */
  datatype Word = Word(pfn: Pfn, flags: Flags)

  const NO_FLAGS := Flags(false, false, false, false, false, false, false, false, false, 0, 0, false)
  const ZERO := Word(0, NO_FLAGS)
  const ZERO_FRAME: Frame := seq(512, i => ZERO)

  type Index = n: nat | n < 512
  type Frame = f: seq<Word> | |f| == 512 witness seq(512, i => ZERO)

  /** All of physical memory, one page frame after the other. */
  type Memory = m: seq<Frame> | |m| == 0x100_0000_0000 ghost witness seq(0x100_0000_0000, i => seq(512, j => ZERO))

  /** The four table indices of a virtual address. */
  datatype Path = Path(i4: Index, i3: Index, i2: Index, i1: Index)

  function Indexes(va: U64): Path {
    Path(va / 0x80_0000_0000 % 512, va / 0x4000_0000 % 512, va / 0x20_0000 % 512, va / 0x1000 % 512)
  }

  predicate Canonical(va: U64) {
    va < 0x8000_0000_0000 || 0xffff_8000_0000_0000 <= va
  }

  /** Where a walk ends: nowhere, or at an entry that maps a page of one of three sizes. */
  datatype Leaf = Absent | Page4K(entry: Word) | Page2M(entry: Word) | Page1G(entry: Word)

  function Walk(m: Memory, root: Pfn, at: Path): Leaf {
    var e4 := m[root][at.i4];
    if !e4.flags.present then Absent
    else
      var e3 := m[e4.pfn][at.i3];
      if !e3.flags.present then Absent
      else if e3.flags.huge then Page1G(e3)
      else
        var e2 := m[e3.pfn][at.i2];
        if !e2.flags.present then Absent
        else if e2.flags.huge then Page2M(e2)
        else
          var e1 := m[e2.pfn][at.i1];
          if !e1.flags.present then Absent else Page4K(e1)
  }

  /** The level-4 entry that serves a path is a kernel one: present and not USER. */
  predicate KernelSlot(m: Memory, root: Pfn, at: Path) {
    m[root][at.i4].flags.present && !m[root][at.i4].flags.user
  }

  /** How many tables are absent on the way to a path. */
  function MissingTables(m: Memory, root: Pfn, at: Path): nat {
    var e4 := m[root][at.i4];
    if !e4.flags.present then 3
    else
      var e3 := m[e4.pfn][at.i3];
      if !e3.flags.present then 2
      else if e3.flags.huge then 0
      else if !m[e3.pfn][at.i2].flags.present then 1 else 0
  }

  /** The places on the way to a path that have no table yet. */
  function MissingPlaces(m: Memory, root: Pfn, at: Path): set<Node> {
    var missing := MissingTables(m, root, at);
    if missing == 0 then {}
    else if missing == 1 then {N1(at.i4, at.i3, at.i2)}
    else if missing == 2 then {N2(at.i4, at.i3), N1(at.i4, at.i3, at.i2)}
    else Above(at)
  }

  /** The places of the three tables above a page. */
  function Above(at: Path): set<Node> {
    {N3(at.i4), N2(at.i4, at.i3), N1(at.i4, at.i3, at.i2)}
  }

  lemma MissingPlacesCount(m: Memory, root: Pfn, at: Path)
    ensures |MissingPlaces(m, root, at)| == MissingTables(m, root, at)
  {
  }

  /** A place has a table or not, whichever path passes through it. */
  lemma PlacesAreShared(m: Memory, root: Pfn, p: Path, q: Path, n: Node)
    requires n in MissingPlaces(m, root, p) && n in Above(q) && (Walk(m, root, q).Absent? || Walk(m, root, q).Page4K?)
    ensures n in MissingPlaces(m, root, q)
  {
  }

  /** From `m` to `m'` tables appeared at `places`, and nowhere else where one was missing. */
  ghost predicate Opens(m: Memory, m': Memory, root: Pfn, places: set<Node>) {
    forall p :: !KernelSlot(m, root, p) ==> MissingPlaces(m', root, p) == MissingPlaces(m, root, p) - places
  }

  lemma MappedNeedsNoTable(m: Memory, root: Pfn, at: Path)
    ensures !Walk(m, root, at).Absent? ==> MissingTables(m, root, at) == 0
  {
  }

  // Tree shape.

  /** A place in the radix tree: the root, a table below it, or a page below a level-1 table. */
  datatype Node = N4 | N3(a: Index) | N2(a: Index, b: Index) | N1(a: Index, b: Index, c: Index) | N0(at: Path)

  /** The place entry `i` of the table at `n` leads to. */
  function Sub(n: Node, i: Index): Node {
    match n
    case N4 => N3(i)
    case N3(a) => N2(a, i)
    case N2(a, b) => N1(a, b, i)
    case N1(a, b, c) => N0(Path(a, b, c, i))
    case N0(_) => n
  }

  /** Entry `e` of a table at `n` links to a table of the process's own tree. */
  predicate Links(n: Node, e: Word) {
    match n
    case N4 => e.flags.present && e.flags.user
    case N3(_) => e.flags.present && !e.flags.huge
    case N2(_, _) => e.flags.present && !e.flags.huge
    case N1(_, _, _) => false
    case N0(_) => false
  }

  /**
   `own` names the place of every table frame of the tree. Since a frame has one place and a place
   determines the one slot above it, each table frame is owned by exactly one parent slot.
   */
  ghost predicate Shape(m: Memory, root: Pfn, own: map<Pfn, Node>) {
    && root in own && own[root] == N4
    && forall t, i: Index :: t in own && Links(own[t], m[t][i]) ==>
         m[t][i].pfn in own && own[m[t][i].pfn] == Sub(own[t], i)
  }

  /** A table frame is owned by exactly one slot of the tree. */
  lemma OneParentSlot(m: Memory, root: Pfn, own: map<Pfn, Node>, t: Pfn, i: Index, t': Pfn, i': Index)
    requires Shape(m, root, own) && t in own && t' in own
    requires Links(own[t], m[t][i]) && Links(own[t'], m[t'][i'])
    requires m[t][i].pfn == m[t'][i'].pfn
    ensures own[t] == own[t'] && i == i'
  {
  }

  /** Below level 4 every entry of the tree is USER and no entry maps a huge page. */
  ghost predicate Plain(m: Memory, own: map<Pfn, Node>) {
    forall t, i: Index :: t in own && PlainLevel(own[t]) && m[t][i].flags.present ==>
      m[t][i].flags.user && (own[t].N1? || !m[t][i].flags.huge)
  }

  predicate PlainLevel(n: Node) {
    n.N3? || n.N2? || n.N1?
  }

  // What the processor allows. It takes the permissions of all four levels together (Intel SDM volume 3A, section 4.6).

  /** A 4 KiB page reached through entries that are USER at all four levels. */
  predicate UserPage(m: Memory, root: Pfn, at: Path) {
    UserPath(m, root, at) && Walk(m, root, at).Page4K? && Walk(m, root, at).entry.flags.user
  }

  /** The three entries above a page are links that are USER. */
  predicate UserPath(m: Memory, root: Pfn, at: Path) {
    var e4 := m[root][at.i4];
    var e3 := m[e4.pfn][at.i3];
    var e2 := m[e3.pfn][at.i2];
    && e4.flags.present && e3.flags.present && !e3.flags.huge && e2.flags.present && !e2.flags.huge
    && e4.flags.user && e3.flags.user && e2.flags.user
  }

  /** Every entry on the way to a page allows writing; the kernel runs with CR0.WP set. */
  predicate Writable(m: Memory, root: Pfn, at: Path) {
    var e4 := m[root][at.i4];
    var e3 := m[e4.pfn][at.i3];
    var e2 := m[e3.pfn][at.i2];
    && e4.flags.write && e3.flags.write
    && (e3.flags.huge || (e2.flags.write && (e2.flags.huge || m[e2.pfn][at.i1].flags.write)))
  }

  /** No entry on the way to a page forbids execution. */
  predicate Executable(m: Memory, root: Pfn, at: Path) {
    var e4 := m[root][at.i4];
    var e3 := m[e4.pfn][at.i3];
    var e2 := m[e3.pfn][at.i2];
    && !e4.flags.noExecute && !e3.flags.noExecute
    && (e3.flags.huge || (!e2.flags.noExecute && (e2.flags.huge || !m[e2.pfn][at.i1].flags.noExecute)))
  }

  /** The links of the tree allow everything, so that the last entry decides. */
  ghost predicate Permissive(m: Memory, own: map<Pfn, Node>) {
    forall t, i: Index :: t in own && Links(own[t], m[t][i]) ==> Allows(m[t][i])
  }

  predicate Allows(link: Word) {
    link.flags.write && !link.flags.noExecute
  }

  /** In such a tree the processor allows for a page what its own entry says. */
  lemma LastEntryDecides(m: Memory, root: Pfn, own: map<Pfn, Node>, at: Path)
    requires Shape(m, root, own) && Permissive(m, own) && !KernelSlot(m, root, at) && Walk(m, root, at).Page4K?
    ensures Writable(m, root, at) <==> Walk(m, root, at).entry.flags.write
    ensures Executable(m, root, at) <==> !Walk(m, root, at).entry.flags.noExecute
  {
    WalkStaysInTree(m, root, own, at);
    var e4 := m[root][at.i4];
    var e3 := m[e4.pfn][at.i3];
    assert Allows(e4) && Allows(e3) && Allows(m[e3.pfn][at.i2]);
  }

  ghost predicate UserPathsKept(m: Memory, m': Memory, root: Pfn) {
    forall p :: UserPath(m, root, p) ==> UserPath(m', root, p)
  }

  lemma UntouchedPermissions(m: Memory, m': Memory, root: Pfn, own: map<Pfn, Node>)
    requires Shape(m, root, own) && forall t :: t in own ==> m'[t] == m[t]
    ensures UserPathsKept(m, m', root) && (Permissive(m, own) ==> Permissive(m', own))
  {
    forall p | UserPath(m, root, p) ensures UserPath(m', root, p) {
      WalkStaysInTree(m, root, own, p);
    }
  }

  function Store(m: Memory, t: Pfn, i: Index, w: Word): Memory {
    m[t := m[t][i := w]]
  }

  /** Same translation for every address outside kernel slots. */
  ghost predicate SameWalks(m: Memory, m': Memory, root: Pfn) {
    forall at :: !KernelSlot(m, root, at) ==> !KernelSlot(m', root, at) && Walk(m', root, at) == Walk(m, root, at)
  }

  lemma OtherFramesUntouched(m: Memory, m': Memory, root: Pfn, own: map<Pfn, Node>)
    requires Shape(m, root, own)
    requires forall t :: t in own ==> m'[t] == m[t]
    ensures Shape(m', root, own) && SameWalks(m, m', root)
  {
    forall at | !KernelSlot(m, root, at) ensures Walk(m', root, at) == Walk(m, root, at) {
      WalkStaysInTree(m, root, own, at);
    }
  }

  /** The tables a walk outside the kernel slots visits, and their places. */
  lemma WalkStaysInTree(m: Memory, root: Pfn, own: map<Pfn, Node>, at: Path)
    requires Shape(m, root, own) && !KernelSlot(m, root, at)
    ensures var e4 := m[root][at.i4]; e4.flags.present ==>
              && e4.pfn in own && own[e4.pfn] == N3(at.i4)
              && var e3 := m[e4.pfn][at.i3]; e3.flags.present && !e3.flags.huge ==>
              && e3.pfn in own && own[e3.pfn] == N2(at.i4, at.i3)
              && var e2 := m[e3.pfn][at.i2]; e2.flags.present && !e2.flags.huge ==>
              && e2.pfn in own && own[e2.pfn] == N1(at.i4, at.i3, at.i2)
  {
    var e4 := m[root][at.i4];
    if e4.flags.present {
      assert Links(own[root], e4);
      var e3 := m[e4.pfn][at.i3];
      if e3.flags.present && !e3.flags.huge {
        assert Links(own[e4.pfn], e3);
        var e2 := m[e3.pfn][at.i2];
        assert e2.flags.present && !e2.flags.huge ==> Links(own[e3.pfn], e2);
      }
    }
  }

  /** Hanging a zeroed fresh table under an empty slot changes no translation. */
  lemma LinkFreshTable(m: Memory, root: Pfn, own: map<Pfn, Node>, t: Pfn, i: Index, w: Word)
    requires Shape(m, root, own)
    requires t in own && (own[t].N4? || own[t].N3? || own[t].N2?)
    requires !m[t][i].flags.present && w.pfn !in own && Links(own[t], w)
    ensures var m' := Store(m[w.pfn := ZERO_FRAME], t, i, w);
            Shape(m', root, own[w.pfn := Sub(own[t], i)]) && SameWalks(m, m', root)
  {
    var m' := Store(m[w.pfn := ZERO_FRAME], t, i, w);
    var own' := own[w.pfn := Sub(own[t], i)];
    forall at | !KernelSlot(m, root, at) ensures !KernelSlot(m', root, at) && Walk(m', root, at) == Walk(m, root, at) {
      WalkStaysInTree(m, root, own, at);
    }
  }

  /** Setting USER on a level-3 or level-2 link changes no translation. */
  lemma PromoteLink(m: Memory, root: Pfn, own: map<Pfn, Node>, t: Pfn, i: Index)
    requires Shape(m, root, own)
    requires t in own && (own[t].N3? || own[t].N2?) && Links(own[t], m[t][i])
    ensures var w := m[t][i]; var m' := Store(m, t, i, w.(flags := w.flags.(user := true)));
            Shape(m', root, own) && SameWalks(m, m', root)
  {
    var w := m[t][i];
    var m' := Store(m, t, i, w.(flags := w.flags.(user := true)));
    forall at | !KernelSlot(m, root, at) ensures Walk(m', root, at) == Walk(m, root, at) {
      WalkStaysInTree(m, root, own, at);
    }
  }

  /** `t` is the table at place `n`, on the way to a path. */
  ghost predicate OnTheWay(m: Memory, root: Pfn, at: Path, n: Node, t: Pfn) {
    match n
    case N4 => t == root
    case N3(a) => a == at.i4 && Links(N4, m[root][a]) && m[root][a].pfn == t
    case N2(a, b) => a == at.i4 && b == at.i3 && LeadsToL2(m, root, at, t)
    case _ => false
  }

  /** Entry `i` of table `t` at place `n` has come to link to a table: the one before, or an empty one. */
  ghost predicate Opened(m: Memory, m': Memory, own: map<Pfn, Node>, n: Node, t: Pfn, i: Index) {
    && t in own && own[t] == n
    && (forall f: Pfn, j: Index :: f in own && (f, j) != (t, i) ==> m'[f][j] == m[f][j])
    && Links(n, m'[t][i])
    && if m[t][i].flags.present then Links(n, m[t][i]) && m'[t][i].pfn == m[t][i].pfn
      else forall j: Index :: m'[m'[t][i].pfn][j] == ZERO
  }

  lemma OpenedPlace(m: Memory, m': Memory, root: Pfn, own: map<Pfn, Node>, at: Path, n: Node, t: Pfn, i: Index)
    requires Shape(m, root, own) && OnTheWay(m, root, at, n, t) && Opened(m, m', own, n, t, i)
    ensures Opens(m, m', root, {Sub(n, i)})
  {
    hide MissingTables, Shape, Opened;
    forall p | !KernelSlot(m, root, p) ensures MissingPlaces(m', root, p) == MissingPlaces(m, root, p) - {Sub(n, i)} {
      MissingAt(m, m', root, own, at, n, t, i, p);
    }
  }

  lemma MissingAt(m: Memory, m': Memory, root: Pfn, own: map<Pfn, Node>, at: Path, n: Node, t: Pfn, i: Index, p: Path)
    requires Shape(m, root, own) && OnTheWay(m, root, at, n, t) && Opened(m, m', own, n, t, i)
             && !KernelSlot(m, root, p)
    ensures MissingTables(m', root, p) ==
              if Sub(n, i) in MissingPlaces(m, root, p) then MissingTables(m, root, p) - 1
              else MissingTables(m, root, p)
    ensures Sub(n, i) in MissingPlaces(m, root, p) ==>
              MissingTables(m, root, p) == if n.N4? then 3 else if n.N3? then 2 else 1
  {
    WalkStaysInTree(m, root, own, p);
  }

  lemma OpensTwice(m: Memory, m': Memory, m'': Memory, root: Pfn, a: set<Node>, b: set<Node>)
    requires forall p :: !KernelSlot(m, root, p) ==> !KernelSlot(m', root, p)
    requires Opens(m, m', root, a) && Opens(m', m'', root, b)
    ensures Opens(m, m'', root, a + b)
  {
    hide MissingPlaces, Walk;
  }

  /** Linking a fresh table, with a link that allows everything, and promoting a link keep the permissions of pages. */
  lemma LinkKeepsPermissions(m: Memory, root: Pfn, own: map<Pfn, Node>, t: Pfn, i: Index, w: Word)
    requires Shape(m, root, own) && t in own && !m[t][i].flags.present && w.pfn !in own && Allows(w)
    ensures var m' := Store(m[w.pfn := ZERO_FRAME], t, i, w);
            UserPathsKept(m, m', root) && (Permissive(m, own) ==> Permissive(m', own[w.pfn := Sub(own[t], i)]))
  {
    var m' := Store(m[w.pfn := ZERO_FRAME], t, i, w);
    forall p | UserPath(m, root, p) ensures UserPath(m', root, p) {
      WalkStaysInTree(m, root, own, p);
    }
  }

  lemma PromotionKeepsPermissions(m: Memory, root: Pfn, own: map<Pfn, Node>, t: Pfn, i: Index)
    requires Shape(m, root, own) && t in own && (own[t].N3? || own[t].N2?) && Links(own[t], m[t][i])
    ensures var w := m[t][i]; var m' := Store(m, t, i, w.(flags := w.flags.(user := true)));
            UserPathsKept(m, m', root) && (Permissive(m, own) ==> Permissive(m', own))
  {
    var w := m[t][i];
    var m' := Store(m, t, i, w.(flags := w.flags.(user := true)));
    forall p | UserPath(m, root, p) ensures UserPath(m', root, p) {
      WalkStaysInTree(m, root, own, p);
    }
    forall f, j: Index | f in own && Links(own[f], m'[f][j]) && Permissive(m, own) ensures Allows(m'[f][j]) {
      assert Links(own[f], m[f][j]);
    }
  }

  /** A level-1 entry is no link. */
  lemma LeafKeepsPermissions(m: Memory, root: Pfn, own: map<Pfn, Node>, at: Path, t: Pfn, w: Word)
    requires Shape(m, root, own) && LeadsToL1(m, root, at, t)
    ensures var m' := Store(m, t, at.i1, w);
            UserPathsKept(m, m', root) && (Permissive(m, own) ==> Permissive(m', own))
  {
    var m' := Store(m, t, at.i1, w);
    LeadsInTree(m, root, own, at);
    forall p | UserPath(m, root, p) ensures UserPath(m', root, p) {
      WalkStaysInTree(m, root, own, p);
    }
  }

  /** The level-2 table a path leads to. */
  ghost predicate LeadsToL2(m: Memory, root: Pfn, at: Path, t: Pfn) {
    var e4 := m[root][at.i4];
    e4.flags.present && e4.flags.user &&
    var e3 := m[e4.pfn][at.i3];
    e3.flags.present && !e3.flags.huge && e3.pfn == t
  }

  /** The level-1 table a path leads to. */
  ghost predicate LeadsToL1(m: Memory, root: Pfn, at: Path, t: Pfn) {
    var t2 := m[m[root][at.i4].pfn][at.i3].pfn;
    LeadsToL2(m, root, at, t2) &&
    var e2 := m[t2][at.i2];
    e2.flags.present && !e2.flags.huge && e2.pfn == t
  }

  lemma WalkOfL1(m: Memory, root: Pfn, at: Path, t: Pfn)
    requires LeadsToL1(m, root, at, t)
    ensures !KernelSlot(m, root, at)
    ensures Walk(m, root, at) == if m[t][at.i1].flags.present then Page4K(m[t][at.i1]) else Absent
  {
  }

  lemma LeadsInTree(m: Memory, root: Pfn, own: map<Pfn, Node>, at: Path)
    requires Shape(m, root, own)
    ensures forall t :: LeadsToL2(m, root, at, t) ==> t in own && own[t] == N2(at.i4, at.i3)
    ensures forall t :: LeadsToL1(m, root, at, t) ==> t in own && own[t] == N1(at.i4, at.i3, at.i2)
  {
    if !KernelSlot(m, root, at) {
      WalkStaysInTree(m, root, own, at);
    }
  }

  /** Opening the table under the level-2 entry of a path leaves the links above it alone. */
  lemma OpenedLevel2(m: Memory, m': Memory, root: Pfn, own: map<Pfn, Node>, at: Path, t: Pfn)
    requires Shape(m, root, own) && LeadsToL2(m, root, at, t) && Opened(m, m', own, N2(at.i4, at.i3), t, at.i2)
    ensures LeadsToL1(m', root, at, m'[t][at.i2].pfn)
  {
    LeadsInTree(m, root, own, at);
    WalkStaysInTree(m, root, own, at);
  }

  /** Opening the table under the level-3 entry of a path leaves one table less missing. */
  lemma OpenedLevel3(m: Memory, m': Memory, root: Pfn, own: map<Pfn, Node>, at: Path)
    requires Shape(m, root, own) && Links(N4, m[root][at.i4])
    requires Opened(m, m', own, N3(at.i4), m[root][at.i4].pfn, at.i3)
    ensures var t := m[root][at.i4].pfn;
            && LeadsToL2(m', root, at, m'[t][at.i3].pfn)
            && MissingTables(m', root, at) == if m[t][at.i3].flags.present then MissingTables(m, root, at) else 1
  {
    WalkStaysInTree(m, root, own, at);
  }

  /** Writing a level-1 entry changes the translation of the one page at that place. */
  lemma StoreLeaf(m: Memory, root: Pfn, own: map<Pfn, Node>, at: Path, t: Pfn, w: Word)
    requires Shape(m, root, own) && LeadsToL1(m, root, at, t)
    ensures var m' := Store(m, t, at.i1, w);
            && t in own && Shape(m', root, own)
            && ((w.flags.present ==> w.flags.user) && Plain(m, own) ==> Plain(m', own))
            && Walk(m', root, at) == (if w.flags.present then Page4K(w) else Absent)
            && forall p :: !KernelSlot(m, root, p) ==>
                 !KernelSlot(m', root, p) && (p != at ==> Walk(m', root, p) == Walk(m, root, p))
  {
    var m' := Store(m, t, at.i1, w);
    LeadsInTree(m, root, own, at);
    WalkStaysInTree(m, root, own, at);
    forall p | !KernelSlot(m, root, p)
      ensures !KernelSlot(m', root, p) && (p != at ==> Walk(m', root, p) == Walk(m, root, p))
    {
      WalkStaysInTree(m, root, own, p);
    }
  }
}
