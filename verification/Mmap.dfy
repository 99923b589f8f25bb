/** `mmap` (kernel/src/arch/x86_64/syscall.rs): finding a place, and mapping fresh pages there. */
module Mmap {
  import opened Prelude
  import opened Bytes
  import opened PageTables
  import opened FrameAllocation
  import opened Paging
  import opened PagingRuns
  import opened Words
  import opened UserPages
  import opened Loader

  datatype Errno = EINVAL | ENOMEM | EBADF | ENODEV | EFAULT

  /** What `prot` asks for. */
  datatype Protection = Protection(write: bool, exec: bool)

  function ProtFlags(prot: Protection): Flags {
    NO_FLAGS.(present := true, user := true, write := prot.write, noExecute := !prot.exec)
  }

  // Finding a place.

  /** `translate` finds something at an address. */
  predicate Occupied(m: Memory, root: Pfn, a: U64) {
    Canonical(a) && !Walk(m, root, Indexes(a)).Absent?
  }

  /** No page of the range is mapped. */
  ghost predicate RangeFree(m: Memory, root: Pfn, start: nat, length: nat) {
    forall a: U64 :: start <= a < start + length && a % 4096 == 0 ==> !Occupied(m, root, a)
  }

  /** `checked_add(length).unwrap_or(USER_LIMIT)`. */
  function Bump(next: U64, length: U64): U64 {
    if next + length < U64_LIMIT then next + length else USER_LIMIT
  }

  datatype Place = Place(start: Option<U64>, next: U64)

  /** First the candidate, then wherever `next_mmap` points, until a free range is found or user space is used up. */
  ghost function Search(m: Memory, root: Pfn, candidate: U64, next: U64, length: U64): Place
    requires length > 0
    decreases USER_LIMIT - next
  {
    if RangeFree(m, root, candidate, length) then Place(Some(candidate), next)
    else if next >= USER_LIMIT then Place(None, next)
    else Search(m, root, Down(next), Bump(next, length), length)
  }

  /** A place found is free and page aligned, and lies at the candidate or past `next_mmap`, which only moves up. */
  lemma {:induction false} SearchFinds(m: Memory, root: Pfn, candidate: U64, next: U64, length: U64)
    requires length > 0 && candidate % 4096 == 0
    ensures var place := Search(m, root, candidate, next, length);
            && place.next >= Min(next, USER_LIMIT)
            && match place.start
               case None => place.next >= USER_LIMIT && !RangeFree(m, root, candidate, length)
               case Some(a) =>
                 RangeFree(m, root, a, length) && a % 4096 == 0 && (a == candidate || Down(next) <= a < USER_LIMIT)
    decreases USER_LIMIT - next
  {
    hide RangeFree, Down, Bump;
    DownFacts(next);
    if !RangeFree(m, root, candidate, length) && next < USER_LIMIT {
      BumpMoves(next, length);
      DownFacts(Bump(next, length));
      DownKeepsOrder(next, Bump(next, length));
      SearchFinds(m, root, Down(next), Bump(next, length), length);
    }
  }

  // What a mapped page holds.

  /** One page of a file from `offset` on, zero past its end; an anonymous mapping has no file. */
  function FilePage(data: Option<seq<Byte>>, offset: nat): (bytes: seq<Byte>)
    ensures |bytes| == 4096
  {
    seq<Byte>(4096, k requires 0 <= k < 4096 =>
      if data.Some? && offset + k < |data.value| then data.value[offset + k] else 0)
  }

  /** The file offset of a page, as a machine word. */
  function PageOffset(offset: U64, distance: nat): U64 {
    (offset + distance) % 0x1_0000_0000_0000_0000
  }

  lemma NextOffset(offset: U64, distance: nat)
    ensures PageOffset(PageOffset(offset, distance), 4096) == PageOffset(offset, distance + 4096)
  {
  }

  /** The page offsets of a mapping are exact if and only if it ends within the 64-bit offsets. */
  lemma OffsetsAreExactIff(offset: U64, length: nat)
    requires offset % 4096 == 0 && length % 4096 == 0 && length > 0
    ensures (forall d: nat :: d < length && d % 4096 == 0 ==> PageOffset(offset, d) == offset + d) <==>
              offset + length <= U64_LIMIT
  {
    if offset + length <= U64_LIMIT {
      forall d: nat | d < length && d % 4096 == 0 ensures PageOffset(offset, d) == offset + d {
      }
    } else {
      var d: nat := U64_LIMIT - offset;
      assert d < length && d % 4096 == 0 && PageOffset(offset, d) == 0;
    }
  }

  /** The page of a file at a 64-bit offset is the page the mapping shows there. */
  ghost predicate PageIsExact(data: seq<Byte>, offset: U64, d: nat) {
    FilePage(Some(data), PageOffset(offset, d)) == FilePage(Some(data), offset + d)
  }

  /**
   Every page of a mapping shows the file from its own offset if and only if the mapping ends within the 64-bit offsets
   or the file begins with zeros as far as the mapping runs past them: there it shows the start of the file again.
   */
  lemma PagesAreExactIff(data: seq<Byte>, offset: U64, length: nat)
    requires offset % 4096 == 0 && length % 4096 == 0 && 0 < length <= U64_LIMIT && |data| <= U64_LIMIT
    ensures (forall d: nat :: d < length && d % 4096 == 0 ==> PageIsExact(data, offset, d))
            <==> (forall k: nat :: k < |data| && k < offset + length - U64_LIMIT ==> data[k] == 0)
  {
    hide PageIsExact;
    var past := offset + length - U64_LIMIT;
    if forall d: nat :: d < length && d % 4096 == 0 ==> PageIsExact(data, offset, d) {
      forall k: nat | k < |data| && k < past ensures data[k] == 0 {
        var d: nat := U64_LIMIT - offset + (k - k % 4096);
        PageOfByte(offset, length, k);
        assert PageIsExact(data, offset, d);
        PageIsExactIff(data, offset, d);
        assert InPage(k, offset + d - U64_LIMIT);
      }
    }
    if forall k: nat :: k < |data| && k < past ==> data[k] == 0 {
      forall d: nat | d < length && d % 4096 == 0 ensures PageIsExact(data, offset, d) {
        PageStep(d, length);
        PageIsExactIff(data, offset, d);
      }
    }
  }

  predicate InPage(k: nat, page: int) {
    page <= k < page + 4096
  }

  lemma PageOfByte(offset: U64, length: nat, k: nat)
    requires offset % 4096 == 0 && length % 4096 == 0 && k < offset + length - U64_LIMIT
    ensures var d := U64_LIMIT - offset + (k - k % 4096); 0 <= d < length && d % 4096 == 0
  {
    PageStep(k - k % 4096, offset + length - U64_LIMIT);
  }

  lemma PageIsExactIff(data: seq<Byte>, offset: U64, d: nat)
    requires |data| <= U64_LIMIT && d < U64_LIMIT
    ensures PageIsExact(data, offset, d) <==>
              offset + d < U64_LIMIT || forall k: nat :: k < |data| && InPage(k, offset + d - U64_LIMIT) ==>
                  data[k] == 0
  {
    hide PageOffset;
    OffsetPastEnd(offset, d);
    if offset + d >= U64_LIMIT {
      var page: nat := offset + d - U64_LIMIT;
      var shown, due := FilePage(Some(data), page), FilePage(Some(data), offset + d);
      assert forall i :: 0 <= i < 4096 ==> due[i] == 0;
      if forall k: nat :: k < |data| && InPage(k, page) ==> data[k] == 0 {
        forall i | 0 <= i < 4096 ensures shown[i] == due[i] {
          assert page + i < |data| ==> InPage(page + i, page);
        }
      } else {
        var k: nat :| k < |data| && InPage(k, page) && data[k] != 0;
        assert shown[k - page] == data[k] != due[k - page];
      }
    }
  }

  lemma OffsetPastEnd(offset: U64, d: nat)
    requires d < U64_LIMIT
    ensures PageOffset(offset, d) == if offset + d < U64_LIMIT then offset + d else offset + d - U64_LIMIT
  {
  }

  lemma FilledPage(data: Option<seq<Byte>>, offset: nat)
    ensures if data.Some? && offset < |data.value| then
              var amount := Min(4096, |data.value| - offset);
              Overlay(Zeros(4096), 0, data.value[offset..offset + amount]) == FilePage(data, offset)
            else Zeros(4096) == FilePage(data, offset)
  {
    if data.Some? && offset < |data.value| {
      hide Overlay;
      OverlayAt(Zeros(4096), 0, data.value[offset..offset + Min(4096, |data.value| - offset)]);
    }
  }

  /** Clears a frame and copies the file's part of the page into it. */
  method FillFrame(pages: PageTableManager, frame: Pfn, data: Option<seq<Byte>>, offset: U64)
    requires pages.Valid() && frame !in pages.own
    modifies pages`memory, pages.ram
    ensures pages.Valid() && pages.memory == old(pages.memory)[frame := FrameOf(FilePage(data, offset))]
  {
    hide PageBytes, FrameOf, FilePage;
    WholeOverlay(PageBytes(pages.memory[frame]), Zeros(4096));
    FramesAreBytes(ZERO_FRAME, Zeros(4096));
    FilledPage(data, offset);
    StoreBytes(pages, frame, 0, Zeros(4096));
    if data.Some? && offset < |data.value| {
      var amount := Min(4096, |data.value| - offset);
      StoreBytes(pages, frame, 0, data.value[offset..offset + amount]);
    }
  }

  // One page.

  /** The space after MAP_FIXED has unmapped what it found at a page, whoever it belongs to. */
  ghost function Cleared(s: Space, fixed: bool, page: U64): Space {
    var at := Indexes(page);
    var found := fixed && Canonical(page) && Walk(s.m, s.root, at).Page4K?;
    if found then s.(m := Store(s.m, Level1(s.m, s.root, at), at.i1, ZERO)) else s
  }

  /** A fresh page can be put there: afterwards nothing is in the way, and there are frames enough. */
  ghost predicate CanPut(s: Space, fixed: bool, page: U64) {
    PageAddress(page) && CanGrow(Cleared(s, fixed, page), {Indexes(page)})
  }

  /** A fresh page was put there, and nothing else moved since it was cleared. */
  ghost predicate Put(s: Space, s': Space, fixed: bool, page: U64, flags: Flags, contents: seq<Byte>) {
    var cleared := Cleared(s, fixed, page);
    && Grew(cleared, s', {Indexes(page)}) && Charged(cleared, s', {Indexes(page)}) && Holds(s', page, flags, contents)
  }

  lemma ClearedIsSound(s: Space, fixed: bool, page: U64)
    requires Sound(s)
    ensures Sound(Cleared(s, fixed, page)) && Cleared(s, fixed, page).free == s.free
            && Cleared(s, fixed, page).root == s.root
  {
    hide Indexes, Walk, Level1, Shape;
    ClearKeepsShape(s.m, s.root, s.own, Level1(s.m, s.root, Indexes(page)), Indexes(page).i1, ZERO);
  }

  /** Whatever the walk goes through, the page is gone once its entry is cleared. */
  lemma ClearedIsAbsent(m: Memory, root: Pfn, at: Path)
    requires Walk(m, root, at).Page4K?
    ensures Walk(Store(m, Level1(m, root, at), at.i1, ZERO), root, at).Absent?
  {
  }

  /**
   In a kernel slot MAP_FIXED unmaps the page and then fails, unless the walk led back to the process's own level-4
   table and what it has unmapped is the kernel slot itself.
   */
  lemma KernelPageReplacedIff(s: Space, page: U64)
    requires Sound(s) && PageAddress(page)
    requires KernelSlot(s.m, s.root, Indexes(page)) && Walk(s.m, s.root, Indexes(page)).Page4K?
    ensures CanPut(s, true, page) <==>
              Level1(s.m, s.root, Indexes(page)) == s.root && Indexes(page).i1 == Indexes(page).i4 && 4 <= |s.free|
  {
    hide Indexes, FramesFor, Shape;
    var at, c := Indexes(page), Cleared(s, true, page);
    OnePage(c, at);
    ClearedIsAbsent(s.m, s.root, at);
    assert at in {at};
    assert AllVacant(c, {at}) <==> !KernelSlot(c.m, c.root, at);
  }

  /** A fresh page can go there: nothing is mapped, or with MAP_FIXED a page of the process's that can be unmapped. */
  ghost predicate Accepts(s: Space, fixed: bool, at: Path) {
    Small(s, at) && (fixed || Walk(s.m, s.root, at).Absent?)
  }

  ghost predicate AllAccept(s: Space, fixed: bool, paths: set<Path>) {
    forall at :: at in paths ==> Accepts(s, fixed, at)
  }

  /** Fresh pages can be mapped there, and there are the frames for them. */
  ghost predicate CanLay(s: Space, fixed: bool, paths: set<Path>) {
    AllAccept(s, fixed, paths) && FramesFor(s, paths) <= |s.free|
  }

  lemma AcceptedIsSmall(s: Space, fixed: bool, paths: set<Path>)
    requires AllAccept(s, fixed, paths)
    ensures AllSmall(s, paths) && (!fixed ==> AllVacant(s, paths))
  {
    hide Walk, KernelSlot;
    forall at | at in paths ensures Small(s, at) && (!fixed ==> Vacant(s, at)) {
      assert Accepts(s, fixed, at);
    }
  }

  /** `unmap_4k` seen from outside: one page goes, nothing else moves. */
  lemma UnmappedOnly(s: Space, s': Space, at: Path)
    requires Sound(s) && s' == s.(m := s'.m) && LeafSet(s.m, s'.m, s.root, s.own, at, ZERO)
    ensures Extended(s, s', {at}) && Opens(s.m, s'.m, s.root, {})
  {
    hide Walk, Opens, Shape, Plain;
  }

  /** A page of the process's own that is cleared is all that goes. */
  lemma ClearedOnly(s: Space, fixed: bool, page: U64)
    requires Sound(s) && !KernelSlot(s.m, s.root, Indexes(page))
    ensures var c, at := Cleared(s, fixed, page), Indexes(page);
            && Extended(s, c, {at}) && Opens(s.m, c.m, s.root, {}) && !KernelSlot(c.m, s.root, at)
            && Walk(c.m, s.root, at) == if fixed && Canonical(page) && Walk(s.m, s.root, at).Page4K? then Absent
                                        else Walk(s.m, s.root, at)
  {
    hide Indexes, Walk, Opens, Shape, Plain, Level1;
    var c, at := Cleared(s, fixed, page), Indexes(page);
    if fixed && Canonical(page) && Walk(s.m, s.root, at).Page4K? {
      OwnLevel1(s.m, s.root, at);
      SetsLeaf(s.m, s.root, s.own, at, Level1(s.m, s.root, at), ZERO);
      UnmappedOnly(s, c, at);
    } else {
      NothingYet(s);
      Widen(s, s, {}, {at});
      OpensNothing(s.m, s.root);
    }
  }

  lemma OpensNothing(m: Memory, root: Pfn)
    ensures Opens(m, m, root, {})
  {
  }

  /** What is at the page is unmapped with MAP_FIXED, and refused without. */
  method MakeRoom(pages: PageTableManager, ghost alloc: FrameAllocator, page: U64, fixed: bool) returns (ok: bool)
    requires Ready(pages, alloc) && page % 4096 == 0
    modifies pages`memory, pages.ram
    ensures Ready(pages, alloc)
    ensures SpaceOf(pages, alloc) == Cleared(old(SpaceOf(pages, alloc)), fixed, page)
    ensures ok <==> !Canonical(page) || Walk(pages.memory, pages.cr3, Indexes(page)).Absent?
  {
    hide FrameAllocator.Supplies, FrameAllocator.Frames, Walk, Indexes, Shape, Level1, LeafSet;
    ghost var m, at := pages.memory, Indexes(page);
    var there := pages.Translate(page);
    if there.Some? {
      if !fixed {
        return false;
      }
      if Walk(m, pages.cr3, at).Page4K? {
        ClearedIsAbsent(m, pages.cr3, at);
      }
      var gone := pages.Unmap4K(page);
      if gone.Err? {
        return false;
      }
    }
    return true;
  }

  /** One page of a mapping: with MAP_FIXED what is there is unmapped first; then a fresh frame is mapped and filled. */
  method MapOne(pages: PageTableManager, alloc: FrameAllocator, page: U64, fixed: bool, flags: Flags,
                data: Option<seq<Byte>>, offset: U64)
    returns (r: Result<(), Errno>)
    requires Ready(pages, alloc) && flags.user && flags.present && page % 4096 == 0
    modifies pages`own, pages`memory, pages.ram, alloc
    ensures Ready(pages, alloc)
    ensures r.Ok? <==> CanPut(old(SpaceOf(pages, alloc)), fixed, page)
    ensures r.Ok? ==> Put(old(SpaceOf(pages, alloc)), SpaceOf(pages, alloc), fixed, page, flags, FilePage(data, offset))
    ensures r.Err? ==>
              r.error == ENOMEM && Extended(Cleared(old(SpaceOf(pages, alloc)), fixed, page), SpaceOf(pages, alloc), {})
  {
    hide FrameAllocator.Supplies, FrameAllocator.Frames, PageBytes, FrameOf, FilePage, Walk;
    hide Indexes, Extended, CanPut, Put;
    hide FreshPageOutcome, Charged, Shape, Cleared;
    ghost var s := SpaceOf(pages, alloc);
    ClearedIsSound(s, fixed, page);
    NothingYet(Cleared(s, fixed, page));
    var ok := MakeRoom(pages, alloc, page, fixed);
    ghost var s1 := SpaceOf(pages, alloc);
    RoomDecides(s, s1, fixed, page, ok);
    if !ok {
      return Err(ENOMEM);
    }
    var frame := MapFreshFrame(pages, alloc, page, flags);
    if frame.Err? {
      return Err(ENOMEM);
    }
    ghost var s2 := SpaceOf(pages, alloc);
    FillKeepsExtended(s1, s2, {Indexes(page)}, frame.value, FrameOf(FilePage(data, offset)));
    FillKeepsCharged(s1, s2, Indexes(page), frame.value, FrameOf(FilePage(data, offset)));
    FillsPage(s2, page, flags, frame.value, FilePage(data, offset));
    FillFrame(pages, frame.value, data, offset);
    RoomThenPage(s, s1, SpaceOf(pages, alloc), fixed, page, flags, FilePage(data, offset), frame.value);
    r := Ok(());
  }

  lemma RoomDecides(s: Space, s1: Space, fixed: bool, page: U64, ok: bool)
    requires s1 == Cleared(s, fixed, page) && page % 4096 == 0
    requires ok <==> !Canonical(page) || Walk(s1.m, s1.root, Indexes(page)).Absent?
    ensures CanPut(s, fixed, page) <==> ok && FreshPageOutcome(s1.m, s1.root, page, |s1.free|).Ok?
  {
    hide Walk, Indexes, Cleared, FramesFor;
    if PageAddress(page) {
      hide FreshPageOutcome;
      if ok {
        FreshFits(s1, page);
      } else {
        assert Indexes(page) in {Indexes(page)};
      }
    }
  }

  lemma RoomThenPage(s: Space, s1: Space, s2: Space, fixed: bool, page: U64, flags: Flags, contents: seq<Byte>,
                     frame: Pfn)
    requires s1 == Cleared(s, fixed, page) && Extended(s1, s2, {Indexes(page)}) && Charged(s1, s2, {Indexes(page)})
    requires Vacant(s1, Indexes(page)) && Holds(s2, page, flags, contents)
    requires frame in s1.free && Walk(s2.m, s2.root, Indexes(page)).entry.pfn == frame
    ensures Put(s, s2, fixed, page, flags, contents)
  {
    hide Extended, Walk, Indexes, Charged, Cleared;
  }

  /** A fresh page stands at `page`, and nothing else moved. */
  ghost predicate Replaced(s: Space, s': Space, page: U64, flags: Flags, contents: seq<Byte>) {
    && Extended(s, s', {Indexes(page)}) && Charged(s, s', {Indexes(page)})
    && FreshFrames(s, s', {Indexes(page)}) && Holds(s', page, flags, contents)
  }

  /** Outside the kernel slots a page put is a page replaced, and when one can be is seen without clearing it first. */
  lemma PutIsReplaced(s: Space, s': Space, fixed: bool, page: U64, flags: Flags, contents: seq<Byte>)
    requires Sound(s) && Put(s, s', fixed, page, flags, contents) && (fixed ==> !KernelSlot(s.m, s.root, Indexes(page)))
    ensures Replaced(s, s', page, flags, contents)
  {
    hide Extended, Walk, Indexes, FramesFor, Opens, Charged, Cleared;
    var at, c := Indexes(page), Cleared(s, fixed, page);
    NotKernel(s, fixed, page);
    ClearedOnly(s, fixed, page);
    ClearedIsSound(s, fixed, page);
    ExtendedTwice(s, c, s', {at}, {at});
    assert {at} + {at} == {at};
    ChargedAfter(s, c, s', at);
  }

  lemma NotKernel(s: Space, fixed: bool, page: U64)
    requires AllVacant(Cleared(s, fixed, page), {Indexes(page)}) && (fixed ==> !KernelSlot(s.m, s.root, Indexes(page)))
    ensures !KernelSlot(s.m, s.root, Indexes(page))
  {
    hide Indexes, Walk, KernelSlot;
    assert Indexes(page) in {Indexes(page)};
  }

  lemma CanPutIsCanLay(s: Space, fixed: bool, page: U64)
    requires Sound(s) && (fixed ==> !KernelSlot(s.m, s.root, Indexes(page)))
    ensures CanPut(s, fixed, page) <==> PageAddress(page) && CanLay(s, fixed, {Indexes(page)})
  {
    hide Indexes, Walk, FramesFor, Extended, Cleared, KernelSlot;
    var at, c := Indexes(page), Cleared(s, fixed, page);
    assert at in {at};
    if PageAddress(page) && !KernelSlot(s.m, s.root, at) {
      ClearedOnly(s, fixed, page);
      ClearedIsSound(s, fixed, page);
      OnePage(s, at);
      OnePage(c, at);
      SamePlaces(s, c, at);
    } else if PageAddress(page) {
      UnclearedIsSame(s, page);
    }
  }

  lemma UnclearedIsSame(s: Space, page: U64)
    ensures Cleared(s, false, page) == s
  {
  }

  lemma SamePlaces(s: Space, c: Space, at: Path)
    requires Opens(s.m, c.m, s.root, {}) && c.root == s.root && !KernelSlot(s.m, s.root, at)
    ensures MissingTables(c.m, c.root, at) == MissingTables(s.m, s.root, at)
  {
    MissingPlacesCount(s.m, s.root, at);
    MissingPlacesCount(c.m, c.root, at);
  }

  lemma ChargedAfter(s: Space, s1: Space, s2: Space, at: Path)
    requires Extended(s, s1, {at}) && Opens(s.m, s1.m, s.root, {}) && Charged(s1, s2, {at}) && s1.free == s.free
    requires !KernelSlot(s.m, s.root, at)
    ensures Charged(s, s2, {at})
  {
    hide Walk, Shape, MissingPlaces, FramesFor, AllAbove;
    assert s1.root == s.root;
    assert AllAbove({}) == {} by {
      NothingAbove();
    }
    OpensBoth(s, s1, s2, {}, {at});
    assert {} + {at} == {at};
    OnePage(s, at);
    OnePage(s1, at);
    MissingPlacesCount(s.m, s.root, at);
    MissingPlacesCount(s1.m, s.root, at);
  }

  lemma NothingAbove()
    ensures AllAbove({}) == {}
  {
  }

  lemma Widen(s: Space, s': Space, touched: set<Path>, more: set<Path>)
    requires Extended(s, s', touched) && touched <= more
    ensures Extended(s, s', more)
  {
    forall at | at !in more ensures SamePlace(s, s', at) {
    }
  }

  // A run of pages.

  datatype Source = Source(flags: Flags, fixed: bool, data: Option<seq<Byte>>, offset: U64)

  /** The pages from `start` up to `page` are mapped as asked, in fresh frames, and nothing else moved since `s0`. */
  ghost predicate Laid(s0: Space, s: Space, src: Source, start: nat, page: nat) {
    && start <= page <= USER_LIMIT
    && Extended(s0, s, PathsFrom(start, page)) && FreshFrames(s0, s, PathsFrom(start, page))
    && Charged(s0, s, PathsFrom(start, page)) && AllAccept(s0, src.fixed, PathsFrom(start, page))
    && forall p: U64 :: start <= p < page && PageAddress(p) ==> PageLaid(s, src, start, p)
  }

  ghost predicate PageLaid(s: Space, src: Source, start: nat, p: U64) {
    start <= p && Holds(s, p, src.flags, FilePage(src.data, PageOffset(src.offset, p - start)))
  }

  /** The page shows the file from its own place in it on. */
  ghost predicate PageShows(s: Space, src: Source, start: nat, p: U64) {
    start <= p && Holds(s, p, src.flags, FilePage(src.data, src.offset + (p - start)))
  }

  /** As long as the mapping ends within the 64-bit offsets every page shows its own part of the file. */
  lemma LaidShowsFile(s0: Space, s: Space, src: Source, start: nat, end: nat)
    requires Laid(s0, s, src, start, end) && src.offset + (end - start) <= U64_LIMIT
    ensures forall p: U64 :: start <= p < end && PageAddress(p) ==> PageShows(s, src, start, p)
  {
    hide Holds, Extended, FreshFrames, FilePage, Charged, AllAccept, PathsFrom;
    forall p: U64 | start <= p < end && PageAddress(p) ensures PageShows(s, src, start, p) {
      assert PageLaid(s, src, start, p);
    }
  }

  lemma NothingLaid(s: Space, src: Source, start: nat)
    requires Sound(s) && PageAddress(start)
    ensures Laid(s, s, src, start, start)
  {
    hide Charged, PathsFrom, Extended, FreshFrames, Accepts;
    NoPathsYet(start);
    NothingYet(s);
    NothingCharged(s);
  }

  lemma NoPathsYet(start: nat)
    requires PageAddress(start)
    ensures PathsFrom(start, start) == {}
  {
  }

  lemma OneMoreLaid(s0: Space, s: Space, s': Space, src: Source, start: U64, page: U64)
    requires Laid(s0, s, src, start, page) && PageAddress(start) && PageAddress(page)
    requires CanLay(s, src.fixed, {Indexes(page)})
    requires Replaced(s, s', page, src.flags, FilePage(src.data, PageOffset(src.offset, page - start)))
    ensures page + 4096 <= USER_LIMIT && Laid(s0, s', src, start, page + 4096)
  {
    hide Indexes, Extended, FreshFrames, Accepts, FilePage, PathsFrom, Charged, Holds, FramesFor;
    var at := Indexes(page);
    AfterPage(page);
    PathsGrow(start, page);
    LaysOn(s0, s, src, start, page);
    ExtendedTwice(s0, s, s', PathsFrom(start, page), {at});
    FreshFramesTwice(s0, s, s', PathsFrom(start, page), {at});
    ChargedOn(s0, s, s', src.fixed, PathsFrom(start, page), at);
    forall p: U64 | start <= p < page + 4096 && PageAddress(p) ensures PageLaid(s', src, start, p) {
      if p < page {
        assert PageLaid(s, src, start, p);
        if Indexes(p) == at {
          PathsOfPages(p, page);
        }
        StillHolds(s, s', {at}, p, src.flags, FilePage(src.data, PageOffset(src.offset, p - start)));
      }
    }
  }

  /** Whether the next page can be laid, seen from the start. */
  lemma LaysOn(s0: Space, s: Space, src: Source, start: U64, page: U64)
    requires Laid(s0, s, src, start, page) && PageAddress(start) && PageAddress(page)
    ensures page + 4096 <= USER_LIMIT && PathsFrom(start, page + 4096) == PathsFrom(start, page) + {Indexes(page)}
    ensures CanLay(s, src.fixed, {Indexes(page)}) <==> CanLay(s0, src.fixed, PathsFrom(start, page + 4096))
  {
    hide Indexes, Extended, FreshFrames, FilePage, PathsFrom, Charged, Holds, FramesFor, Small, PageLaid;
    var at, a := Indexes(page), PathsFrom(start, page);
    AfterPage(page);
    PathsGrow(start, page);
    AcceptsOn(s0, s, a, src.fixed, at);
    assert at in {at};
    if Accepts(s0, src.fixed, at) {
      AcceptedIsSmall(s0, src.fixed, a);
      AcceptedIsSmall(s0, src.fixed, {at});
      ChargedMeans(s0, s, a);
      SameRoot(s0, s, a);
      FramesForBoth(s0, s, a, {at});
    }
  }

  lemma ChargedMeans(s: Space, s': Space, a: set<Path>)
    requires Charged(s, s', a)
    ensures |s.free| == |s'.free| + FramesFor(s, a) && Opens(s.m, s'.m, s.root, AllAbove(a))
  {
    hide FramesFor, Opens, AllAbove;
  }

  lemma AcceptsOn(s0: Space, s: Space, touched: set<Path>, fixed: bool, at: Path)
    requires Extended(s0, s, touched) && at !in touched
    ensures Accepts(s, fixed, at) <==> Accepts(s0, fixed, at)
  {
    hide Walk, KernelSlot, Shape;
    assert SamePlace(s0, s, at);
  }

  lemma ChargedOn(s0: Space, s: Space, s': Space, fixed: bool, a: set<Path>, at: Path)
    requires Extended(s0, s, a) && Charged(s0, s, a) && Charged(s, s', {at}) && at !in a
    requires AllAccept(s0, fixed, a + {at})
    ensures Charged(s0, s', a + {at})
  {
    hide Accepts, FramesFor, Opens, AllAbove, Extended;
    AcceptedIsSmall(s0, fixed, a);
    AcceptedIsSmall(s0, fixed, {at});
    SameRoot(s0, s, a);
    FramesForBoth(s0, s, a, {at});
    OpensBoth(s0, s, s', a, {at});
  }

  /** What was laid could be laid. */
  lemma LaidCouldBe(s0: Space, s: Space, src: Source, start: nat, page: nat)
    requires Laid(s0, s, src, start, page)
    ensures CanLay(s0, src.fixed, PathsFrom(start, page))
  {
    hide Extended, FreshFrames, PathsFrom, FramesFor, Accepts, PageLaid;
  }

  lemma CanLayFewer(s: Space, fixed: bool, a: set<Path>, b: set<Path>)
    requires CanLay(s, fixed, b) && a <= b
    ensures CanLay(s, fixed, a)
  {
    hide FramesFor, Accepts;
    MoreFramesForMore(s, a, b);
  }

  /** The pages from `start` to `end` can be laid. */
  ghost predicate RangeCanBeLaid(s: Space, fixed: bool, start: nat, end: nat) {
    end <= USER_LIMIT && CanLay(s, fixed, PathsFrom(start, end))
  }

  lemma AfterPage(page: nat)
    requires PageAddress(page)
    ensures page + 4096 <= USER_LIMIT && forall p: U64 :: p < page + 4096 && PageAddress(p) ==> p <= page
  {
  }

  /** What is left behind when a mapping fails half way. */
  ghost predicate PartlyLaid(s0: Space, s: Space, src: Source, start: nat, end: nat) {
    exists touched: set<Path> :: Extended(s0, s, touched) && Within(touched, start, end)
      && (!src.fixed ==> forall at :: at in touched ==> Vacant(s0, at))
  }

  ghost predicate Within(touched: set<Path>, start: nat, end: nat) {
    forall at :: at in touched ==> exists p: U64 :: start <= p < end && p % 4096 == 0 && Indexes(p) == at
  }

  lemma StoppedAt(s0: Space, s: Space, s': Space, src: Source, start: nat, page: U64, end: nat)
    requires Sound(s0) && Laid(s0, s, src, start, page) && page < end && page % 4096 == 0
    requires Sound(s) && (src.fixed ==> !KernelSlot(s.m, s.root, Indexes(page)))
    requires Extended(Cleared(s, src.fixed, page), s', {})
    ensures PartlyLaid(s0, s', src, start, end)
  {
    hide Indexes, Extended, FreshFrames, Walk, KernelSlot, FilePage, PageLaid, Charged, PathsFrom, Cleared, Shape;
    var at, a, c := Indexes(page), PathsFrom(start, page), Cleared(s, src.fixed, page);
    var last := if src.fixed then {at} else {};
    if src.fixed {
      ClearedOnly(s, true, page);
    } else {
      UnclearedIsSame(s, page);
      NothingYet(s);
    }
    ExtendedTwice(s, c, s', last, {});
    assert last + {} == last;
    ExtendedTwice(s0, s, s', a, last);
    AcceptedIsSmall(s0, src.fixed, a);
    PathsAreWithin(start, page, end);
    assert Within(a + last, start, end);
  }

  lemma PathsAreWithin(start: nat, page: nat, end: nat)
    requires page <= end && page <= USER_LIMIT
    ensures Within(PathsFrom(start, page), start, end)
  {
    hide Indexes;
  }

  lemma CannotGoOn(s0: Space, s: Space, src: Source, start: U64, page: U64, end: nat)
    requires Laid(s0, s, src, start, page) && PageAddress(start) && page % 4096 == 0 && end % 4096 == 0 && page < end
    requires !(PageAddress(page) && CanLay(s, src.fixed, {Indexes(page)}))
    ensures !RangeCanBeLaid(s0, src.fixed, start, end)
  {
    hide Laid, CanLay, Indexes, PathsFrom;
    if RangeCanBeLaid(s0, src.fixed, start, end) {
      LaysOn(s0, s, src, start, page);
      PageStep(page, end);
      PathsWithin(start, page + 4096, end);
      CanLayFewer(s0, src.fixed, PathsFrom(start, page + 4096), PathsFrom(start, end));
    }
  }

  /** The spaces a mapping goes through, one page put after the other. */
  ghost predicate LaysAlong(trace: seq<Space>, src: Source, start: nat) {
    && trace != [] && (forall k :: 0 <= k < |trace| ==> Sound(trace[k]))
    && forall k :: 0 <= k < |trace| - 1 ==> PutsAt(trace[k], trace[k + 1], src, start, k)
  }

  ghost predicate PutsAt(s: Space, s': Space, src: Source, start: nat, k: nat) {
    && start + 4096 * k < USER_LIMIT
    && Put(s, s', src.fixed, start + 4096 * k, src.flags, FilePage(src.data, PageOffset(src.offset, 4096 * k)))
  }

  /** The mapping loop ran along `trace`: to the end, or to the first page that could not be put. */
  ghost predicate Ran(trace: seq<Space>, s0: Space, s: Space, src: Source, start: nat, length: nat, ok: bool) {
    && LaysAlong(trace, src, start) && trace[0] == s0
    && var n := |trace| - 1;
    if ok then 4096 * n == length && trace[n] == s
    else
      && 4096 * n < length && start + length < U64_LIMIT && !CanPut(trace[n], src.fixed, start + 4096 * n)
      && Extended(Cleared(trace[n], src.fixed, start + 4096 * n), s, {})
  }

  lemma StartsAlong(s: Space, src: Source, start: nat)
    requires Sound(s)
    ensures LaysAlong([s], src, start)
  {
  }

  lemma GoesAlong(trace: seq<Space>, s': Space, src: Source, start: nat, page: U64)
    requires LaysAlong(trace, src, start) && page == start + 4096 * (|trace| - 1) && Sound(s') && page < USER_LIMIT
    requires Put(trace[|trace| - 1], s', src.fixed, page, src.flags,
                 FilePage(src.data, PageOffset(src.offset, page - start)))
    ensures LaysAlong(trace + [s'], src, start)
  {
    hide Put, Sound, FilePage, PageOffset;
    assert PutsAt(trace[|trace| - 1], s', src, start, |trace| - 1);
    var longer := trace + [s'];
    forall k | 0 <= k < |longer| - 1 ensures PutsAt(longer[k], longer[k + 1], src, start, k) {
      if k < |trace| - 1 {
        assert PutsAt(trace[k], trace[k + 1], src, start, k);
      }
    }
  }

  /** The mapping loop. */
  method MapRange(pages: PageTableManager, alloc: FrameAllocator, start: U64, length: U64, src: Source)
    returns (r: Result<(), Errno>, ghost trace: seq<Space>)
    requires Ready(pages, alloc) && src.flags.user && src.flags.present
    requires PageAddress(start) && length % 4096 == 0 && length <= USER_LIMIT
    modifies pages`own, pages`memory, pages.ram, alloc
    ensures Ready(pages, alloc) && (r.Err? ==> r.error == ENOMEM)
    ensures Ran(trace, old(SpaceOf(pages, alloc)), SpaceOf(pages, alloc), src, start, length, r.Ok?)
  {
    hide FrameAllocator.Supplies, FrameAllocator.Frames, PageTableManager.Valid, Ready, Sound;
    hide LaysAlong, CanPut, Put, Cleared;
    hide Extended, PageOffset, FilePage;
    ghost var s0 := SpaceOf(pages, alloc);
    trace := [s0];
    ReadyIsSound(pages, alloc);
    RangeIsSmall(start, length);
    StartsAlong(s0, src, start);
    var page: nat, fileOffset := start, src.offset;
    OffsetAtStart(src.offset);
    while page < start + length
      invariant Ready(pages, alloc) && start <= page <= start + length && page % 4096 == 0
      invariant LaysAlong(trace, src, start) && trace != [] && trace[0] == s0 && page == start + 4096 * (|trace| - 1)
      invariant trace[|trace| - 1] == SpaceOf(pages, alloc)
      invariant fileOffset == PageOffset(src.offset, page - start)
    {
      r := MapOne(pages, alloc, page, src.fixed, src.flags, src.data, fileOffset);
      if r.Err? {
        return;
      }
      ReadyIsSound(pages, alloc);
      PutIsBelow(trace[|trace| - 1], src.fixed, page);
      GoesAlong(trace, SpaceOf(pages, alloc), src, start, page);
      trace := trace + [SpaceOf(pages, alloc)];
      NextOffset(src.offset, page - start);
      PageStep(page, start + length);
      page, fileOffset := page + 4096, PageOffset(fileOffset, 4096);
    }
    r := Ok(());
  }

  lemma PutIsBelow(s: Space, fixed: bool, page: U64)
    requires CanPut(s, fixed, page)
    ensures page < USER_LIMIT
  {
  }

  /** With MAP_FIXED, no page of the range is in a kernel slot. */
  ghost predicate Quiet(s: Space, fixed: bool, start: nat, end: nat) {
    fixed ==> forall p: U64 :: start <= p < end && p % 4096 == 0 ==> !KernelSlot(s.m, s.root, Indexes(p))
  }

  lemma QuietAfter(s0: Space, s: Space, src: Source, start: nat, page: U64, end: nat)
    requires Quiet(s0, src.fixed, start, end) && Laid(s0, s, src, start, page) && page < end && page % 4096 == 0
    ensures src.fixed ==> !KernelSlot(s.m, s.root, Indexes(page))
  {
    hide Indexes, FreshFrames, PageLaid, Walk, Accepts, Charged, PathsFrom;
    SameRoot(s0, s, PathsFrom(start, page));
  }

  /** Away from the kernel slots every step of the loop lays the pages up to it. */
  lemma {:induction false} LaidAlong(trace: seq<Space>, src: Source, start: U64, end: nat, k: nat)
    requires LaysAlong(trace, src, start) && PageAddress(start) && k < |trace| && Quiet(trace[0], src.fixed, start, end)
    requires start + 4096 * k <= end
    ensures Laid(trace[0], trace[k], src, start, start + 4096 * k)
  {
    hide Laid, Quiet, Sound, Put, Indexes, FilePage, Replaced, CanLay;
    if k == 0 {
      NothingLaid(trace[0], src, start);
    } else {
      var s, s', page := trace[k - 1], trace[k], start + 4096 * (k - 1);
      LaidAlong(trace, src, start, end, k - 1);
      assert PutsAt(s, s', src, start, k - 1);
      QuietAfter(trace[0], s, src, start, page, end);
      PutIsReplaced(s, s', src.fixed, page, src.flags, FilePage(src.data, PageOffset(src.offset, page - start)));
      CouldPut(s, s', src.fixed, page, src.flags, FilePage(src.data, PageOffset(src.offset, page - start)));
      CanPutIsCanLay(s, src.fixed, page);
      OneMoreLaid(trace[0], s, s', src, start, page);
    }
  }

  lemma CouldPut(s: Space, s': Space, fixed: bool, page: U64, flags: Flags, contents: seq<Byte>)
    requires Put(s, s', fixed, page, flags, contents)
    ensures CanPut(s, fixed, page)
  {
    hide Cleared, Extended, FreshFrames, Indexes, Charged;
    GrowsOn(Cleared(s, fixed, page), s', {Indexes(page)}, {});
  }

  /** The whole loop, away from the kernel slots: it succeeds exactly when all pages can be laid, and lays them. */
  lemma RanQuietly(trace: seq<Space>, s0: Space, s: Space, src: Source, start: U64, length: U64, ok: bool)
    requires Ran(trace, s0, s, src, start, length, ok) && Sound(s0) && Quiet(s0, src.fixed, start, start + length)
    requires PageAddress(start) && length % 4096 == 0
    ensures ok <==> RangeCanBeLaid(s0, src.fixed, start, start + length)
    ensures if ok then Laid(s0, s, src, start, start + length) else PartlyLaid(s0, s, src, start, start + length)
  {
    hide Laid, Quiet, Put, Indexes, FilePage, CanPut, CanLay, Cleared, Extended, RangeCanBeLaid, PartlyLaid, Shape;
    var n := |trace| - 1;
    var page := start + 4096 * n;
    LaidAlong(trace, src, start, start + length, n);
    if ok {
      LaidWas(s0, s, src, start, page);
    } else {
      QuietAfter(s0, trace[n], src, start, page, start + length);
      CanPutIsCanLay(trace[n], src.fixed, page);
      CannotGoOn(s0, trace[n], src, start, page, start + length);
      StoppedAt(s0, trace[n], s, src, start, page, start + length);
    }
  }

  lemma LaidWas(s0: Space, s: Space, src: Source, start: nat, page: nat)
    requires Laid(s0, s, src, start, page)
    ensures RangeCanBeLaid(s0, src.fixed, start, page)
  {
    hide CanLay, Extended, FreshFrames, Charged, AllAccept, PathsFrom;
    LaidCouldBe(s0, s, src, start, page);
  }

  lemma RangeIsSmall(start: nat, length: nat)
    requires PageAddress(start) && length <= USER_LIMIT && length % 4096 == 0
    ensures start % 4096 == 0 && (start + length) % 4096 == 0 && start + length < 0x1_0000_0000_0000_0000
  {
  }

  lemma IsPage(a: nat)
    requires a % 4096 == 0 && a < USER_LIMIT
    ensures PageAddress(a)
  {
  }

  lemma PageStep(page: nat, end: nat)
    requires page % 4096 == 0 && end % 4096 == 0 && page < end
    ensures page + 4096 <= end && (page + 4096) % 4096 == 0
  {
  }

  lemma OffsetAtStart(offset: U64)
    ensures PageOffset(offset, 0) == offset
  {
  }

  lemma DownKeepsOrder(a: U64, b: U64)
    requires a <= b
    ensures Down(a) <= Down(b)
  {
  }

  lemma DownFacts(a: U64)
    ensures Down(a) % 4096 == 0 && Down(a) <= a < Down(a) + 4096
  {
  }

  lemma BumpMoves(next: U64, length: U64)
    requires next < USER_LIMIT && length > 0
    ensures Bump(next, length) > next
  {
  }

  /** What an `mmap` call asks for; `file` is what the descriptor leads to. */
  datatype MmapCall = MmapCall(address: U64, length: U64, prot: Protection, fixed: bool, anonymous: bool, mapType: nat,
                               file: Result<Option<seq<Byte>>, Errno>, offset: U64)

  /** The length in whole pages, when there is one. */
  function Rounded(length: U64): Option<U64> {
    Up(length)
  }

  function SourceOf(call: MmapCall): Source {
    var data := if call.anonymous || call.file.Err? then None else call.file.value;
    Source(ProtFlags(call.prot), call.fixed, data, call.offset)
  }

  /** The address asked for: MAP_FIXED's, the hint's page, or the next place in line. */
  function Target(call: MmapCall, next: U64): U64 {
    if call.fixed then call.address else if Down(call.address) != 0 then Down(call.address) else next
  }

  /** What `mmap` refuses before it looks at the page tables. */
  function Refusal(call: MmapCall, next: U64): Option<Errno> {
    if call.length == 0 || call.offset % 4096 != 0 || Rounded(call.length).None? then Some(EINVAL)
    else
      var target, length := Target(call, next), Rounded(call.length).value;
      if target % 4096 != 0 then Some(EINVAL)
      else if target + length > USER_LIMIT then Some(ENOMEM)
      else if call.mapType == 0 then Some(EINVAL)
      else if !call.anonymous && call.file.Err? then Some(call.file.error)
      else None
  }

  /** The calls that are not refused. */
  lemma AcceptedIff(call: MmapCall, next: U64)
    ensures Refusal(call, next).None? <==>
              && 0 < call.length < U64_LIMIT - 4095 && call.offset % 4096 == 0 && call.mapType != 0
              && (call.anonymous || call.file.Ok?) && (call.fixed ==> call.address % 4096 == 0)
              && (!call.fixed && call.address < 4096 ==> next % 4096 == 0)
              && Target(call, next) + Down(call.length + 4095) <= USER_LIMIT
  {
    DownFacts(call.address);
  }

  /** Where a mapping goes, and `next_mmap` after the search. */
  ghost function Chosen(m: Memory, root: Pfn, fixed: bool, target: U64, next: U64, length: U64): Place
    requires length > 0
  {
    if fixed then Place(Some(target), next) else Search(m, root, Down(target), next, length)
  }

  /** `next_mmap` moves past the place it gives away. */
  function NextAfter(call: MmapCall, next: U64): U64
    requires Rounded(call.length).Some?
  {
    if !call.fixed && Down(call.address) == 0 then Bump(next, Rounded(call.length).value) else next
  }

  ghost function PlaceOf(m: Memory, root: Pfn, call: MmapCall, next: U64): Place
    requires Refusal(call, next).None?
  {
    Chosen(m, root, call.fixed, Target(call, next), NextAfter(call, next), Rounded(call.length).value)
  }

  /**
   What `mmap` does at a place: it puts page after page. Unless MAP_FIXED names a page in a kernel slot it succeeds
   exactly when there is a place and all its pages can be laid, and then every page shows its part of the file, at
   its own offset as long as that does not run past 64 bits; when it fails, pages it was to replace may be gone.
   */
  ghost predicate Outcome(s0: Space, s: Space, src: Source, place: Option<U64>, length: U64, r: Result<U64, Errno>,
                          trace: seq<Space>) {
    && (r.Err? ==> r.error == ENOMEM) && (r.Ok? ==> place == Some(r.value))
    && if place.None? then r.Err? && s == s0
       else
         && Ran(trace, s0, s, src, place.value, length, r.Ok?)
         && (!src.fixed ==> RangeFree(s0.m, s0.root, place.value, length))
         && (Quiet(s0, src.fixed, place.value, place.value + length) ==>
               Settled(s0, s, src, place.value, length, r.Ok?))
  }

  ghost predicate Settled(s0: Space, s: Space, src: Source, start: U64, length: U64, ok: bool) {
    && (ok <==> RangeCanBeLaid(s0, src.fixed, start, start + length))
    && if ok then
         && Laid(s0, s, src, start, start + length)
         && (src.offset + length <= U64_LIMIT ==>
               forall p: U64 :: start <= p < start + length && PageAddress(p) ==> PageShows(s, src, start, p))
       else PartlyLaid(s0, s, src, start, start + length)
  }

  lemma ChosenFixed(m: Memory, root: Pfn, fixed: bool, target: U64, next: U64, length: U64)
    requires length > 0
    ensures Chosen(m, root, fixed, target, next, length) ==
              if fixed then Place(Some(target), next) else Search(m, root, Down(target), next, length)
  {
  }

  lemma NoPlace(s: Space, src: Source, length: U64)
    ensures Outcome(s, s, src, None, length, Err(ENOMEM), [])
  {
  }

  lemma PlaceOutcome(s0: Space, s: Space, src: Source, start: U64, length: U64, r: Result<U64, Errno>,
                     trace: seq<Space>)
    requires Sound(s0) && PageAddress(start) && length % 4096 == 0
    requires !src.fixed ==> RangeFree(s0.m, s0.root, start, length)
    requires Ran(trace, s0, s, src, start, length, r.Ok?) && (if r.Ok? then r.value == start else r.error == ENOMEM)
    ensures Outcome(s0, s, src, Some(start), length, r, trace)
  {
    hide RangeCanBeLaid, RangeFree, Laid, PartlyLaid, Ran, Quiet, Sound;
    if Quiet(s0, src.fixed, start, start + length) {
      RanQuietly(trace, s0, s, src, start, length, r.Ok?);
      if r.Ok? && src.offset + length <= U64_LIMIT {
        LaidShowsFile(s0, s, src, start, start + length);
      }
    }
  }

  // What a caller gets.

  /** The byte a call asks for at an address of its mapping: the file's from the offset on, zero past its end. */
  function AskedByte(call: MmapCall, start: nat, a: nat): Byte
    requires start <= a
  {
    var k := call.offset + (a - start);
    if !call.anonymous && call.file.Ok? && call.file.value.Some? && k < |call.file.value.value| then
      call.file.value.value[k]
    else 0
  }

  /**
   A call that succeeds gives user code at every address of its range the byte it asked for; it may be read, written
   just with PROT_WRITE and executed just with PROT_EXEC, over all four levels of the tables.
   */
  lemma MappedAsAsked(s0: Space, s: Space, call: MmapCall, start: U64, length: U64, p: U64)
    requires Settled(s0, s, SourceOf(call), start, length, true) && Permissive(s0.m, s0.own)
    requires call.offset + length <= U64_LIMIT && start <= p < start + length && PageAddress(p)
    ensures forall a: nat :: p <= a < p + 4096 ==> ByteAt(s, a) == Some(AskedByte(call, start, a))
    ensures UserPage(s.m, s.root, Indexes(p))
    ensures Writable(s.m, s.root, Indexes(p)) <==> call.prot.write
    ensures Executable(s.m, s.root, Indexes(p)) <==> call.prot.exec
  {
    hide Shape, Permissive, Indexes, Walk, UserPage, Writable, Executable, Holds, ByteAt, FilePage, RangeCanBeLaid;
    hide FreshFrames, Charged, AllAccept, PathsFrom;
    var src := SourceOf(call);
    assert PageLaid(s, src, start, p) && PageShows(s, src, start, p);
    HeldIsPermitted(s, p, src.flags, FilePage(src.data, PageOffset(src.offset, p - start)));
    AfterPage(p);
    forall a: nat | p <= a < p + 4096 ensures ByteAt(s, a) == Some(AskedByte(call, start, a)) {
      SamePage(p, a);
      ByteShown(s, src, start, p, a);
    }
  }

  lemma SamePage(p: nat, a: nat)
    requires p % 4096 == 0 && p <= a < p + 4096
    ensures p == a - a % 4096
  {
  }

  lemma ByteShown(s: Space, src: Source, start: nat, page: U64, a: nat)
    requires PageShows(s, src, start, page) && a < USER_LIMIT && page == a - a % 4096
    ensures var k := src.offset + (a - start);
            ByteAt(s, a) == Some(if src.data.Some? && k < |src.data.value| then src.data.value[k] else 0)
  {
    hide Indexes, PageBytes, Walk, KernelSlot, UserPath;
    var contents, k := FilePage(src.data, src.offset + (page - start)), a % 4096;
    assert contents[k] == if src.data.Some? && src.offset + (page - start) + k < |src.data.value| then
                            src.data.value[src.offset + (page - start) + k]
                          else 0;
  }

  /** The address a call names is where the mapping goes: always with MAP_FIXED, and when its page range is free. */
  lemma PlaceAskedFor(m: Memory, root: Pfn, call: MmapCall, next: U64)
    requires Refusal(call, next).None?
    ensures call.fixed ==> PlaceOf(m, root, call, next) == Place(Some(call.address), next)
    ensures !call.fixed && call.address >= 4096
            && RangeFree(m, root, Down(call.address), Rounded(call.length).value) ==>
              PlaceOf(m, root, call, next) == Place(Some(Down(call.address)), next)
    ensures !call.fixed && call.address < 4096 && RangeFree(m, root, Down(next), Rounded(call.length).value) ==>
              var place := PlaceOf(m, root, call, next); place.start == Some(Down(next)) && place.next > next
    ensures Rounded(call.length).value % 4096 == 0 && Rounded(call.length).value - 4096 < call.length
            && call.length <= Rounded(call.length).value
  {
    hide RangeFree;
    DownFacts(call.address);
  }

  class MmapState {
    var nextMmap: U64

    constructor (base: U64)
      ensures nextMmap == base
    {
      nextMmap := base;
    }

    /** The inner loop of the search: is every page of the range unmapped? */
    static method RangeIsFree(pages: PageTableManager, candidate: U64, length: U64) returns (free: bool)
      requires pages.Backed() && candidate % 4096 == 0 && candidate + length + 4096 < U64_LIMIT
      ensures free == RangeFree(pages.memory, pages.cr3, candidate, length)
    {
      hide Walk, Indexes;
      var page: nat := candidate;
      while page < candidate + length
        invariant candidate <= page < U64_LIMIT && page % 4096 == 0
        invariant forall a: U64 :: candidate <= a < page && a % 4096 == 0 && a < candidate + length ==>
                    !Occupied(pages.memory, pages.cr3, a)
      {
        var there := pages.Translate(page);
        if there.Some? {
          assert Occupied(pages.memory, pages.cr3, page);
          return false;
        }
        page := page + 4096;
      }
      return true;
    }

    /** The outer loop. What it decreases is the user space left above `next_mmap`. */
    method FindPlace(pages: PageTableManager, target: U64, length: U64) returns (place: Option<U64>)
      requires pages.Backed() && target < USER_LIMIT && 0 < length <= USER_LIMIT
      modifies this
      ensures var found := Search(pages.memory, pages.cr3, Down(target), old(nextMmap), length);
              place == found.start && nextMmap == found.next
    {
      hide RangeFree, Down, Bump;
      DownFacts(target);
      var candidate: U64 := Down(target);
      while true
        invariant candidate % 4096 == 0 && candidate < USER_LIMIT
        invariant Search(pages.memory, pages.cr3, candidate, nextMmap, length)
                  == Search(pages.memory, pages.cr3, Down(target), old(nextMmap), length)
        decreases USER_LIMIT - nextMmap
      {
        var free := RangeIsFree(pages, candidate, length);
        if free {
          return Some(candidate);
        }
        var next := nextMmap;
        if next >= USER_LIMIT {
          return None;
        }
        BumpMoves(next, length);
        DownFacts(next);
        nextMmap := Bump(next, length);
        candidate := Down(next);
      }
    }

    /** `map_with_runtime_allocator`. */
    method PlaceAndMap(pages: PageTableManager, alloc: FrameAllocator, target: U64, length: U64, src: Source)
      returns (r: Result<U64, Errno>, ghost trace: seq<Space>)
      requires Ready(pages, alloc) && src.flags.user && src.flags.present
      requires target % 4096 == 0 && length % 4096 == 0 && length > 0 && target + length <= USER_LIMIT
      modifies this, pages`own, pages`memory, pages.ram, alloc
      ensures Ready(pages, alloc)
      ensures nextMmap == Chosen(old(pages.memory), pages.cr3, src.fixed, target, old(nextMmap), length).next
      ensures var place := Chosen(old(pages.memory), pages.cr3, src.fixed, target, old(nextMmap), length).start;
              Outcome(old(SpaceOf(pages, alloc)), SpaceOf(pages, alloc), src, place, length, r, trace)
    {
      hide FrameAllocator.Supplies, FrameAllocator.Frames, PageTableManager.Valid, Ready, Outcome, Chosen, Sound;
      hide Ran, RangeFree, Search, Down;
      ReadyIsSound(pages, alloc);
      ghost var s := SpaceOf(pages, alloc);
      DownFacts(target);
      var actual: U64 := target;
      ChosenFixed(pages.memory, pages.cr3, src.fixed, target, nextMmap, length);
      if !src.fixed {
        SearchFinds(pages.memory, pages.cr3, Down(target), nextMmap, length);
        var place := FindPlace(pages, target, length);
        if place.None? {
          NoPlace(s, src, length);
          return Err(ENOMEM), [];
        }
        actual := place.value;
      }
      IsPage(actual);
      var mapped;
      mapped, trace := MapRange(pages, alloc, actual, length, src);
      r := if mapped.Ok? then Ok(actual) else Err(mapped.error);
      PlaceOutcome(s, SpaceOf(pages, alloc), src, actual, length, r, trace);
    }

    /** The place for a call that is not refused, moving `next_mmap` past it when it is used. */
    method Choose(call: MmapCall) returns (target: U64)
      requires call.length > 0 && Rounded(call.length).Some?
      modifies this
      ensures target == Target(call, old(nextMmap)) && nextMmap == NextAfter(call, old(nextMmap))
    {
      if call.fixed {
        return call.address;
      }
      var hint := Down(call.address);
      target := if hint != 0 then hint else nextMmap;
      if hint == 0 {
        nextMmap := Bump(nextMmap, Rounded(call.length).value);
      }
    }

    /** `map_memory` and `map_with_runtime_allocator`. */
    method MapMemory(pages: PageTableManager, alloc: FrameAllocator, call: MmapCall)
      returns (r: Result<U64, Errno>, ghost trace: seq<Space>)
      requires Ready(pages, alloc)
      modifies this, pages`own, pages`memory, pages.ram, alloc
      ensures Ready(pages, alloc)
      ensures var refusal := Refusal(call, old(nextMmap));
              refusal.Some? ==> r == Err(refusal.value) && SpaceOf(pages, alloc) == old(SpaceOf(pages, alloc))
      ensures Refusal(call, old(nextMmap)).Some? ==>
                nextMmap == if call.length > 0 && call.offset % 4096 == 0 && Rounded(call.length).Some?
                            then NextAfter(call, old(nextMmap)) else old(nextMmap)
      ensures Refusal(call, old(nextMmap)).None? ==>
                var place := PlaceOf(old(pages.memory), pages.cr3, call, old(nextMmap));
                && nextMmap == place.next
                && Outcome(old(SpaceOf(pages, alloc)), SpaceOf(pages, alloc), SourceOf(call), place.start,
                           Rounded(call.length).value, r, trace)
    {
      hide FrameAllocator.Supplies, FrameAllocator.Frames, Ready, Outcome, Chosen;
      trace := [];
      if call.length == 0 {
        return Err(EINVAL), [];
      }
      if call.offset % 4096 != 0 {
        return Err(EINVAL), [];
      }
      var rounded := Rounded(call.length);
      if rounded.None? {
        return Err(EINVAL), [];
      }
      var length := rounded.value;
      var target := Choose(call);
      if target % 4096 != 0 {
        return Err(EINVAL), [];
      }
      if target + length > USER_LIMIT {
        return Err(ENOMEM), [];
      }
      if call.mapType == 0 {
        return Err(EINVAL), [];
      }
      if !call.anonymous && call.file.Err? {
        return Err(call.file.error), [];
      }
      r, trace := PlaceAndMap(pages, alloc, target, length, SourceOf(call));
    }
  }
}
