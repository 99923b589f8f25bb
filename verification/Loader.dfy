/** Loading an ELF image into the active address space (kernel/src/velf/loader.rs). */
module Loader {
  import opened Prelude
  import opened Bytes
  import opened PageTables
  import opened FrameAllocation
  import opened Paging
  import opened PagingRuns
  import opened Words
  import opened UserPages
  import opened Elf

  datatype Loaded = Loaded(entry: U64, bias: U64, start: U64, end: U64, segments: nat, pages: nat)

  function Down(value: U64): U64 {
    value - value % 4096
  }

  function Up(value: U64): Option<U64> {
    if value + 4095 < U64_LIMIT then Some(Down(value + 4095)) else None
  }

  /** `align` is zero or a power of two. */
  predicate Aligned(align: U64) {
    align == 0 || (align as bv64) & ((align - 1) as bv64) == 0
  }

  function ValidateSegment(image: Image, ph: ProgramHeader): Result<(), ElfError> {
    if ph.filesz > ph.memsz then Err(FileszGreaterThanMemsz)
    else if !Aligned(ph.align) then Err(BadAlignment)
    else if BytesAt(image, ph.offset, ph.filesz).Err? then Err(SegmentOutOfBounds)
    else if ph.vaddr + ph.memsz >= U64_LIMIT then Err(AddressOverflow)
    else Ok(())
  }

  datatype Span = Span(start: U64, end: U64)

  /** The pages a segment occupies once moved by `bias`. */
  function MappedSpan(ph: ProgramHeader, bias: U64): Result<Span, ElfError> {
    if ph.vaddr + ph.memsz + bias >= U64_LIMIT then Err(AddressOverflow)
    else
      match Up(ph.vaddr + ph.memsz + bias)
      case None => Err(AddressOverflow)
      case Some(end) => Ok(Span(Down(ph.vaddr + bias), end))
  }

  datatype Surveyed = Surveyed(start: U64, end: U64, segments: nat)

  /** What one program header adds to a survey. */
  function SurveyOne(image: Image, bias: U64, index: nat, so: Surveyed): Result<Surveyed, ElfError> {
    match Phdr(image, index)
    case Err(e) => Err(e)
    case Ok(ph) =>
      if ph.kind != PT_LOAD then Ok(so)
      else if so.segments >= 32 then Err(TooManyLoadSegments)
      else if ValidateSegment(image, ph).Err? then Err(ValidateSegment(image, ph).error)
      else
        match MappedSpan(ph, bias)
        case Err(e) => Err(e)
        case Ok(span) =>
          if span.start >= USER_LIMIT || span.end > USER_LIMIT then Err(OutsideUserRange)
          else Ok(Surveyed(Min(so.start, span.start), Max(so.end, span.end), so.segments + 1))
  }

  /** The first pass of `load_at` over the first `n` program headers. */
  function Survey(image: Image, bias: U64, n: nat): Result<Surveyed, ElfError> {
    if n == 0 then Ok(Surveyed(U64_LIMIT - 1, 0, 0))
    else
      match Survey(image, bias, n - 1)
      case Err(e) => Err(e)
      case Ok(so) => SurveyOne(image, bias, n - 1, so)
  }

  /** A loadable segment whose file part lies in the image and whose pages lie in the user half. */
  ghost predicate Loadable(image: Image, bias: U64, ph: ProgramHeader) {
    && ph.kind == PT_LOAD && ph.filesz <= ph.memsz && ph.offset + ph.filesz <= |image.bytes| < U64_LIMIT
    && MappedSpan(ph, bias).Ok? && MappedSpan(ph, bias).value.start < USER_LIMIT
    && MappedSpan(ph, bias).value.end <= USER_LIMIT
  }

  ghost predicate Fits(image: Image, bias: U64, k: nat, all: Surveyed) {
    && Phdr(image, k).Ok?
    && var ph := Phdr(image, k).value;
    ph.kind == PT_LOAD ==>
      && Loadable(image, bias, ph)
      && all.start <= MappedSpan(ph, bias).value.start && MappedSpan(ph, bias).value.end <= all.end
  }

  /** A survey that succeeds has seen only loadable segments, and its bounds enclose them all. */
  lemma {:induction false} SurveyMeans(image: Image, bias: U64, n: nat)
    requires Survey(image, bias, n).Ok? && |image.bytes| < U64_LIMIT
    ensures Survey(image, bias, n).value.segments <= 32
    ensures AllFit(image, bias, n, Survey(image, bias, n).value)
  {
    hide SurveyOne, AllFit;
    if n > 0 {
      SurveyMeans(image, bias, n - 1);
      SurveyOneKeeps(image, bias, n - 1, Survey(image, bias, n - 1).value);
    } else {
      NoneFit(image, bias, Surveyed(U64_LIMIT - 1, 0, 0));
    }
  }

  lemma NoneFit(image: Image, bias: U64, all: Surveyed)
    ensures AllFit(image, bias, 0, all)
  {
  }

  ghost predicate AllFit(image: Image, bias: U64, n: nat, all: Surveyed) {
    forall k :: 0 <= k < n ==> Fits(image, bias, k, all)
  }

  lemma SurveyOneKeeps(image: Image, bias: U64, n: nat, so: Surveyed)
    requires SurveyOne(image, bias, n, so).Ok? && |image.bytes| < U64_LIMIT && so.segments <= 32
             && AllFit(image, bias, n, so)
    ensures var all := SurveyOne(image, bias, n, so).value; all.segments <= 32 && AllFit(image, bias, n + 1, all)
  {
    hide SurveyOne, Fits;
    SurveyOneMeans(image, bias, n, so, n);
    forall k | 0 <= k < n ensures Fits(image, bias, k, SurveyOne(image, bias, n, so).value) {
      SurveyOneMeans(image, bias, n, so, k);
    }
  }

  lemma SurveyOneMeans(image: Image, bias: U64, n: nat, so: Surveyed, k: nat)
    requires SurveyOne(image, bias, n, so).Ok? && |image.bytes| < U64_LIMIT && so.segments <= 32
    ensures var all := SurveyOne(image, bias, n, so).value;
            all.segments <= 32 && Fits(image, bias, n, all) && (Fits(image, bias, k, so) ==> Fits(image, bias, k, all))
  {
    hide ValidateSegment, Phdr, MappedSpan;
    ValidatedIsInImage(image, n);
  }

  lemma ValidatedIsInImage(image: Image, k: nat)
    requires |image.bytes| < U64_LIMIT
    ensures Phdr(image, k).Ok? && ValidateSegment(image, Phdr(image, k).value).Ok? ==>
              var ph := Phdr(image, k).value; ph.filesz <= ph.memsz && ph.offset + ph.filesz <= |image.bytes|
  {
    hide Phdr;
  }

  /** A header the first pass lets through: readable, and a loadable segment within the image and the user half. */
  ghost predicate Takes(image: Image, bias: U64, k: nat) {
    && Phdr(image, k).Ok?
    && var ph := Phdr(image, k).value;
    ph.kind == PT_LOAD ==> Loadable(image, bias, ph) && Aligned(ph.align)
  }

  predicate IsSegment(image: Image, k: nat) {
    Phdr(image, k).Ok? && Phdr(image, k).value.kind == PT_LOAD
  }

  ghost function SegmentIndexes(image: Image, n: nat): set<nat> {
    set k: nat | k < n && IsSegment(image, k)
  }

  lemma SurveyOneIff(image: Image, bias: U64, k: nat, so: Surveyed)
    requires |image.bytes| < U64_LIMIT
    ensures SurveyOne(image, bias, k, so).Ok? <==> Takes(image, bias, k) && (IsSegment(image, k) ==> so.segments < 32)
    ensures SurveyOne(image, bias, k, so).Ok? ==>
              SurveyOne(image, bias, k, so).value.segments == so.segments + if IsSegment(image, k) then 1 else 0
  {
    hide Phdr, Aligned, Up;
  }

  /** The first pass succeeds exactly when every header may pass and there are at most 32 segments. */
  lemma {:induction false} SurveyIff(image: Image, bias: U64, n: nat)
    requires |image.bytes| < U64_LIMIT
    ensures Survey(image, bias, n).Ok? <==>
              (forall k: nat :: k < n ==> Takes(image, bias, k)) && |SegmentIndexes(image, n)| <= 32
    ensures Survey(image, bias, n).Ok? ==> Survey(image, bias, n).value.segments == |SegmentIndexes(image, n)|
  {
    hide SurveyOne, Takes, IsSegment;
    if n > 0 {
      SurveyIff(image, bias, n - 1);
      if Survey(image, bias, n - 1).Ok? {
        SurveyOneIff(image, bias, n - 1, Survey(image, bias, n - 1).value);
      }
      var fewer, more := SegmentIndexes(image, n - 1), SegmentIndexes(image, n);
      assert more == if IsSegment(image, n - 1) then fewer + {n - 1} else fewer;
    }
  }

  function SegmentFlags(ph: ProgramHeader): Flags {
    NO_FLAGS.(present := true, user := true, write := ph.writable, noExecute := !ph.executable)
  }

  /** The byte a segment puts at an address: the file's, or zero past the file part and around it. */
  function SegmentByte(image: Image, ph: ProgramHeader, bias: U64, a: nat): Byte
    requires ph.offset + ph.filesz <= |image.bytes|
  {
    var start := ph.vaddr + bias;
    if start <= a < start + ph.filesz then image.bytes[ph.offset + (a - start)] else 0
  }

  function PageContents(image: Image, ph: ProgramHeader, bias: U64, page: nat): (bytes: seq<Byte>)
    requires ph.offset + ph.filesz <= |image.bytes|
    ensures |bytes| == 4096
  {
    seq<Byte>(4096, k requires 0 <= k < 4096 => SegmentByte(image, ph, bias, page + k))
  }

  lemma CopiedPage(image: Image, ph: ProgramHeader, bias: U64, page: nat)
    requires ph.offset + ph.filesz <= |image.bytes|
    ensures var start := ph.vaddr + bias;
            var from, to := Max(start, page), Min(start + ph.filesz, page + 4096);
            if from >= to then Zeros(4096) == PageContents(image, ph, bias, page)
            else
              var source := ph.offset + (from - start);
              Overlay(Zeros(4096), from - page, image.bytes[source..source + (to - from)])
              == PageContents(image, ph, bias, page)
  {
    var start := ph.vaddr + bias;
    var from, to := Max(start, page), Min(start + ph.filesz, page + 4096);
    var expected := PageContents(image, ph, bias, page);
    hide Overlay;
    if from < to {
      var source := ph.offset + (from - start);
      var bytes := image.bytes[source..source + (to - from)];
      var copied := Overlay(Zeros(4096), from - page, bytes);
      OverlayAt(Zeros(4096), from - page, bytes);
      forall k | 0 <= k < 4096 ensures copied[k] == expected[k] {
        assert expected[k] == SegmentByte(image, ph, bias, page + k);
        if from - page <= k < to - page {
          assert copied[k] == bytes[k - (from - page)] == image.bytes[source + (k - (from - page))];
        }
      }
      assert copied == expected;
    } else {
      forall k | 0 <= k < 4096 ensures expected[k] == 0 {
        assert expected[k] == SegmentByte(image, ph, bias, page + k);
      }
      assert Zeros(4096) == expected;
    }
  }

  /** Fills the frame mapped at `page` with what the segment has there. */
  method Populate(pages: PageTableManager, image: Image, ph: ProgramHeader, bias: U64, page: U64, frame: Pfn)
    returns (r: Result<(), ElfError>)
    requires pages.Valid() && frame !in pages.own && Loadable(image, bias, ph) && page + 4096 < U64_LIMIT
    modifies pages`memory, pages.ram
    ensures pages.Valid() && r == Ok(())
    ensures pages.memory == old(pages.memory)[frame := FrameOf(PageContents(image, ph, bias, page))]
  {
    hide PageBytes, FrameOf, PageContents, Overlay, MappedSpan, Shape;
    var start := ph.vaddr + bias;
    var fileEnd, pageEnd := start + ph.filesz, page + 4096;
    var copyStart, copyEnd := Max(start, page), Min(fileEnd, pageEnd);
    CopiedPage(image, ph, bias, page);
    WholeOverlay(PageBytes(pages.memory[frame]), Zeros(4096));
    FramesAreBytes(ZERO_FRAME, Zeros(4096));
    StoreBytes(pages, frame, 0, Zeros(4096));
    if copyStart >= copyEnd {
      return Ok(());
    }
    var source := BytesAt(image, ph.offset + (copyStart - start), copyEnd - copyStart);
    if source.Err? {
      return Err(SegmentOutOfBounds);
    }
    StoreBytes(pages, frame, copyStart - page, source.value);
    return Ok(());
  }

  // The second pass.

  /** The paths of the pages from `start` up to `end`. */
  ghost function PathsFrom(start: nat, end: nat): set<Path>
    requires end <= USER_LIMIT
  {
    set p: U64 | start <= p < end && PageAddress(p) :: Indexes(p)
  }

  lemma PathsGrow(start: nat, page: nat)
    requires start <= page && PageAddress(start) && PageAddress(page)
    ensures PathsFrom(start, page + 4096) == PathsFrom(start, page) + {Indexes(page)}
    ensures Indexes(page) !in PathsFrom(start, page)
  {
    hide Indexes;
    forall p: U64 | start <= p < page && PageAddress(p) ensures Indexes(p) != Indexes(page) {
      if Indexes(p) == Indexes(page) {
        PathsOfPages(p, page);
      }
    }
    assert forall p: U64 :: start <= p < page + 4096 && PageAddress(p) ==> p < page || p == page;
  }

  /** Page `p` of the space holds what the segment puts there. */
  ghost predicate PageLoaded(s: Space, image: Image, bias: U64, ph: ProgramHeader, p: U64) {
    ph.offset + ph.filesz <= |image.bytes| && Holds(s, p, SegmentFlags(ph), PageContents(image, ph, bias, p))
  }

  ghost predicate PagesLoaded(s: Space, image: Image, bias: U64, ph: ProgramHeader, start: nat, end: nat) {
    forall p: U64 :: start <= p < end && PageAddress(p) ==> PageLoaded(s, image, bias, ph, p)
  }

  lemma GrowthKeepsPages(s: Space, s': Space, added: set<Path>, image: Image, bias: U64, ph: ProgramHeader,
                         start: nat, end: nat)
    requires Grew(s, s', added) && PagesLoaded(s, image, bias, ph, start, end)
    ensures PagesLoaded(s', image, bias, ph, start, end)
  {
    hide Grew, Holds, PageContents;
    forall p: U64 | start <= p < end && PageAddress(p) ensures PageLoaded(s', image, bias, ph, p) {
      assert PageLoaded(s, image, bias, ph, p);
      GrowthKeepsPage(s, s', added, p, SegmentFlags(ph), PageContents(image, ph, bias, p));
    }
  }

  /** Whether a page of a segment can be loaded, and if not why. */
  ghost function PageOutcome(s: Space, page: U64): Result<(), ElfError> {
    if Walk(s.m, s.root, Indexes(page)) != Absent then Err(PageAlreadyMapped(page))
    else
      match FreshPageOutcome(s.m, s.root, page, |s.free|)
      case Ok(_) => Ok(())
      case Err(NoFrame) => Err(ElfError.OutOfMemory)
      case Err(NoMapping) => Err(MappingFailed)
  }

  lemma PageFits(s: Space, page: U64)
    requires PageAddress(page)
    ensures PageOutcome(s, page).Ok? <==> CanGrow(s, {Indexes(page)})
    ensures PageOutcome(s, page).Err? ==> Blames(PageOutcome(s, page).error, AllVacant(s, {Indexes(page)}))
  {
    hide Indexes, Walk, FramesFor, FreshPageOutcome;
    if Walk(s.m, s.root, Indexes(page)).Absent? {
      FreshFits(s, page);
    } else {
      assert Indexes(page) in {Indexes(page)};
    }
  }

  /** An error of the page loop; it is PageAlreadyMapped only when something is in the way. */
  predicate Blames(e: ElfError, clear: bool) {
    e == ElfError.OutOfMemory || e == MappingFailed || (e.PageAlreadyMapped? && !clear)
  }

  /** One page of a segment: it must not be mapped yet; then a fresh frame is mapped and filled. */
  method LoadPage(pages: PageTableManager, alloc: FrameAllocator, image: Image, bias: U64, ph: ProgramHeader, page: U64)
    returns (r: Result<(), ElfError>)
    requires pages.Valid() && alloc.Supplies() && pages.own.Keys !! alloc.Frames()
    requires Loadable(image, bias, ph) && PageAddress(page)
    modifies pages`own, pages`memory, pages.ram, alloc
    ensures pages.Valid() && alloc.Supplies() && pages.own.Keys !! alloc.Frames()
    ensures r == PageOutcome(old(SpaceOf(pages, alloc)), page)
    ensures Grew(old(SpaceOf(pages, alloc)), SpaceOf(pages, alloc), if r.Ok? then {Indexes(page)} else {})
    ensures r.Ok? ==> PageLoaded(SpaceOf(pages, alloc), image, bias, ph, page)
    ensures r.Ok? ==> Charged(old(SpaceOf(pages, alloc)), SpaceOf(pages, alloc), {Indexes(page)})
  {
    hide FrameAllocator.Supplies, FrameAllocator.Frames, PageBytes, FrameOf, PageContents, Walk;
    hide Indexes, Extended, Charged;
    hide FreshPageOutcome;
    ghost var s := SpaceOf(pages, alloc);
    NothingYet(s);
    var there := pages.Translate(page);
    if there.Some? {
      return Err(PageAlreadyMapped(page));
    }
    var frame := MapFreshFrame(pages, alloc, page, SegmentFlags(ph));
    if frame.Err? {
      return Err(if frame.error == NoFrame then ElfError.OutOfMemory else MappingFailed);
    }
    ghost var s1, contents := SpaceOf(pages, alloc), PageContents(image, ph, bias, page);
    FillKeepsExtended(s, s1, {Indexes(page)}, frame.value, FrameOf(contents));
    FillKeepsCharged(s, s1, Indexes(page), frame.value, FrameOf(contents));
    FillsPage(s1, page, SegmentFlags(ph), frame.value, contents);
    r := Populate(pages, image, ph, bias, page, frame.value);
  }

  /** A page after those already loaded: they stay loaded. */
  method LoadOne(pages: PageTableManager, alloc: FrameAllocator, image: Image, bias: U64, ph: ProgramHeader,
                 page: U64, start: nat)
    returns (r: Result<(), ElfError>)
    requires pages.Valid() && alloc.Supplies() && pages.own.Keys !! alloc.Frames()
    requires Loadable(image, bias, ph) && PageAddress(page)
    requires PagesLoaded(SpaceOf(pages, alloc), image, bias, ph, start, page)
    modifies pages`own, pages`memory, pages.ram, alloc
    ensures pages.Valid() && alloc.Supplies() && pages.own.Keys !! alloc.Frames()
    ensures Grew(old(SpaceOf(pages, alloc)), SpaceOf(pages, alloc), if r.Ok? then {Indexes(page)} else {})
    ensures r.Ok? ==> PagesLoaded(SpaceOf(pages, alloc), image, bias, ph, start, page + 4096)
    ensures r.Ok? ==> Charged(old(SpaceOf(pages, alloc)), SpaceOf(pages, alloc), {Indexes(page)})
    ensures r.Ok? <==> old(CanGrow(SpaceOf(pages, alloc), {Indexes(page)}))
    ensures r.Err? ==> Blames(r.error, old(AllVacant(SpaceOf(pages, alloc), {Indexes(page)})))
  {
    hide FrameAllocator.Supplies, FrameAllocator.Frames, Walk, Indexes, Grew, PageLoaded, Shape;
    hide Charged, CanGrow, PageOutcome, AllVacant;
    ghost var s := SpaceOf(pages, alloc);
    PageFits(s, page);
    r := LoadPage(pages, alloc, image, bias, ph, page);
    if r.Err? {
      return;
    }
    GrowthKeepsPages(s, SpaceOf(pages, alloc), {Indexes(page)}, image, bias, ph, start, page);
    assert forall p: U64 :: p < page + 4096 && PageAddress(p) ==> p < page || p == page;
  }

  lemma PathsWithin(start: nat, page: nat, end: nat)
    requires page <= end <= USER_LIMIT
    ensures PathsFrom(start, page) <= PathsFrom(start, end)
  {
    hide Indexes;
  }

  lemma NothingYet(s: Space)
    requires Sound(s)
    ensures Grew(s, s, {})
  {
  }

  lemma SpanIsPages(ph: ProgramHeader, bias: U64)
    requires MappedSpan(ph, bias).Ok? && MappedSpan(ph, bias).value.end <= USER_LIMIT
    ensures var span := MappedSpan(ph, bias).value;
            span.start % 4096 == 0 && span.end % 4096 == 0 && span.start <= span.end
  {
  }

  lemma NextPage(page: nat, end: nat)
    requires page % 4096 == 0 && end % 4096 == 0 && page < end <= USER_LIMIT
    ensures PageAddress(page) && (page + 4096) % 4096 == 0 && page + 4096 <= end
  {
  }

  /** The page loop of one segment. `added` collects the paths of the pages it has mapped. */
  method LoadSegment(pages: PageTableManager, alloc: FrameAllocator, image: Image, bias: U64, ph: ProgramHeader)
    returns (r: Result<nat, ElfError>, ghost added: set<Path>)
    requires pages.Valid() && alloc.Supplies() && pages.own.Keys !! alloc.Frames()
    requires Loadable(image, bias, ph)
    modifies pages`own, pages`memory, pages.ram, alloc
    ensures pages.Valid() && alloc.Supplies() && pages.own.Keys !! alloc.Frames()
    ensures Grew(old(SpaceOf(pages, alloc)), SpaceOf(pages, alloc), added)
    ensures r.Ok? ==> var span := MappedSpan(ph, bias).value;
                      && added == PathsFrom(span.start, span.end) && r.value == |added|
                      && PagesLoaded(SpaceOf(pages, alloc), image, bias, ph, span.start, span.end)
                      && Charged(old(SpaceOf(pages, alloc)), SpaceOf(pages, alloc), added)
    ensures added <= SpanPaths(ph, bias)
    ensures r.Ok? <==> CanGrow(old(SpaceOf(pages, alloc)), SpanPaths(ph, bias))
    ensures r.Err? ==> Blames(r.error, AllVacant(old(SpaceOf(pages, alloc)), SpanPaths(ph, bias)))
  {
    hide FrameAllocator.Supplies, FrameAllocator.Frames, PageContents, Walk, Indexes, Extended;
    hide Grew, MappedSpan, PageLoaded, Shape;
    hide CanGrow, Charged, AllVacant;
    ghost var s := SpaceOf(pages, alloc);
    var span := MappedSpan(ph, bias).value;
    var page: nat, mapped := span.start, 0;
    added := {};
    NothingYet(s);
    NothingCharged(s);
    SpanIsPages(ph, bias);
    while page < span.end
      invariant pages.Valid() && alloc.Supplies() && pages.own.Keys !! alloc.Frames()
      invariant page % 4096 == 0 && span.start <= page <= span.end
      invariant Grew(s, SpaceOf(pages, alloc), added) && Charged(s, SpaceOf(pages, alloc), added)
      invariant added == PathsFrom(span.start, page) && mapped == |added|
      invariant PagesLoaded(SpaceOf(pages, alloc), image, bias, ph, span.start, page)
    {
      NextPage(page, span.end);
      ghost var before := SpaceOf(pages, alloc);
      var one := LoadOne(pages, alloc, image, bias, ph, page, span.start);
      PathsGrow(span.start, page);
      PathsWithin(span.start, page + 4096, span.end);
      OneMorePage(s, before, SpaceOf(pages, alloc), added, Indexes(page), SpanPaths(ph, bias), one.Ok?);
      if one.Err? {
        return Err(one.error), added;
      }
      added := added + {Indexes(page)};
      mapped, page := mapped + 1, page + 4096;
    }
    GrowsOn(s, SpaceOf(pages, alloc), added, {});
    r := Ok(mapped);
  }

  ghost function SpanPaths(ph: ProgramHeader, bias: U64): set<Path>
    requires MappedSpan(ph, bias).Ok? && MappedSpan(ph, bias).value.end <= USER_LIMIT
  {
    PathsFrom(MappedSpan(ph, bias).value.start, MappedSpan(ph, bias).value.end)
  }

  /** A page after those of `added`, on the way to all of `total`. */
  lemma OneMorePage(s: Space, before: Space, after: Space, added: set<Path>, at: Path, total: set<Path>, ok: bool)
    requires Grew(s, before, added) && Charged(s, before, added) && at !in added && added + {at} <= total
    requires Grew(before, after, if ok then {at} else {}) && (ok ==> Charged(before, after, {at}))
    requires ok <==> CanGrow(before, {at})
    ensures Grew(s, after, if ok then added + {at} else added)
    ensures ok ==> Charged(s, after, added + {at})
    ensures !ok ==> !CanGrow(s, total)
    ensures AllVacant(s, total) ==> AllVacant(before, {at})
  {
    hide Grew, Charged, Vacant, FramesFor;
    GrewTwice(s, before, after, added, if ok then {at} else {});
    GrowsOn(s, before, added, {at});
    GrownVacant(s, before, added, {at});
    MoreFramesForMore(s, added + {at}, total);
    if ok {
      ChargedTwice(s, before, after, added, {at});
    } else {
      assert added + {} == added;
    }
  }

  /** Every segment among the first `n` program headers is in place. */
  ghost predicate SegmentsLoaded(s: Space, image: Image, bias: U64, n: nat) {
    forall k :: 0 <= k < n && IsSegment(image, k) ==> SegmentLoaded(s, image, bias, Phdr(image, k).value)
  }

  ghost predicate SegmentLoaded(s: Space, image: Image, bias: U64, ph: ProgramHeader) {
    Loadable(image, bias, ph)
      && var span := MappedSpan(ph, bias).value; PagesLoaded(s, image, bias, ph, span.start, span.end)
  }

  /** The paths of all pages of the segments among the first `n` program headers. */
  ghost function SegmentPaths(image: Image, bias: U64, n: nat): set<Path> {
    if n == 0 then {}
    else if IsSegment(image, n - 1) && Loadable(image, bias, Phdr(image, n - 1).value) then
      SegmentPaths(image, bias, n - 1) + SpanPaths(Phdr(image, n - 1).value, bias)
    else SegmentPaths(image, bias, n - 1)
  }

  lemma GrowthKeepsSegments(s: Space, s': Space, added: set<Path>, image: Image, bias: U64, n: nat)
    requires Grew(s, s', added) && SegmentsLoaded(s, image, bias, n)
    ensures SegmentsLoaded(s', image, bias, n)
  {
    hide Grew, Loadable, MappedSpan, PagesLoaded, Phdr;
    forall k | 0 <= k < n && IsSegment(image, k) ensures SegmentLoaded(s', image, bias, Phdr(image, k).value) {
      var ph := Phdr(image, k).value;
      assert SegmentLoaded(s, image, bias, ph);
      GrowthKeepsSegment(s, s', added, image, bias, ph);
    }
  }

  lemma GrowthKeepsSegment(s: Space, s': Space, added: set<Path>, image: Image, bias: U64, ph: ProgramHeader)
    requires Grew(s, s', added) && SegmentLoaded(s, image, bias, ph)
    ensures SegmentLoaded(s', image, bias, ph)
  {
    hide Grew, PagesLoaded;
    GrowthKeepsPages(s, s', added, image, bias, ph, MappedSpan(ph, bias).value.start, MappedSpan(ph, bias).value.end);
  }

  /** Pages that are loaded are not vacant, so a later segment cannot add them again. */
  lemma {:induction false} LoadedIsNotVacant(s: Space, image: Image, bias: U64, n: nat, at: Path)
    requires SegmentsLoaded(s, image, bias, n) && at in SegmentPaths(image, bias, n)
    ensures !Vacant(s, at)
  {
    hide Phdr, MappedSpan, PathsFrom, SegmentLoaded, Vacant;
    if IsSegment(image, n - 1) && Loadable(image, bias, Phdr(image, n - 1).value) {
      var ph := Phdr(image, n - 1).value;
      if at in PathsFrom(MappedSpan(ph, bias).value.start, MappedSpan(ph, bias).value.end) {
        SegmentIsNotVacant(s, image, bias, ph, at);
        return;
      }
    }
    LoadedIsNotVacant(s, image, bias, n - 1, at);
  }

  lemma SegmentIsNotVacant(s: Space, image: Image, bias: U64, ph: ProgramHeader, at: Path)
    requires SegmentLoaded(s, image, bias, ph)
             && at in PathsFrom(MappedSpan(ph, bias).value.start, MappedSpan(ph, bias).value.end)
    ensures !Vacant(s, at)
  {
    hide Indexes, PageContents, MappedSpan, Shape;
    var span := MappedSpan(ph, bias).value;
    var p: U64 :| span.start <= p < span.end && PageAddress(p) && Indexes(p) == at;
    assert PageLoaded(s, image, bias, ph, p);
  }

  /** The new pages of a segment are none of the pages loaded before it. */
  lemma NewPagesAreDisjoint(s: Space, s': Space, added: set<Path>, image: Image, bias: U64, n: nat)
    requires SegmentsLoaded(s, image, bias, n) && Grew(s, s', added)
    ensures SegmentPaths(image, bias, n) !! added
  {
    hide SegmentsLoaded, SegmentPaths, Extended;
    forall at | at in added ensures at !in SegmentPaths(image, bias, n) {
      assert Vacant(s, at);
      if at in SegmentPaths(image, bias, n) {
        LoadedIsNotVacant(s, image, bias, n, at);
      }
    }
  }

  /** The first pass. */
  method SurveySegments(image: Image, bias: U64) returns (r: Result<Surveyed, ElfError>)
    ensures r == Survey(image, bias, image.header.phnum)
  {
    hide SurveyOne;
    var so := Surveyed(U64_LIMIT - 1, 0, 0);
    for index := 0 to image.header.phnum
      invariant Survey(image, bias, index) == Ok(so)
      invariant forall n :: 0 <= n < index ==> Survey(image, bias, n).Ok?
    {
      var one := SurveyOne(image, bias, index, so);
      if one.Err? {
        FailureStays(image, bias, index + 1, image.header.phnum);
        return Err(one.error);
      }
      so := one.value;
    }
    return Ok(so);
  }

  lemma {:induction false} FailureStays(image: Image, bias: U64, n: nat, total: nat)
    requires Survey(image, bias, n).Err? && n <= total
    ensures Survey(image, bias, total) == Survey(image, bias, n)
  {
    hide SurveyOne;
    if n < total {
      FailureStays(image, bias, n, total - 1);
    }
  }

  // When a load succeeds.

  /** Two spans have a page in common. */
  predicate Overlap(a: Span, b: Span) {
    Max(a.start, b.start) < Min(a.end, b.end)
  }

  lemma OverlapIsShared(a: Span, b: Span)
    requires a.start % 4096 == 0 && b.start % 4096 == 0 && a.end <= USER_LIMIT && b.end <= USER_LIMIT
    ensures Overlap(a, b) <==> !(PathsFrom(a.start, a.end) !! PathsFrom(b.start, b.end))
  {
    hide Indexes;
    if Overlap(a, b) {
      var p: U64 := Max(a.start, b.start);
      assert Indexes(p) in PathsFrom(a.start, a.end) && Indexes(p) in PathsFrom(b.start, b.end);
    } else {
      forall at | at in PathsFrom(a.start, a.end) ensures at !in PathsFrom(b.start, b.end) {
        if at in PathsFrom(b.start, b.end) {
          var p: U64 :| a.start <= p < a.end && PageAddress(p) && Indexes(p) == at;
          var q: U64 :| b.start <= q < b.end && PageAddress(q) && Indexes(q) == at;
          PathsOfPages(p, q);
        }
      }
    }
  }

  predicate SegmentsMeet(image: Image, bias: U64, j: nat, k: nat) {
    && IsSegment(image, j) && IsSegment(image, k)
    && var a, b := MappedSpan(Phdr(image, j).value, bias), MappedSpan(Phdr(image, k).value, bias);
    a.Ok? && b.Ok? && Overlap(a.value, b.value)
  }

  /** No two segments among the first `n` program headers share a page. */
  predicate SegmentsApart(image: Image, bias: U64, n: nat) {
    forall j, k :: 0 <= j < k < n ==> !SegmentsMeet(image, bias, j, k)
  }

  /**
   The segments among the first `n` program headers can be loaded: each page is free to be mapped, once, with its
   frames.
   */
  ghost predicate CanLoad(s: Space, image: Image, bias: U64, n: nat) {
    SegmentsApart(image, bias, n) && CanGrow(s, SegmentPaths(image, bias, n))
  }

  /** A segment has its pages to itself exactly when it meets none of those before it. */
  lemma {:induction false} OwnPagesIff(image: Image, bias: U64, n: nat, k: nat, all: Surveyed)
    requires n <= k && AllFit(image, bias, k, all) && Fits(image, bias, k, all) && IsSegment(image, k)
    ensures SegmentPaths(image, bias, n) !! SpanPaths(Phdr(image, k).value, bias) <==>
              forall j :: 0 <= j < n ==> !SegmentsMeet(image, bias, j, k)
  {
    hide Phdr, MappedSpan, PathsFrom, Overlap;
    if n > 0 {
      OwnPagesIff(image, bias, n - 1, k, all);
      assert Fits(image, bias, n - 1, all);
      if IsSegment(image, n - 1) {
        var a, b := Phdr(image, n - 1).value, Phdr(image, k).value;
        SpanIsPages(a, bias);
        SpanIsPages(b, bias);
        OverlapIsShared(MappedSpan(a, bias).value, MappedSpan(b, bias).value);
        assert SegmentsMeet(image, bias, n - 1, k) <==> Overlap(MappedSpan(a, bias).value, MappedSpan(b, bias).value);
      }
    }
  }

  lemma ApartStep(image: Image, bias: U64, k: nat, all: Surveyed)
    requires AllFit(image, bias, k, all) && Fits(image, bias, k, all) && IsSegment(image, k)
    ensures SegmentsApart(image, bias, k + 1) <==>
              SegmentsApart(image, bias, k) && SegmentPaths(image, bias, k) !! SpanPaths(Phdr(image, k).value, bias)
    ensures SegmentPaths(image, bias, k + 1) == SegmentPaths(image, bias, k) + SpanPaths(Phdr(image, k).value, bias)
  {
    hide Phdr, MappedSpan, PathsFrom, Overlap, SegmentsMeet;
    OwnPagesIff(image, bias, k, k, all);
  }

  lemma {:induction false} CanLoadFewer(s: Space, image: Image, bias: U64, n: nat, total: nat)
    requires n <= total
    ensures SegmentPaths(image, bias, n) <= SegmentPaths(image, bias, total)
    ensures SegmentsApart(image, bias, total) ==> SegmentsApart(image, bias, n)
    ensures CanLoad(s, image, bias, total) ==> CanLoad(s, image, bias, n)
  {
    hide Phdr, MappedSpan, PathsFrom, Loadable, SegmentsMeet, CanGrow;
    if n < total {
      CanLoadFewer(s, image, bias, n, total - 1);
      MoreFramesForMore(s, SegmentPaths(image, bias, total - 1), SegmentPaths(image, bias, total));
    }
  }

  /** Nothing is mapped at the segments' pages, and none is wanted twice. */
  ghost predicate AllClear(s: Space, image: Image, bias: U64, n: nat) {
    SegmentsApart(image, bias, n) && AllVacant(s, SegmentPaths(image, bias, n))
  }

  /** Whether the next segment can be loaded after those before it, seen from the start. */
  lemma NextCanLoad(start: Space, s: Space, image: Image, bias: U64, k: nat, added: set<Path>, mapped: nat,
                    all: Surveyed)
    requires LoadedUpTo(start, s, image, bias, k, added, mapped)
    requires AllFit(image, bias, k, all) && Fits(image, bias, k, all) && IsSegment(image, k)
    ensures CanGrow(s, SpanPaths(Phdr(image, k).value, bias)) <==> CanLoad(start, image, bias, k + 1)
    ensures AllClear(start, image, bias, k + 1) ==> AllVacant(s, SpanPaths(Phdr(image, k).value, bias))
  {
    hide Phdr, MappedSpan, PathsFrom, SegmentsApart, SegmentsLoaded, CanGrow, Grew, Charged, SegmentPaths;
    ApartStep(image, bias, k, all);
    GrowsOn(start, s, added, SpanPaths(Phdr(image, k).value, bias));
    GrownVacant(start, s, added, SpanPaths(Phdr(image, k).value, bias));
  }

  lemma LoadedCouldLoad(start: Space, s: Space, image: Image, bias: U64, n: nat, added: set<Path>, mapped: nat)
    requires LoadedUpTo(start, s, image, bias, n, added, mapped)
    ensures CanLoad(start, image, bias, n)
  {
    hide SegmentsApart, SegmentsLoaded, CanGrow, Grew, Charged, SegmentPaths;
    GrowsOn(start, s, added, {});
  }

  lemma BlamesFewer(e: ElfError, s: Space, image: Image, bias: U64, n: nat, total: nat)
    requires Blames(e, AllClear(s, image, bias, n)) && n <= total
    ensures Blames(e, AllClear(s, image, bias, total))
  {
    hide SegmentsApart, SegmentPaths;
    CanLoadFewer(s, image, bias, n, total);
  }

  ghost predicate Ready(pages: PageTableManager, alloc: FrameAllocator)
    reads pages, pages.ram, alloc
  {
    pages.Valid() && alloc.Supplies() && pages.own.Keys !! alloc.Frames()
  }

  lemma ReadyIsSound(pages: PageTableManager, alloc: FrameAllocator)
    requires Ready(pages, alloc)
    ensures Sound(SpaceOf(pages, alloc)) && pages.Backed()
  {
  }

  /** Since `start` the segments among the first `n` program headers were put in place, `mapped` pages at `added`. */
  ghost predicate LoadedUpTo(start: Space, s: Space, image: Image, bias: U64, n: nat, added: set<Path>, mapped: nat) {
    && Grew(start, s, added) && Charged(start, s, added) && SegmentsLoaded(s, image, bias, n)
    && SegmentsApart(image, bias, n) && added == SegmentPaths(image, bias, n) && mapped == |added|
  }

  lemma NoneLoaded(s: Space, image: Image, bias: U64)
    requires Sound(s)
    ensures LoadedUpTo(s, s, image, bias, 0, {}, 0)
  {
    hide Grew, Charged;
    NothingYet(s);
    NothingCharged(s);
  }

  lemma OtherHeader(start: Space, s: Space, image: Image, bias: U64, index: nat, added: set<Path>, mapped: nat)
    requires LoadedUpTo(start, s, image, bias, index, added, mapped) && !IsSegment(image, index)
    ensures LoadedUpTo(start, s, image, bias, index + 1, added, mapped)
  {
    hide IsSegment, SegmentLoaded, Grew, Charged;
    assert forall j :: 0 <= j < index ==> !SegmentsMeet(image, bias, j, index);
  }

  lemma OneMoreSegment(start: Space, s: Space, s': Space, more: set<Path>, image: Image, bias: U64, index: nat,
                       added: set<Path>, mapped: nat, all: Surveyed)
    requires LoadedUpTo(start, s, image, bias, index, added, mapped) && Grew(s, s', more) && Charged(s, s', more)
    requires AllFit(image, bias, index, all) && Fits(image, bias, index, all)
    requires IsSegment(image, index) && SegmentLoaded(s', image, bias, Phdr(image, index).value)
    requires more == SpanPaths(Phdr(image, index).value, bias)
    ensures LoadedUpTo(start, s', image, bias, index + 1, added + more, mapped + |more|)
  {
    hide Phdr, MappedSpan, PathsFrom, PagesLoaded, Grew, Charged, SegmentPaths, SegmentsApart, Loadable;
    GrewTwice(start, s, s', added, more);
    ChargedTwice(start, s, s', added, more);
    NewPagesAreDisjoint(s, s', more, image, bias, index);
    ApartStep(image, bias, index, all);
    GrowthKeepsSegments(s, s', more, image, bias, index);
  }

  /** What one program header adds to the pages loaded for those before it. */
  method LoadHeader(pages: PageTableManager, alloc: FrameAllocator, image: Image, bias: U64, index: nat,
                    ghost all: Surveyed, ghost start: Space, ghost before: set<Path>, mapped: nat)
    returns (r: Result<nat, ElfError>, ghost added: set<Path>)
    requires Ready(pages, alloc) && AllFit(image, bias, image.header.phnum, all) && index < image.header.phnum
    requires LoadedUpTo(start, SpaceOf(pages, alloc), image, bias, index, before, mapped)
    modifies pages`own, pages`memory, pages.ram, alloc
    ensures Ready(pages, alloc) && Grew(start, SpaceOf(pages, alloc), added)
    ensures r.Ok? ==> LoadedUpTo(start, SpaceOf(pages, alloc), image, bias, index + 1, added, r.value)
    ensures r.Err? ==> !CanLoad(start, image, bias, index + 1)
    ensures r.Err? ==> Blames(r.error, AllClear(start, image, bias, index + 1))
  {
    hide FrameAllocator.Supplies, FrameAllocator.Frames, PageTableManager.Valid, Extended, Grew;
    hide MappedSpan, PagesLoaded;
    hide Phdr, PathsFrom, SegmentsLoaded, Charged, CanGrow, CanLoad, AllClear, AllVacant, SegmentsApart;
    assert Fits(image, bias, index, all);
    var ph := Phdr(image, index).value;
    if ph.kind != PT_LOAD {
      OtherHeader(start, SpaceOf(pages, alloc), image, bias, index, before, mapped);
      return Ok(mapped), before;
    }
    ghost var s := SpaceOf(pages, alloc);
    NextCanLoad(start, s, image, bias, index, before, mapped, all);
    var one, more := LoadSegment(pages, alloc, image, bias, ph);
    GrewTwice(start, s, SpaceOf(pages, alloc), before, more);
    if one.Err? {
      return Err(one.error), before + more;
    }
    OneMoreSegment(start, s, SpaceOf(pages, alloc), more, image, bias, index, before, mapped, all);
    return Ok(mapped + one.value), before + more;
  }

  /** The second pass over the program headers, counting the pages it maps. */
  method LoadSegments(pages: PageTableManager, alloc: FrameAllocator, image: Image, bias: U64)
    returns (r: Result<nat, ElfError>, ghost added: set<Path>)
    requires Ready(pages, alloc) && Survey(image, bias, image.header.phnum).Ok? && |image.bytes| < U64_LIMIT
    modifies pages`own, pages`memory, pages.ram, alloc
    ensures Ready(pages, alloc) && Grew(old(SpaceOf(pages, alloc)), SpaceOf(pages, alloc), added)
    ensures r.Ok? ==>
              LoadedUpTo(old(SpaceOf(pages, alloc)), SpaceOf(pages, alloc), image, bias, image.header.phnum, added,
                         r.value)
    ensures r.Ok? <==> CanLoad(old(SpaceOf(pages, alloc)), image, bias, image.header.phnum)
    ensures r.Err? ==> Blames(r.error, AllClear(old(SpaceOf(pages, alloc)), image, bias, image.header.phnum))
  {
    ghost var start, all := SpaceOf(pages, alloc), Survey(image, bias, image.header.phnum).value;
    NoneLoaded(start, image, bias);
    SurveyMeans(image, bias, image.header.phnum);
    hide Ready, Grew, AllFit, Survey, LoadedUpTo, CanLoad, Blames, AllClear;
    r, added := Ok(0), {};
    for index := 0 to image.header.phnum
      invariant Ready(pages, alloc) && r.Ok?
      invariant LoadedUpTo(start, SpaceOf(pages, alloc), image, bias, index, added, r.value)
    {
      r, added := LoadHeader(pages, alloc, image, bias, index, all, start, added, r.value);
      if r.Err? {
        CanLoadFewer(start, image, bias, index + 1, image.header.phnum);
        BlamesFewer(r.error, start, image, bias, index + 1, image.header.phnum);
        return;
      }
    }
    LoadedMeans(start, SpaceOf(pages, alloc), image, bias, image.header.phnum, added, r.value);
    LoadedCouldLoad(start, SpaceOf(pages, alloc), image, bias, image.header.phnum, added, r.value);
  }

  lemma LoadedMeans(start: Space, s: Space, image: Image, bias: U64, n: nat, added: set<Path>, mapped: nat)
    requires LoadedUpTo(start, s, image, bias, n, added, mapped)
    ensures Grew(start, s, added) && Charged(start, s, added) && SegmentsLoaded(s, image, bias, n)
    ensures SegmentsApart(image, bias, n) && added == SegmentPaths(image, bias, n) && mapped == |added|
  {
  }

  /**
   `load_at`. Whatever happens, pages that were mapped before keep their translation and their bytes. On success every
   page of every segment is a new page of its own that holds what the segment puts there, and no segments share a page.
   It succeeds exactly when the headers are in order, the segments can be loaded and the entry point does not overflow;
   PageAlreadyMapped means that a page was wanted twice or was taken.
   */
  method LoadAt(pages: PageTableManager, alloc: FrameAllocator, image: Image, bias: U64)
    returns (r: Result<Loaded, ElfError>, ghost added: set<Path>)
    requires Ready(pages, alloc) && |image.bytes| < U64_LIMIT
    modifies pages`own, pages`memory, pages.ram, alloc
    ensures Ready(pages, alloc) && Grew(old(SpaceOf(pages, alloc)), SpaceOf(pages, alloc), added)
    ensures var survey := Survey(image, bias, image.header.phnum);
            if survey.Err? then r == Err(survey.error) && added == {}
            else if survey.value.segments == 0 then r == Err(BadHeader) && added == {}
            else if !CanLoad(old(SpaceOf(pages, alloc)), image, bias, image.header.phnum) then
              r.Err? && Blames(r.error, AllClear(old(SpaceOf(pages, alloc)), image, bias, image.header.phnum))
            else
              && added == SegmentPaths(image, bias, image.header.phnum)
              && SegmentsApart(image, bias, image.header.phnum)
              && SegmentsLoaded(SpaceOf(pages, alloc), image, bias, image.header.phnum)
              && Charged(old(SpaceOf(pages, alloc)), SpaceOf(pages, alloc), added)
              && r == if image.header.entry + bias >= U64_LIMIT then Err(AddressOverflow)
                      else Ok(Loaded(image.header.entry + bias, bias, survey.value.start, survey.value.end,
                                     survey.value.segments, |added|))
  {
    hide FrameAllocator.Supplies, FrameAllocator.Frames, PageTableManager.Valid, Ready, Extended;
    hide Grew, SegmentsLoaded, SegmentPaths;
    hide Survey, CanLoad, AllClear, Charged, SegmentsApart, Sound, LoadedUpTo;
    ghost var s := SpaceOf(pages, alloc);
    ReadyIsSound(pages, alloc);
    NothingYet(s);
    added := {};
    var survey := SurveySegments(image, bias);
    if survey.Err? {
      return Err(survey.error), {};
    }
    var all := survey.value;
    if all.segments == 0 {
      return Err(BadHeader), {};
    }
    var loaded;
    loaded, added := LoadSegments(pages, alloc, image, bias);
    if loaded.Err? {
      return Err(loaded.error), added;
    }
    LoadedMeans(s, SpaceOf(pages, alloc), image, bias, image.header.phnum, added, loaded.value);
    var entry := CheckedAdd(image.header.entry, bias);
    if entry.None? {
      return Err(AddressOverflow), added;
    }
    r := Ok(Loaded(entry.value, bias, all.start, all.end, all.segments, loaded.value));
  }

  // What a program finds in its memory.

  /** The byte user code reads at an address. */
  ghost function ByteAt(s: Space, a: nat): Option<Byte> {
    if a >= USER_LIMIT then None
    else
      var page: U64 := a - a % 4096;
      var leaf := Walk(s.m, s.root, Indexes(page));
      if leaf.Page4K? then Some(PageBytes(s.m[leaf.entry.pfn])[a % 4096]) else None
  }

  /** At every address of its pages a loaded segment shows its file bytes, and zero where it has none. */
  lemma LoadedByte(s: Space, image: Image, bias: U64, ph: ProgramHeader, a: nat)
    requires SegmentLoaded(s, image, bias, ph)
    requires var span := MappedSpan(ph, bias).value; span.start <= a < span.end
    ensures ByteAt(s, a) == Some(SegmentByte(image, ph, bias, a))
  {
    SpanIsPages(ph, bias);
    hide MappedSpan, PageLoaded;
    PageBelow(a, MappedSpan(ph, bias).value.start);
    var page: U64 := a - a % 4096;
    assert PageLoaded(s, image, bias, ph, page);
    ByteOfPage(s, image, bias, ph, page, a);
  }

  lemma ByteOfPage(s: Space, image: Image, bias: U64, ph: ProgramHeader, page: U64, a: nat)
    requires PageLoaded(s, image, bias, ph, page) && a < USER_LIMIT && page == a - a % 4096
    ensures ByteAt(s, a) == Some(SegmentByte(image, ph, bias, a))
  {
    hide Indexes, PageBytes, Walk, KernelSlot;
    var contents, k := PageContents(image, ph, bias, page), a % 4096;
    assert contents[k] == SegmentByte(image, ph, bias, page + k);
  }

  lemma PageBelow(a: nat, start: nat)
    requires start % 4096 == 0 && start <= a < USER_LIMIT
    ensures PageAddress(a - a % 4096) && start <= a - a % 4096
  {
  }

  /** Wherever the image says an address comes from the file, the loaded byte is that byte of the file. */
  lemma LoadedMatchesFile(s: Space, image: Image, bias: U64, address: U64)
    requires SegmentsLoaded(s, image, bias, image.header.phnum) && AddressToFile(image, address, 0).Some?
    ensures var offset := AddressToFile(image, address, 0).value;
            offset < |image.bytes| && ByteAt(s, address + bias) == Some(image.bytes[offset])
  {
    hide AddressToFile, Phdr, SegmentLoaded, ByteAt;
    var k := AddressToFileMeans(image, address, 0);
    assert IsSegment(image, k);
    SegmentMatchesFile(s, image, bias, Phdr(image, k).value, address);
  }

  lemma SegmentMatchesFile(s: Space, image: Image, bias: U64, ph: ProgramHeader, address: U64)
    requires SegmentLoaded(s, image, bias, ph) && ph.vaddr <= address < ph.vaddr + ph.filesz
    ensures var offset := ph.offset + (address - ph.vaddr);
            offset < |image.bytes| && ByteAt(s, address + bias) == Some(image.bytes[offset])
  {
    hide PagesLoaded, ByteAt, MappedSpan;
    FilePartIsMapped(ph, bias, address + bias);
    LoadedByte(s, image, bias, ph, address + bias);
  }

  lemma FilePartIsMapped(ph: ProgramHeader, bias: U64, a: nat)
    requires MappedSpan(ph, bias).Ok? && ph.filesz <= ph.memsz && ph.vaddr + bias <= a < ph.vaddr + bias + ph.memsz
    ensures var span := MappedSpan(ph, bias).value; span.start <= a < span.end
  {
  }

  /** The pages of a segment are those that it reaches into. */
  lemma SpanIsLeast(ph: ProgramHeader, bias: U64, p: nat)
    requires MappedSpan(ph, bias).Ok? && p % 4096 == 0
    ensures var span, start := MappedSpan(ph, bias).value, ph.vaddr + bias;
            span.start <= p < span.end <==> p < start + ph.memsz && start < p + 4096
  {
  }

  /** The byte a segment recorded with these fields puts at an address. */
  function RecordedByte(bytes: seq<Byte>, f: PhdrFields, bias: U64, a: nat): Byte
    requires f.offset + f.filesz <= |bytes|
  {
    var start := f.vaddr + bias;
    if start <= a < start + f.filesz then bytes[f.offset + (a - start)] else 0
  }

  /**
   A loaded program is as its file records it. Every page that a PT_LOAD header reaches into shows the file from
   p_offset on at p_vaddr, and zeros around it; user code may read it, write it just with PF_W and execute it just
   with PF_X, over all four levels of the tables.
   */
  lemma LoadedAsRecorded(s: Space, image: Image, bias: U64, k: nat, f: PhdrFields, p: U64)
    requires HasPhdr(image, k, f) && f.kind == PT_LOAD && SegmentsLoaded(s, image, bias, image.header.phnum)
    requires Sound(s) && Permissive(s.m, s.own)
    requires p % 4096 == 0 && p < f.vaddr + bias + f.memsz && f.vaddr + bias < p + 4096
    ensures f.offset + f.filesz <= |image.bytes| && PageAddress(p)
    ensures forall a: nat :: p <= a < p + 4096 ==> ByteAt(s, a) == Some(RecordedByte(image.bytes, f, bias, a))
    ensures UserPage(s.m, s.root, Indexes(p))
    ensures Writable(s.m, s.root, Indexes(p)) <==> f.writable
    ensures Executable(s.m, s.root, Indexes(p)) <==> f.executable
  {
    hide HasPhdr, Phdr, Shape, Permissive, ByteAt, PageContents, Indexes, Walk, UserPage, Writable, Executable;
    hide MappedSpan, Holds;
    PhdrGivesBack(image, k, f);
    PhdrIndex(image, k);
    var ph := Phdr(image, k).value;
    assert IsSegment(image, k) && SegmentLoaded(s, image, bias, ph);
    SpanIsLeast(ph, bias, p);
    SpanIsPages(ph, bias);
    assert PageLoaded(s, image, bias, ph, p);
    HeldIsPermitted(s, p, SegmentFlags(ph), PageContents(image, ph, bias, p));
    forall a: nat | p <= a < p + 4096 ensures ByteAt(s, a) == Some(RecordedByte(image.bytes, f, bias, a)) {
      SpanStep(ph, bias, p);
      LoadedByte(s, image, bias, ph, a);
    }
  }

  lemma PhdrIndex(image: Image, k: nat)
    requires Phdr(image, k).Ok?
    ensures k < image.header.phnum
  {
  }

  lemma SpanStep(ph: ProgramHeader, bias: U64, p: nat)
    requires MappedSpan(ph, bias).Ok? && MappedSpan(ph, bias).value.end <= USER_LIMIT
    requires var span := MappedSpan(ph, bias).value; p % 4096 == 0 && span.start <= p < span.end
    ensures p + 4096 <= MappedSpan(ph, bias).value.end
  {
    SpanIsPages(ph, bias);
  }
}
