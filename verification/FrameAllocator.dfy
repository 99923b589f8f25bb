/** The bump allocator of kernel/src/memory/frame.rs and the frame counter of map.rs. */
module FrameAllocation {
  import opened Prelude

  const RESERVED_LOW_MEMORY: U64 := 0x10_0000

  datatype RegionKind = Usable | Reserved

  datatype Region = Region(start: U64, end: U64, kind: RegionKind)

  function AlignUp(value: U64): Option<U64> {
    match CheckedAdd(value, 4095)
    case None => None
    case Some(v) => Some(v - v % 4096)
  }

  /** `frame_count`: whole pages between two addresses. */
  function FrameCount(start: U64, end: U64): U64 {
    match AlignUp(start)
    case None => 0
    case Some(aligned) => if aligned >= end then 0 else (end - aligned) / 4096
  }

  /** No address computed while scanning the region wraps past the top of u64. */
  predicate ClearOfTop(r: Region) {
    r.kind.Usable? ==> r.start + 2 * 4096 <= U64_LIMIT && r.end + 4096 < U64_LIMIT
  }

  /** First address of a region that may be handed out. */
  function FirstFrame(r: Region): nat {
    var low := Max(r.start, RESERVED_LOW_MEMORY) + 4095;
    low - low % 4096
  }

  /** A frame lying wholly inside a usable region, above the first MiB. */
  predicate FrameIn(r: Region, frame: nat) {
    && r.kind.Usable? && frame % 4096 == 0
    && r.start <= frame && RESERVED_LOW_MEMORY <= frame && frame + 4096 <= r.end
  }

  /** Frames of consecutive pages from `from` that end by `end`. */
  function FramesFrom(from: nat, end: nat): seq<nat>
    decreases end - from
  {
    if from + 4096 <= end then [from] + FramesFrom(from + 4096, end) else []
  }

  /** Everything still to be handed out, in order, when region `index` resumes at address `next`. */
  function Pending(regions: seq<Region>, index: nat, next: nat): seq<nat>
    decreases |regions| - index
  {
    if index >= |regions| then []
    else if regions[index].kind != Usable then Pending(regions, index + 1, 0)
    else FramesFrom(Max(next, FirstFrame(regions[index])), regions[index].end) + Pending(regions, index + 1, 0)
  }

  ghost predicate DisjointRegions(regions: seq<Region>) {
    forall i, j :: 0 <= i < j < |regions| && regions[i].kind.Usable? && regions[j].kind.Usable? ==>
      regions[i].end <= regions[j].start || regions[j].end <= regions[i].start
  }

  lemma PendingStep(regions: seq<Region>, index: nat, next: nat)
    requires index < |regions| && regions[index].kind.Usable?
    requires FirstFrame(regions[index]) <= next && next + 4096 <= regions[index].end
    ensures Pending(regions, index, next) == [next] + Pending(regions, index, next + 4096)
  {
    var r := regions[index];
    assert FramesFrom(next, r.end) == [next] + FramesFrom(next + 4096, r.end);
  }

  lemma PageAligned(address: nat)
    requires address % 4096 == 0
    ensures (address + 4096) % 4096 == 0
  {
  }

  lemma AlignedStart(r: Region)
    requires r.kind.Usable? && ClearOfTop(r)
    ensures AlignUp(Max(r.start, RESERVED_LOW_MEMORY)) == Some(FirstFrame(r))
    ensures FirstFrame(r) % 4096 == 0 && FirstFrame(r) + 4096 < U64_LIMIT && RESERVED_LOW_MEMORY <= FirstFrame(r)
  {
  }

  /** Every usable region lies in the 52-bit physical address space and no two share a byte. */
  ghost predicate PhysicalRegions(regions: seq<Region>) {
    if regions == [] then true
    else
      var rest, r := regions[..|regions| - 1], regions[|regions| - 1];
      && PhysicalRegions(rest)
      && (r.kind.Usable? ==>
            && r.start <= 0x10_0000_0000_0000 && r.end <= 0x10_0000_0000_0000
            && forall q :: q in rest && q.kind.Usable? ==> q.end <= r.start || r.end <= q.start)
  }

  lemma {:induction false} PhysicalRegionsAreDisjoint(regions: seq<Region>)
    requires PhysicalRegions(regions)
    ensures DisjointRegions(regions)
    ensures forall r :: r in regions ==> ClearOfTop(r) && (r.kind.Usable? ==> r.end <= 0x10_0000_0000_0000)
  {
    if regions != [] {
      var n := |regions| - 1;
      PhysicalRegionsAreDisjoint(regions[..n]);
      forall i | 0 <= i < n ensures regions[i] in regions[..n] {
        assert regions[..n][i] == regions[i];
      }
      forall i, j | 0 <= i < j < |regions| && regions[i].kind.Usable? && regions[j].kind.Usable?
        ensures regions[i].end <= regions[j].start || regions[j].end <= regions[i].start
      {
        if j < n {
          assert regions[..n][i] == regions[i] && regions[..n][j] == regions[j];
        }
      }
    }
  }

  ghost function PageNumbers(frames: seq<nat>): set<nat> {
    if frames == [] then {} else {frames[0] / 4096} + PageNumbers(frames[1..])
  }

  lemma {:induction false} PageNumbersMembers(frames: seq<nat>, p: nat)
    ensures p in PageNumbers(frames) <==> exists i :: 0 <= i < |frames| && frames[i] / 4096 == p
  {
    if frames != [] {
      PageNumbersMembers(frames[1..], p);
      if i :| 0 <= i < |frames[1..]| && frames[1..][i] / 4096 == p {
        assert frames[i + 1] / 4096 == p;
      }
      if j :| 0 < j < |frames| && frames[j] / 4096 == p {
        assert frames[1..][j - 1] / 4096 == p;
      }
    }
  }

  lemma HeadLeavesTail(regions: seq<Region>, index: nat, next: nat)
    requires PhysicalRegions(regions) && next % 4096 == 0
    ensures var all := Pending(regions, index, next);
            all != [] ==>
              && all[0] % 4096 == 0 && all[0] < 0x10_0000_0000_0000
              && all[0] / 4096 in PageNumbers(all)
              && PageNumbers(all[1..]) == PageNumbers(all) - {all[0] / 4096}
  {
    var all := Pending(regions, index, next);
    if all != [] {
      PhysicalRegionsAreDisjoint(regions);
      NoFrameTwice(regions, index, next);
      forall i | 0 <= i < |all| ensures all[i] % 4096 == 0 && all[i] < 0x10_0000_0000_0000 {
        PendingMembers(regions, index, next, all[i]);
      }
      PageNumbersMembers(all[1..], all[0] / 4096);
    }
  }

  class FrameAllocator {
    const regions: seq<Region>
    var regionIndex: nat
    var nextFrame: U64

    constructor (regions: seq<Region>)
      requires forall r :: r in regions ==> ClearOfTop(r)
      ensures Valid() && this.regions == regions
      ensures Rest() == Pending(regions, 0, 0)
    {
      this.regions := regions;
      regionIndex, nextFrame := 0, 0;
    }

    ghost predicate Valid()
      reads this
    {
      && (forall r :: r in regions ==> ClearOfTop(r))
      && nextFrame % 4096 == 0
      && (regionIndex < |regions| && nextFrame != 0 ==> nextFrame <= regions[regionIndex].end)
    }

    /** The frames not yet handed out, in the order they will be. */
    ghost function Rest(): seq<nat>
      reads this
    {
      Pending(regions, regionIndex, nextFrame)
    }

    /** What callers that map pages rely on. */
    ghost predicate Supplies()
      reads this
    {
      && PhysicalRegions(regions)
      && nextFrame % 4096 == 0
      && (regionIndex < |regions| && nextFrame != 0 ==> nextFrame <= regions[regionIndex].end)
    }

    ghost function Frames(): set<nat>
      reads this
    {
      PageNumbers(Rest())
    }

    /** The page number of the next frame, as `allocate().map(|x| x.addr())` is used by the callers. */
    method AllocatePage() returns (r: Option<nat>)
      requires Supplies()
      modifies this
      ensures Supplies()
      ensures r.None? ==> old(Frames()) == Frames() == {}
      ensures r.Some? ==> r.value < 0x100_0000_0000 && r.value in old(Frames()) && Frames() == old(Frames()) - {r.value}
    {
      PhysicalRegionsAreDisjoint(regions);
      HeadLeavesTail(regions, regionIndex, nextFrame);
      var frame := Allocate();
      if frame.None? {
        return None;
      }
      assert Rest() == old(Rest())[1..];
      return Some(frame.value / 4096);
    }

    method Allocate() returns (r: Option<U64>)
      requires Valid()
      modifies this
      ensures Valid()
      ensures r.None? ==> old(Rest()) == Rest() == []
      ensures r.Some? ==> old(Rest()) == [r.value] + Rest()
    {
      while true
        invariant Valid()
        invariant Rest() == old(Rest())
        decreases |regions| - regionIndex
      {
        if regionIndex >= |regions| {
          return None;
        }
        var region := regions[regionIndex];
        if region.kind != Usable {
          regionIndex, nextFrame := regionIndex + 1, 0;
          continue;
        }
        AlignedStart(region);
        var aligned := AlignUp(Max(region.start, RESERVED_LOW_MEMORY));
        if aligned.None? {
          return None;
        }
        var start := aligned.value;
        if nextFrame == 0 || nextFrame < start {
          nextFrame := start;
        }
        var limit := CheckedAdd(nextFrame, 4096);
        if limit.None? {
          return None;
        }
        if limit.value <= region.end {
          var frame := nextFrame;
          PendingStep(regions, regionIndex, frame);
          PageAligned(frame);
          nextFrame := limit.value;
          return Some(frame);
        }
        regionIndex, nextFrame := regionIndex + 1, 0;
      }
    }
  }

  // What the pending list contains: exactly the frames of the usable regions, once each.

  lemma {:induction false} FramesFromMembers(from: nat, end: nat, frame: nat)
    requires from % 4096 == 0
    ensures frame in FramesFrom(from, end) <==> frame % 4096 == 0 && from <= frame && frame + 4096 <= end
    decreases end - from
  {
    if from + 4096 <= end {
      PageAligned(from);
      FramesFromMembers(from + 4096, end, frame);
      if frame % 4096 == 0 && from < frame {
        AlignedGap(from, frame);
      }
    }
  }

  lemma AlignedGap(low: nat, high: nat)
    requires low % 4096 == 0 && high % 4096 == 0 && low < high
    ensures low + 4096 <= high
  {
  }

  /** A frame is still to come exactly when a region not yet used up holds it. */
  lemma {:induction false} PendingMembers(regions: seq<Region>, index: nat, next: nat, frame: nat)
    requires forall r :: r in regions ==> ClearOfTop(r)
    requires next % 4096 == 0
    ensures frame in Pending(regions, index, next) <==>
              exists j :: index <= j < |regions| && FrameIn(regions[j], frame) && (j == index ==> next <= frame)
    decreases |regions| - index
  {
    if index < |regions| {
      var r := regions[index];
      PendingMembers(regions, index + 1, 0, frame);
      if r.kind.Usable? {
        AlignedStart(r);
        FramesFromMembers(Max(next, FirstFrame(r)), r.end, frame);
        if frame % 4096 == 0 {
          FirstFrameIsLeast(r, frame);
        }
      }
    }
  }

  lemma FirstFrameIsLeast(r: Region, frame: nat)
    requires r.kind.Usable? && ClearOfTop(r) && frame % 4096 == 0
    ensures FirstFrame(r) <= frame <==> r.start <= frame && RESERVED_LOW_MEMORY <= frame
  {
    AlignedStart(r);
    var low := Max(r.start, RESERVED_LOW_MEMORY);
    assert FirstFrame(r) - 4096 < low <= FirstFrame(r);
    if low <= frame < FirstFrame(r) {
      AlignedGap(frame, FirstFrame(r));
    }
  }

  lemma {:induction false} FramesFromIncrease(from: nat, end: nat)
    ensures NoDuplicates(FramesFrom(from, end))
    ensures forall i :: 0 <= i < |FramesFrom(from, end)| ==>
              from <= FramesFrom(from, end)[i] && FramesFrom(from, end)[i] + 4096 <= end
    decreases end - from
  {
    if from + 4096 <= end {
      FramesFromIncrease(from + 4096, end);
    }
  }

  /** Over disjoint regions no frame is ever handed out twice. */
  lemma {:induction false} NoFrameTwice(regions: seq<Region>, index: nat, next: nat)
    requires forall r :: r in regions ==> ClearOfTop(r)
    requires DisjointRegions(regions)
    ensures NoDuplicates(Pending(regions, index, next))
    decreases |regions| - index
  {
    if index < |regions| {
      NoFrameTwice(regions, index + 1, 0);
      if regions[index].kind.Usable? {
        var r := regions[index];
        var from := Max(next, FirstFrame(r));
        var here, later := FramesFrom(from, r.end), Pending(regions, index + 1, 0);
        FramesFromIncrease(from, r.end);
        AlignedStart(r);
        forall i, j | 0 <= i < |here| && 0 <= j < |later| ensures here[i] != later[j] {
          PendingMembers(regions, index + 1, 0, later[j]);
          FirstFrameIsLeast(r, FirstFrame(r));
        }
        NoDuplicatesConcat(here, later);
      }
    }
  }

  lemma NoDuplicatesConcat(a: seq<nat>, b: seq<nat>)
    requires NoDuplicates(a) && NoDuplicates(b)
    requires forall i, j :: 0 <= i < |a| && 0 <= j < |b| ==> a[i] != b[j]
    ensures NoDuplicates(a + b)
  {
  }

  // How many there are.

  function SumOfCounts(regions: seq<Region>, index: nat): nat
    decreases |regions| - index
  {
    if index >= |regions| then 0
    else (if regions[index].kind.Usable? then FrameCount(regions[index].start, regions[index].end) else 0)
         + SumOfCounts(regions, index + 1)
  }

  /** `usable_frames` of the memory map report: a saturating sum over the regions. */
  method UsableFrames(regions: seq<Region>) returns (frames: U64)
    ensures frames == Min(SumOfCounts(regions, 0), U64_LIMIT - 1)
  {
    frames := 0;
    for i := 0 to |regions|
      invariant Min(frames + SumOfCounts(regions, i), U64_LIMIT - 1) == Min(SumOfCounts(regions, 0), U64_LIMIT - 1)
    {
      if regions[i].kind.Usable? {
        frames := Min(frames + FrameCount(regions[i].start, regions[i].end), U64_LIMIT - 1);
      }
    }
  }

  lemma {:induction false} FramesFromLength(from: nat, end: nat)
    ensures |FramesFrom(from, end)| == if from <= end then (end - from) / 4096 else 0
    decreases end - from
  {
    if from + 4096 <= end {
      FramesFromLength(from + 4096, end);
    }
  }

  /** The closed form of how many frames one region contributes. */
  function RegionCount(r: Region): nat {
    if r.kind.Usable? && FirstFrame(r) <= r.end then (r.end - FirstFrame(r)) / 4096 else 0
  }

  function SumOfRegionCounts(regions: seq<Region>, index: nat): nat
    decreases |regions| - index
  {
    if index >= |regions| then 0 else RegionCount(regions[index]) + SumOfRegionCounts(regions, index + 1)
  }

  lemma {:induction false} PendingLength(regions: seq<Region>, index: nat)
    requires forall r :: r in regions ==> ClearOfTop(r)
    ensures |Pending(regions, index, 0)| == SumOfRegionCounts(regions, index) <= SumOfCounts(regions, index)
    decreases |regions| - index
  {
    if index < |regions| {
      var r := regions[index];
      PendingLength(regions, index + 1);
      if r.kind.Usable? {
        AlignedStart(r);
        FramesFromLength(FirstFrame(r), r.end);
        RegionCountWithinFrameCount(r);
      }
    }
  }

  lemma RegionCountWithinFrameCount(r: Region)
    requires r.kind.Usable? && ClearOfTop(r)
    ensures RegionCount(r) <= FrameCount(r.start, r.end)
  {
    assert AlignUp(r.start).value <= FirstFrame(r);
  }

  lemma {:induction false} Pigeonhole(s: seq<nat>, bound: nat)
    requires NoDuplicates(s) && forall i :: 0 <= i < |s| ==> s[i] < bound
    ensures |s| <= bound
    decreases bound
  {
    if s != [] {
      assert s[0] < bound;
      if k :| 0 <= k < |s| && s[k] == bound - 1 {
        Pigeonhole(s[..k] + s[k + 1..], bound - 1);
      } else {
        Pigeonhole(s, bound - 1);
      }
    }
  }

  /** The allocator hands out the closed-form total of frames, never more than the report says are usable. */
  lemma TotalWithinReport(regions: seq<Region>)
    requires forall r :: r in regions ==> ClearOfTop(r)
    requires DisjointRegions(regions)
    ensures |Pending(regions, 0, 0)| == SumOfRegionCounts(regions, 0)
    ensures |Pending(regions, 0, 0)| <= Min(SumOfCounts(regions, 0), U64_LIMIT - 1)
  {
    PendingLength(regions, 0);
    NoFrameTwice(regions, 0, 0);
    var all := Pending(regions, 0, 0);
    forall i | 0 <= i < |all| ensures all[i] < U64_LIMIT - 1 {
      PendingMembers(regions, 0, 0, all[i]);
    }
    Pigeonhole(all, U64_LIMIT - 1);
  }
}
