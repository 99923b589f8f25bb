/** The block bitmap of VIBUXFS and its agreement with the extents of the files (kernel/src/storage/vfs.rs). */
module BlockMap {
  import opened Prelude
  import opened InodeForest

  const MAP_BITS: nat := 131072

  /** The bitmap as it is stored: 16384 bytes, bit b in byte b / 8 at position b % 8. */
  type Bitmap = m: seq<bv8> | |m| == 16384 witness seq(16384, i => 0)

  predicate BitOf(byte: bv8, k: nat)
    requires k < 8
  {
    byte & ((1 as bv8) << k) != 0
  }

  predicate Bit(map_: Bitmap, block: nat)
    requires block < MAP_BITS
  {
    BitOf(map_[block / 8], block % 8)
  }

  function ByteSet(byte: bv8, k: nat): bv8
    requires k < 8
  {
    byte | ((1 as bv8) << k)
  }

  function ByteClear(byte: bv8, k: nat): bv8
    requires k < 8
  {
    byte & !((1 as bv8) << k)
  }

  function SetBit(map_: Bitmap, block: nat): Bitmap
    requires block < MAP_BITS
  {
    map_[block / 8 := ByteSet(map_[block / 8], block % 8)]
  }

  function ClearBit(map_: Bitmap, block: nat): Bitmap
    requires block < MAP_BITS
  {
    map_[block / 8 := ByteClear(map_[block / 8], block % 8)]
  }

  lemma ByteBits(byte: bv8, j: nat, k: nat)
    requires j < 8 && k < 8
    ensures BitOf(ByteSet(byte, j), k) <==> j == k || BitOf(byte, k)
    ensures BitOf(ByteClear(byte, j), k) <==> j != k && BitOf(byte, k)
  {
    ShiftIsConstant(j);
    ShiftIsConstant(k);
  }

  function Mask(k: nat): bv8
    requires k < 8
  {
    match k
    case 0 => 1 case 1 => 2 case 2 => 4 case 3 => 8 case 4 => 16 case 5 => 32 case 6 => 64 case _ => 128
  }

  lemma ShiftIsConstant(k: nat)
    requires k < 8
    ensures (1 as bv8) << k == Mask(k)
  {
  }

  /** Setting a bit sets that bit and no other. */
  lemma SetBitSets(map_: Bitmap, block: nat, other: nat)
    requires block < MAP_BITS && other < MAP_BITS
    ensures Bit(SetBit(map_, block), other) <==> other == block || Bit(map_, other)
  {
    hide BitOf, ByteSet, ByteClear;
    ByteBits(map_[block / 8], block % 8, other % 8);
  }

  /** Clearing a bit clears that bit and no other. */
  lemma ClearBitClears(map_: Bitmap, block: nat, other: nat)
    requires block < MAP_BITS && other < MAP_BITS
    ensures Bit(ClearBit(map_, block), other) <==> other != block && Bit(map_, other)
  {
    hide BitOf, ByteSet, ByteClear;
    ByteBits(map_[block / 8], block % 8, other % 8);
  }

  // Extents.

  /** Block `b` belongs to file `i`. */
  predicate FileCovers(t: Table, i: nat, b: nat) {
    Live(t, i) && t[i].kind == 1 && t[i].startBlock <= b < t[i].startBlock + t[i].blockCount
  }

  ghost predicate Owned(t: Table, b: nat) {
    exists i: nat :: FileCovers(t, i, b)
  }

  /** An extent lies in the data area `lo..hi` and is long enough for the size. */
  ghost predicate ExtentOk(t: Table, i: nat, lo: nat, hi: nat) {
    Live(t, i) ==>
      && (t[i].kind != 1 ==> t[i].blockCount == 0)
      && (t[i].blockCount > 0 ==> lo <= t[i].startBlock && t[i].startBlock + t[i].blockCount <= hi)
      && t[i].size <= t[i].blockCount * 4096
  }

  /**
   Allocation is exact: extents lie in the data area and share no block, and the set bits are the
   reserved prefix and the blocks of the extents, no more and no less.
   */
  ghost predicate Exact(t: Table, m: Bitmap, lo: nat, hi: nat) {
    && lo <= hi <= MAP_BITS
    && (forall i: nat :: ExtentOk(t, i, lo, hi))
    && (forall i: nat, j: nat, b: nat :: FileCovers(t, i, b) && FileCovers(t, j, b) ==> i == j)
    && (forall b: nat :: b < MAP_BITS ==> (Bit(m, b) <==> b < lo || Owned(t, b)))
  }

  /** Every extent lies in the data area and is long enough, whatever the bitmap says. */
  ghost predicate Placed(t: Table, lo: nat, hi: nat) {
    lo <= hi <= MAP_BITS && forall i: nat :: ExtentOk(t, i, lo, hi)
  }

  predicate SameExtent(a: Inode, b: Inode) {
    a.kind == b.kind && a.size == b.size && a.startBlock == b.startBlock && a.blockCount == b.blockCount
  }

  /** Replacing the extent of one inode by free blocks, in the table and in the map, keeps allocation exact. */
  lemma ReplaceExtent(t: Table, t': Table, m: Bitmap, m': Bitmap, ino: nat, lo: nat, hi: nat)
    requires Exact(t, m, lo, hi) && InRange(ino)
    requires forall i: nat :: InRange(i) && i != ino ==> SameExtent(t[i], t'[i])
    requires ExtentOk(t', ino, lo, hi)
    requires forall b: nat :: b < MAP_BITS && FileCovers(t', ino, b) ==> !Bit(m, b) || FileCovers(t, ino, b)
    requires forall b: nat :: b < MAP_BITS ==>
      (Bit(m', b) <==> (Bit(m, b) && !FileCovers(t, ino, b)) || FileCovers(t', ino, b))
    ensures Exact(t', m', lo, hi)
  {
    forall i: nat ensures ExtentOk(t', i, lo, hi) {
      assert ExtentOk(t, i, lo, hi);
    }
    forall i: nat, b: nat | i != ino ensures FileCovers(t', i, b) <==> FileCovers(t, i, b) {
    }
    forall i: nat, b: nat | FileCovers(t', i, b) && i != ino ensures !FileCovers(t', ino, b) {
      assert ExtentOk(t', i, lo, hi) && FileCovers(t, i, b) && Owned(t, b);
    }
    forall b: nat | b < MAP_BITS ensures Bit(m', b) <==> b < lo || Owned(t', b) {
      OwnedAfter(t, t', ino, lo, hi, b);
      assert ExtentOk(t, ino, lo, hi);
    }
  }

  lemma OwnedAfter(t: Table, t': Table, ino: nat, lo: nat, hi: nat, b: nat)
    requires forall i: nat, j: nat, c: nat :: FileCovers(t, i, c) && FileCovers(t, j, c) ==> i == j
    requires forall i: nat, c: nat :: i != ino ==> (FileCovers(t', i, c) <==> FileCovers(t, i, c))
    ensures Owned(t', b) <==> (Owned(t, b) && !FileCovers(t, ino, b)) || FileCovers(t', ino, b)
  {
    if Owned(t, b) && !FileCovers(t, ino, b) {
      var i: nat :| FileCovers(t, i, b);
      assert FileCovers(t', i, b);
    }
    if Owned(t', b) && !FileCovers(t', ino, b) {
      var i: nat :| FileCovers(t', i, b);
      assert FileCovers(t, i, b);
    }
  }

  /** All blocks of `s..s+n` are free. */
  ghost predicate FreeRun(m: Bitmap, s: nat, n: nat)
    requires s + n <= MAP_BITS
  {
    forall b: nat :: s <= b < s + n ==> !Bit(m, b)
  }

  /** A new inode owns no block. */
  lemma InsertKeepsExact(t: Table, m: Bitmap, ino: nat, parent: nat, inode: Inode, lo: nat, hi: nat)
    requires Exact(t, m, lo, hi) && InRange(ino) && IsDir(t, parent) && t[ino].kind == 0
    requires inode.blockCount == 0 && inode.size == 0
    ensures Exact(Inserted(t, ino, parent, inode), m, lo, hi)
  {
    ReplaceExtent(t, Inserted(t, ino, parent, inode), m, m, ino, lo, hi);
  }

  predicate Within(b: nat, s: nat, n: nat) {
    s <= b < s + n
  }

  /** `m'` is `m` with the blocks of `s..s+n` set. */
  ghost predicate RangeSet(m: Bitmap, m': Bitmap, s: nat, n: nat) {
    forall b: nat :: b < MAP_BITS ==> (Bit(m', b) <==> Bit(m, b) || Within(b, s, n))
  }

  ghost predicate RangeCleared(m: Bitmap, m': Bitmap, s: nat, n: nat) {
    forall b: nat :: b < MAP_BITS ==> (Bit(m', b) <==> Bit(m, b) && !Within(b, s, n))
  }

  lemma OneMoreCleared(m0: Bitmap, m: Bitmap, s: nat, i: nat)
    requires RangeCleared(m0, m, s, i) && s + i < MAP_BITS
    ensures RangeCleared(m0, ClearBit(m, s + i), s, i + 1)
  {
    hide Bit, ClearBit;
    var cleared := ClearBit(m, s + i);
    forall b: nat | b < MAP_BITS ensures Bit(cleared, b) <==> Bit(m0, b) && !Within(b, s, i + 1) {
      ClearBitClears(m, s + i, b);
    }
  }

  lemma OneMoreSet(m0: Bitmap, m: Bitmap, s: nat, i: nat)
    requires RangeSet(m0, m, s, i) && s + i < MAP_BITS
    ensures RangeSet(m0, SetBit(m, s + i), s, i + 1)
  {
    hide Bit, SetBit;
    var taken := SetBit(m, s + i);
    forall b: nat | b < MAP_BITS ensures Bit(taken, b) <==> Bit(m0, b) || Within(b, s, i + 1) {
      SetBitSets(m, s + i, b);
    }
  }

  /** `clear_bit`. */
  method ClearBitInPlace(bitmap: array<bv8>, block: nat)
    requires bitmap.Length == 16384 && block < MAP_BITS
    modifies bitmap
    ensures bitmap[..] == ClearBit(old(bitmap[..]), block)
  {
    hide ByteClear;
    bitmap[block / 8] := ByteClear(bitmap[block / 8], block % 8);
  }

  /** `set_bit`. */
  method SetBitInPlace(bitmap: array<bv8>, block: nat)
    requires bitmap.Length == 16384 && block < MAP_BITS
    modifies bitmap
    ensures bitmap[..] == SetBit(old(bitmap[..]), block)
  {
    hide ByteSet;
    bitmap[block / 8] := ByteSet(bitmap[block / 8], block % 8);
  }

  lemma EmptyRanges(m: Bitmap, s: nat)
    ensures RangeCleared(m, m, s, 0) && RangeSet(m, m, s, 0)
  {
  }

  /** The loop of `clear_bit` calls that gives an extent back. */
  method ClearRange(bitmap: array<bv8>, s: nat, n: nat)
    requires bitmap.Length == 16384 && s + n <= MAP_BITS
    modifies bitmap
    ensures RangeCleared(old(bitmap[..]), bitmap[..], s, n)
  {
    hide RangeCleared, ClearBit;
    EmptyRanges(bitmap[..], s);
    for i := 0 to n
      invariant RangeCleared(old(bitmap[..]), bitmap[..], s, i)
    {
      OneMoreCleared(old(bitmap[..]), bitmap[..], s, i);
      ClearBitInPlace(bitmap, s + i);
    }
  }

  /** The loop of `set_bit` calls that takes an extent. */
  method SetRange(bitmap: array<bv8>, s: nat, n: nat)
    requires bitmap.Length == 16384 && s + n <= MAP_BITS
    modifies bitmap
    ensures RangeSet(old(bitmap[..]), bitmap[..], s, n)
  {
    hide RangeSet, SetBit;
    EmptyRanges(bitmap[..], s);
    for i := 0 to n
      invariant RangeSet(old(bitmap[..]), bitmap[..], s, i)
    {
      OneMoreSet(old(bitmap[..]), bitmap[..], s, i);
      SetBitInPlace(bitmap, s + i);
    }
  }

  method BitIsSet(bitmap: array<bv8>, block: nat) returns (set_: bool)
    requires bitmap.Length == 16384 && block < MAP_BITS
    ensures set_ <==> Bit(bitmap[..], block)
  {
    set_ := bitmap[block / 8] & ((1 as bv8) << (block % 8)) != 0;
  }

  /** No run of `n` free blocks lies in `lo..hi`. */
  ghost predicate NoRun(m: Bitmap, lo: nat, hi: nat, n: nat) {
    forall s: nat :: lo <= s && s + n <= hi <= MAP_BITS ==> !FreeRun(m, s, n)
  }

  /** There are `needed` consecutive free blocks in the data area, once those of an extent are given back. */
  ghost predicate HasRoom(m: Bitmap, start: nat, count: nat, lo: nat, hi: nat, needed: nat) {
    exists s: nat :: lo <= s && s + needed <= hi <= MAP_BITS && FreeWithout(m, start, count, s, needed)
  }

  ghost predicate FreeWithout(m: Bitmap, start: nat, count: nat, s: nat, n: nat)
    requires s + n <= MAP_BITS
  {
    forall b: nat :: s <= b < s + n ==> !Bit(m, b) || Within(b, start, count)
  }

  /** Room as seen before an extent is given back is a free run as seen after it. */
  lemma RoomIff(m: Bitmap, cleared: Bitmap, start: nat, count: nat, lo: nat, hi: nat, needed: nat)
    requires RangeCleared(m, cleared, start, count)
    ensures HasRoom(m, start, count, lo, hi, needed) <==> !NoRun(cleared, lo, hi, needed)
  {
    hide Bit, Within;
    forall s: nat | lo <= s && s + needed <= hi <= MAP_BITS
      ensures FreeWithout(m, start, count, s, needed) <==> FreeRun(cleared, s, needed)
    {
    }
  }

  /** The first-fit search: the lowest run of `needed` free blocks in the data area, or nothing when there is none. */
  method FindRun(bitmap: array<bv8>, lo: nat, hi: nat, needed: nat) returns (r: Option<nat>)
    requires bitmap.Length == 16384 && lo <= hi <= MAP_BITS && needed > 0
    ensures r.None? ==> NoRun(bitmap[..], lo, hi, needed)
    ensures r.Some? ==> lo <= r.value && r.value + needed <= hi && FreeRun(bitmap[..], r.value, needed)
    ensures r.Some? ==> NoRun(bitmap[..], lo, r.value + needed - 1, needed)
  {
    hide Bit;
    ghost var m: Bitmap := bitmap[..];
    var start: nat, found: nat := 0, 0;
    var b := lo;
    while b < hi
      invariant lo <= b <= hi && found < needed && (found > 0 ==> start + found == b && lo <= start)
      invariant found <= b && FreeRun(m, b - found, found)
      invariant b - found == lo || (b - found > lo && Bit(m, b - found - 1))
      invariant NoRun(m, lo, b, needed)
    {
      ghost var before := b - found;
      var taken := BitIsSet(bitmap, b);
      if !taken {
        if found == 0 {
          start := b;
        }
        found := found + 1;
        if found == needed {
          return Some(start);
        }
      } else {
        found := 0;
      }
      b := b + 1;
      forall s: nat | lo <= s && s + needed <= b ensures !FreeRun(m, s, needed) {
        if s + needed == b {
          var stop := if taken then b - 1 else before - 1;
          assert s <= stop < s + needed && Bit(m, stop);
        }
      }
    }
    return None;
  }

  // What the operations do to allocation.

  /** Freeing the extent of an inode and forgetting the inode. */
  lemma RemoveKeepsExact(t: Table, t': Table, m: Bitmap, m': Bitmap, ino: nat, lo: nat, hi: nat)
    requires Exact(t, m, lo, hi) && InRange(ino)
    requires forall i: nat :: InRange(i) && i != ino ==> SameExtent(t[i], t'[i])
    requires t'[ino].kind == 0
    requires forall b: nat :: b < MAP_BITS ==> (Bit(m', b) <==> Bit(m, b) && !FileCovers(t, ino, b))
    ensures Exact(t', m', lo, hi)
  {
    ReplaceExtent(t, t', m, m', ino, lo, hi);
  }

  /** Giving a file a run that is free once its old extent is given back. */
  lemma RewriteKeepsExact(t: Table, t': Table, m0: Bitmap, m1: Bitmap, m2: Bitmap, ino: nat, lo: nat, hi: nat)
    requires Exact(t, m0, lo, hi) && Live(t, ino) && t[ino].kind == 1
    requires forall i: nat :: InRange(i) && i != ino ==> t'[i] == t[i]
    requires t'[ino].kind == 1 && t'[ino].size <= t'[ino].blockCount * 4096
    requires RangeCleared(m0, m1, t[ino].startBlock, t[ino].blockCount)
    requires t'[ino].blockCount > 0 ==> lo <= t'[ino].startBlock && t'[ino].startBlock + t'[ino].blockCount <= hi
    requires t'[ino].blockCount > 0 ==> FreeRun(m1, t'[ino].startBlock, t'[ino].blockCount)
    requires RangeSet(m1, m2, t'[ino].startBlock, t'[ino].blockCount)
    ensures Exact(t', m2, lo, hi)
  {
    forall b: nat | b < MAP_BITS
      ensures FileCovers(t', ino, b) ==> !Bit(m0, b) || FileCovers(t, ino, b)
      ensures Bit(m2, b) <==> (Bit(m0, b) && !FileCovers(t, ino, b)) || FileCovers(t', ino, b)
    {
      assert Within(b, t[ino].startBlock, t[ino].blockCount) <==> FileCovers(t, ino, b);
      assert Within(b, t'[ino].startBlock, t'[ino].blockCount) <==> FileCovers(t', ino, b);
    }
    ReplaceExtent(t, t', m0, m2, ino, lo, hi);
  }

  /**
   A write that runs out of space has given the old extent back but left the inode pointing at it:
   allocation is exact afterwards if and only if the file had no blocks before.
   */
  lemma NoSpaceKeepsExactIff(t: Table, m0: Bitmap, m1: Bitmap, ino: nat, lo: nat, hi: nat)
    requires Exact(t, m0, lo, hi) && Live(t, ino) && t[ino].kind == 1
    requires RangeCleared(m0, m1, t[ino].startBlock, t[ino].blockCount)
    ensures Exact(t, m1, lo, hi) <==> t[ino].blockCount == 0
  {
    var start, count := t[ino].startBlock, t[ino].blockCount;
    assert ExtentOk(t, ino, lo, hi);
    if count > 0 {
      assert FileCovers(t, ino, start) && Owned(t, start) && Within(start, start, count);
    } else {
      forall b: nat | b < MAP_BITS ensures Bit(m1, b) <==> Bit(m0, b) {
        assert !Within(b, start, count);
      }
    }
  }
}
