/** Byte strings written over one another. */
module Bytes {
  import opened Prelude

  /** `d` with `bytes` written at `offset`. */
  function Overlay(d: seq<Byte>, offset: nat, bytes: seq<Byte>): (r: seq<Byte>)
    requires offset + |bytes| <= |d|
    ensures |r| == |d|
  {
    d[..offset] + bytes + d[offset + |bytes|..]
  }

  lemma OverlayAt(d: seq<Byte>, offset: nat, bytes: seq<Byte>)
    requires offset + |bytes| <= |d|
    ensures var r := Overlay(d, offset, bytes);
            forall i :: 0 <= i < |d| ==> r[i] == if offset <= i < offset + |bytes| then bytes[i - offset] else d[i]
  {
  }

  function Zeros(n: nat): (z: seq<Byte>)
    ensures |z| == n && forall i :: 0 <= i < n ==> z[i] == 0
  {
    seq(n, i => 0)
  }

  lemma ZerosSlice(n: nat, from: nat, k: nat)
    requires from + k <= n
    ensures Zeros(n)[from..from + k] == Zeros(k)
  {
  }

  lemma WholeOverlay(d: seq<Byte>, bytes: seq<Byte>)
    requires |d| == |bytes|
    ensures Overlay(d, 0, bytes) == bytes && d[..|d|] == d
  {
    OverlayAt(d, 0, bytes);
  }

  lemma SliceOfSlice(d: seq<Byte>, base: nat, at: nat, n: nat)
    requires base + 4096 <= |d| && at + n <= 4096
    ensures d[base..base + 4096][at..at + n] == d[base + at..base + at + n]
  {
    var part := d[base..base + 4096][at..at + n];
    assert forall k :: 0 <= k < n ==> part[k] == d[base + at + k];
  }

  lemma OverlayAppend(d: seq<Byte>, offset: nat, a: seq<Byte>, b: seq<Byte>)
    requires offset + |a| + |b| <= |d|
    ensures Overlay(Overlay(d, offset, a), offset + |a|, b) == Overlay(d, offset, a + b)
  {
    hide Overlay;
    OverlayAt(d, offset, a);
    OverlayAt(Overlay(d, offset, a), offset + |a|, b);
    OverlayAt(d, offset, a + b);
  }

  /** The bytes written are the bytes read back, and a range beside them reads as before. */
  lemma ReadBack(d: seq<Byte>, from: nat, bytes: seq<Byte>, at: nat, n: nat)
    requires from + |bytes| <= |d| && at + n <= |d|
    ensures var after := Overlay(d, from, bytes);
            && after[from..from + |bytes|] == bytes
            && (at + n <= from || from + |bytes| <= at ==> after[at..at + n] == d[at..at + n])
  {
  }

  // Machine words in memory, least significant byte first.

  function PowerOf256(k: nat): nat {
    if k == 0 then 1 else 256 * PowerOf256(k - 1)
  }

  /** `from_le_bytes`. */
  function LittleEndian(b: seq<Byte>): (n: nat)
    ensures n < PowerOf256(|b|)
  {
    if b == [] then 0 else b[0] + 256 * LittleEndian(b[1..])
  }

  /** `to_le_bytes`, for a word of `k` bytes. */
  function LeBytes(n: nat, k: nat): (b: seq<Byte>)
    ensures |b| == k
  {
    if k == 0 then [] else [n % 256] + LeBytes(n / 256, k - 1)
  }

  lemma {:induction false} LeRoundTrip(n: nat, k: nat)
    requires n < PowerOf256(k)
    ensures LittleEndian(LeBytes(n, k)) == n
  {
    if k > 0 {
      LeRoundTrip(n / 256, k - 1);
      assert LeBytes(n, k)[1..] == LeBytes(n / 256, k - 1);
    }
  }

  lemma EightBytes()
    ensures PowerOf256(2) == 0x1_0000 && PowerOf256(4) == 0x1_0000_0000 && PowerOf256(8) == 0x1_0000_0000_0000_0000
  {
    assert PowerOf256(4) == 0x1_0000_0000;
  }

  /** Eight bytes as a machine word. */
  function WordAt(b: seq<Byte>): U64
    requires |b| == 8
  {
    EightBytes();
    LittleEndian(b)
  }

  function WordsToBytes(words: seq<U64>): (b: seq<Byte>)
    ensures |b| == 8 * |words|
  {
    if words == [] then [] else LeBytes(words[0], 8) + WordsToBytes(words[1..])
  }

  function BytesToWords(b: seq<Byte>): (words: seq<U64>)
    requires |b| % 8 == 0
    ensures 8 * |words| == |b|
  {
    if b == [] then [] else [WordAt(b[..8])] + BytesToWords(b[8..])
  }

  /** Words written to memory and read back are the same words. */
  lemma {:induction false} WordsReadBack(words: seq<U64>)
    ensures BytesToWords(WordsToBytes(words)) == words
  {
    if words != [] {
      var b := WordsToBytes(words);
      EightBytes();
      LeRoundTrip(words[0], 8);
      assert b[..8] == LeBytes(words[0], 8) && b[8..] == WordsToBytes(words[1..]);
      WordsReadBack(words[1..]);
    }
  }
}
