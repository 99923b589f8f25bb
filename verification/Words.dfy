/**
 A page frame as 4096 bytes. A table entry is 64 bits (Intel SDM volume 3A, figure 4-11), eight bits are a byte, and
 both readings of a frame are the same memory.
 */
module Words {
  import opened Prelude
  import opened PageTables

  type Bits = seq<bool>

  function PowerOfTwo(k: nat): (p: nat)
    ensures p > 0
  {
    if k == 0 then 1 else 2 * PowerOfTwo(k - 1)
  }

  /** The number a string of bits stands for, lowest bit first. */
  function Value(bits: Bits): (n: nat)
    ensures n < PowerOfTwo(|bits|)
  {
    if bits == [] then 0 else (if bits[0] then 1 else 0) + 2 * Value(bits[1..])
  }

  function BitsOf(n: nat, k: nat): (bits: Bits)
    ensures |bits| == k
  {
    if k == 0 then [] else [n % 2 == 1] + BitsOf(n / 2, k - 1)
  }

  lemma {:induction false} BitsOfValue(bits: Bits)
    ensures BitsOf(Value(bits), |bits|) == bits
  {
    if bits != [] {
      BitsOfValue(bits[1..]);
    }
  }

  lemma {:induction false} ValueOfBits(n: nat, k: nat)
    requires n < PowerOfTwo(k)
    ensures Value(BitsOf(n, k)) == n
  {
    if k > 0 {
      ValueOfBits(n / 2, k - 1);
      assert BitsOf(n, k)[1..] == BitsOf(n / 2, k - 1);
    }
  }

  lemma {:induction false} PowersMultiply(a: nat, b: nat)
    ensures PowerOfTwo(a + b) == PowerOfTwo(a) * PowerOfTwo(b)
  {
    if a > 0 {
      PowersMultiply(a - 1, b);
    }
  }

  lemma SomePowers()
    ensures PowerOfTwo(3) == 8 && PowerOfTwo(8) == 256 && PowerOfTwo(11) == 2048 && PowerOfTwo(40) == 0x100_0000_0000
  {
    assert PowerOfTwo(2) == 4 && PowerOfTwo(4) == 16;
    PowersMultiply(4, 4);
    PowersMultiply(3, 8);
    PowersMultiply(8, 8);
    PowersMultiply(8, 16);
    PowersMultiply(16, 24);
  }

  // Entries.

  /** An entry from bit 0 up: nine flags, three available bits, 40 bits of address, 11 high bits, no-execute. */
  function WordBits(w: Word): (b: Bits)
    ensures |b| == 64
  {
    var f := w.flags;
    [f.present, f.write, f.user, f.writeThrough, f.cacheDisable, f.accessed, f.dirty, f.huge, f.global]
    + BitsOf(f.available, 3) + BitsOf(w.pfn, 40) + BitsOf(f.high, 11) + [f.noExecute]
  }

  function BitsWord(b: Bits): Word
    requires |b| == 64
  {
    SomePowers();
    Word(Value(b[12..52]), Flags(b[0], b[1], b[2], b[3], b[4], b[5], b[6], b[7], b[8], Value(b[9..12]),
                                 Value(b[52..63]), b[63]))
  }

  lemma FieldsInBits(w: Word)
    ensures var f, b := w.flags, WordBits(w);
            && b[9..12] == BitsOf(f.available, 3) && b[12..52] == BitsOf(w.pfn, 40) && b[52..63] == BitsOf(f.high, 11)
            && b[63] == f.noExecute
            && b[..9] == [f.present, f.write, f.user, f.writeThrough, f.cacheDisable, f.accessed, f.dirty, f.huge,
                          f.global]
  {
    hide BitsOf;
  }

  lemma BitsInFields(b: Bits)
    requires |b| == 64
    ensures b == [b[0], b[1], b[2], b[3], b[4], b[5], b[6], b[7], b[8]] + b[9..12] + b[12..52] + b[52..63] + [b[63]]
  {
  }

  /** Nothing is lost between an entry and its 64 bits. */
  lemma EntriesAreBits(w: Word)
    ensures BitsWord(WordBits(w)) == w
  {
    FieldsInBits(w);
    SomePowers();
    ValueOfBits(w.flags.available, 3);
    ValueOfBits(w.pfn, 40);
    ValueOfBits(w.flags.high, 11);
    hide WordBits, BitsOf, PowerOfTwo, Value;
    BitsOfEntry(WordBits(w), w);
  }

  lemma BitsAreEntries(b: Bits)
    requires |b| == 64
    ensures WordBits(BitsWord(b)) == b
  {
    BitsInFields(b);
    BitsOfValue(b[9..12]);
    BitsOfValue(b[12..52]);
    BitsOfValue(b[52..63]);
    hide BitsOf, Value, PowerOfTwo;
  }

  lemma BitsOfEntry(b: Bits, w: Word)
    requires |b| == 64 && b[63] == w.flags.noExecute
    requires var f := w.flags;
             b[..9] == [f.present, f.write, f.user, f.writeThrough, f.cacheDisable, f.accessed, f.dirty, f.huge,
                        f.global]
    requires Value(b[9..12]) == w.flags.available && Value(b[12..52]) == w.pfn && Value(b[52..63]) == w.flags.high
    ensures BitsWord(b) == w
  {
    var f := w.flags;
    assert forall k :: 0 <= k < 9 ==> b[k] == b[..9][k];
    hide BitsOf, Value, PowerOfTwo;
  }

  // Frames.

  function BitsOfWords(words: seq<Word>): (b: Bits)
    ensures |b| == 64 * |words|
  {
    if words == [] then [] else WordBits(words[0]) + BitsOfWords(words[1..])
  }

  function WordsOfBits(b: Bits): (words: seq<Word>)
    requires |b| % 64 == 0
    ensures 64 * |words| == |b|
  {
    if b == [] then [] else [BitsWord(b[..64])] + WordsOfBits(b[64..])
  }

  function BitsOfBytes(bytes: seq<Byte>): (b: Bits)
    ensures |b| == 8 * |bytes|
  {
    if bytes == [] then [] else BitsOf(bytes[0], 8) + BitsOfBytes(bytes[1..])
  }

  function BytesOfBits(b: Bits): (bytes: seq<Byte>)
    requires |b| % 8 == 0
    ensures 8 * |bytes| == |b|
  {
    SomePowers();
    if b == [] then [] else [Value(b[..8])] + BytesOfBits(b[8..])
  }

  lemma {:induction false} WordsRoundTrip(words: seq<Word>)
    ensures WordsOfBits(BitsOfWords(words)) == words
  {
    if words != [] {
      var bits := BitsOfWords(words);
      assert bits[..64] == WordBits(words[0]) && bits[64..] == BitsOfWords(words[1..]);
      EntriesAreBits(words[0]);
      WordsRoundTrip(words[1..]);
      hide WordBits, BitsWord;
    }
  }

  lemma {:induction false} BitsRoundTrip(b: Bits)
    requires |b| % 64 == 0
    ensures BitsOfWords(WordsOfBits(b)) == b
  {
    if b != [] {
      BitsAreEntries(b[..64]);
      BitsRoundTrip(b[64..]);
      hide WordBits, BitsWord;
      assert WordsOfBits(b)[1..] == WordsOfBits(b[64..]);
      assert b == b[..64] + b[64..];
    }
  }

  lemma {:induction false} BytesRoundTrip(bytes: seq<Byte>, b: Bits)
    requires |b| == 8 * |bytes|
    ensures BytesOfBits(BitsOfBytes(bytes)) == bytes
    ensures BitsOfBytes(BytesOfBits(b)) == b
  {
    if bytes != [] {
      SomePowers();
      var bits := BitsOfBytes(bytes);
      assert bits[..8] == BitsOf(bytes[0], 8) && bits[8..] == BitsOfBytes(bytes[1..]);
      ValueOfBits(bytes[0], 8);
      BitsOfValue(b[..8]);
      BytesRoundTrip(bytes[1..], b[8..]);
      assert BytesOfBits(b)[1..] == BytesOfBits(b[8..]);
      assert b == b[..8] + b[8..];
    }
  }

  /** The bytes of a page frame. */
  function PageBytes(f: Frame): (bytes: seq<Byte>)
    ensures |bytes| == 4096
  {
    BytesOfBits(BitsOfWords(f))
  }

  /** The page frame that holds 4096 bytes. */
  function FrameOf(bytes: seq<Byte>): Frame
    requires |bytes| == 4096
  {
    WordsOfBits(BitsOfBytes(bytes))
  }

  /** Bytes stored in a page frame read back unchanged, and no two frames look alike. */
  lemma FramesAreBytes(f: Frame, bytes: seq<Byte>)
    requires |bytes| == 4096
    ensures PageBytes(FrameOf(bytes)) == bytes
    ensures FrameOf(PageBytes(f)) == f
  {
    WordsRoundTrip(f);
    BitsRoundTrip(BitsOfBytes(bytes));
    BytesRoundTrip(bytes, BitsOfWords(f));
  }
}
