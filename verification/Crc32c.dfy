/**
 CRC-32C (kernel/src/storage/checksum.rs): the table-driven loop against the one-bit-at-a-time definition. A 32-bit
 word is its string of bits, the lowest first.
 */
module Crc32c {
  import opened Prelude
  import opened Words

  type Word32 = b: seq<bool> | |b| == 32 witness seq(32, i => false)

  function Clear(n: nat): (b: seq<bool>)
    ensures |b| == n && forall i :: 0 <= i < n ==> !b[i]
  {
    seq(n, i => false)
  }

  function Xor(a: Word32, b: Word32): (r: Word32)
    ensures forall i :: 0 <= i < 32 ==> r[i] == (a[i] != b[i])
  {
    seq(32, i requires 0 <= i < 32 => a[i] != b[i])
  }

  /** `a >> k`. */
  function Shift(a: Word32, k: nat): (r: Word32)
    requires k <= 32
    ensures forall i :: 0 <= i < 32 ==> r[i] == (i + k < 32 && a[i + k])
  {
    a[k..] + Clear(k)
  }

  /** The reflected polynomial of section 12.1 of RFC 3720. */
  function Polynomial(): Word32 {
    BitsOf(0x82F6_3B78, 32)
  }

  function Chosen(bit: bool): Word32 {
    if bit then Polynomial() else Clear(32)
  }

  /** One turn of the shift register with a message bit fed in: the definition of the code. */
  function FeedBit(crc: Word32, bit: bool): Word32 {
    Xor(Shift(crc, 1), Chosen(crc[0] != bit))
  }

  /** The first `k` bits of a byte, the lowest first. */
  function FeedBits(crc: Word32, byte: seq<bool>, k: nat): Word32
    requires k <= |byte|
  {
    if k == 0 then crc else FeedBit(FeedBits(crc, byte, k - 1), byte[k - 1])
  }

  /** The register after a whole message, bit by bit. */
  function Register(crc: Word32, data: seq<Byte>): Word32 {
    if data == [] then crc else FeedBits(Register(crc, data[..|data| - 1]), BitsOf(data[|data| - 1], 8), 8)
  }

  function Inverted(a: Word32): Word32 {
    seq(32, i requires 0 <= i < 32 => !a[i])
  }

  function Crc(data: seq<Byte>): Word32 {
    Inverted(Register(Inverted(Clear(32)), data))
  }

  // Eight bits at once.

  /** One turn of the shift register with nothing fed in. */
  function Turn(crc: Word32): Word32 {
    Xor(Shift(crc, 1), Chosen(crc[0]))
  }

  function Turns(crc: Word32, k: nat): Word32 {
    if k == 0 then crc else Turn(Turns(crc, k - 1))
  }

  lemma TurnIsLinear(a: Word32, b: Word32)
    ensures Turn(Xor(a, b)) == Xor(Turn(a), Turn(b))
  {
    hide Polynomial;
  }

  lemma {:induction false} TurnsAreLinear(a: Word32, b: Word32, k: nat)
    ensures Turns(Xor(a, b), k) == Xor(Turns(a, k), Turns(b, k))
  {
    hide Xor, Turn;
    if k > 0 {
      TurnsAreLinear(a, b, k - 1);
      TurnIsLinear(Turns(a, k - 1), Turns(b, k - 1));
    }
  }

  /** A byte as a word. */
  function Wide(byte: seq<bool>): (w: Word32)
    requires |byte| == 8
  {
    byte + Clear(24)
  }

  lemma FedTurn(t: Word32, rest: Word32)
    ensures FeedBit(Xor(t, rest), rest[0]) == Xor(Turn(t), Shift(rest, 1))
  {
    hide Polynomial;
  }

  lemma NextShift(a: Word32, k: nat)
    requires k < 32
    ensures Shift(a, k + 1) == Shift(Shift(a, k), 1) && Shift(a, k)[0] == a[k] && Shift(a, 0) == a
  {
  }

  lemma XorTwice(a: Word32, b: Word32)
    ensures Xor(Xor(a, b), b) == a
  {
  }

  /** Feeding bits is turning the register with the byte mixed in at the start, less the bits not fed yet. */
  lemma {:induction false} FedBits(crc: Word32, byte: seq<bool>, k: nat)
    requires |byte| == 8 && k <= 8
    ensures FeedBits(crc, byte, k) == Xor(Turns(Xor(crc, Wide(byte)), k), Shift(Wide(byte), k))
  {
    hide Xor, Turn, Shift, FeedBit;
    if k == 0 {
      XorTwice(crc, Wide(byte));
      NextShift(Wide(byte), 0);
    } else {
      FedBits(crc, byte, k - 1);
      NextShift(Wide(byte), k - 1);
      FedTurn(Turns(Xor(crc, Wide(byte)), k - 1), Shift(Wide(byte), k - 1));
    }
  }

  /** As long as only clear bits come out, turning is shifting. */
  lemma {:induction false} ClearBitsShift(a: Word32, k: nat)
    requires k <= 32 && forall i :: 0 <= i < k ==> !a[i]
    ensures Turns(a, k) == Shift(a, k)
  {
    hide Polynomial;
    if k > 0 {
      ClearBitsShift(a, k - 1);
      NextShift(a, k - 1);
    }
  }

  function LowByte(a: Word32): Word32 {
    a[..8] + Clear(24)
  }

  function HighBytes(a: Word32): Word32 {
    Clear(8) + a[8..]
  }

  /** One table step is eight bits of the definition. */
  lemma TableStep(crc: Word32, byte: seq<bool>)
    requires |byte| == 8
    ensures FeedBits(crc, byte, 8) == Xor(Shift(crc, 8), Turns(LowByte(Xor(crc, Wide(byte))), 8))
  {
    hide Turns, FeedBits;
    var mixed := Xor(crc, Wide(byte));
    var low, high := LowByte(mixed), HighBytes(mixed);
    FedBits(crc, byte, 8);
    assert Xor(high, low) == mixed;
    TurnsAreLinear(high, low, 8);
    ClearBitsShift(high, 8);
    assert Xor(Xor(Shift(high, 8), Turns(low, 8)), Shift(Wide(byte), 8)) == Xor(Shift(crc, 8), Turns(low, 8));
  }

  // Bytes and words as numbers.

  lemma {:induction false} SmallNumber(n: nat, k: nat, more: nat)
    requires n < PowerOfTwo(k)
    ensures BitsOf(n, k + more) == BitsOf(n, k) + Clear(more)
  {
    if k > 0 {
      SmallNumber(n / 2, k - 1, more);
    } else if more > 0 {
      SmallNumber(0, 0, more - 1);
    }
  }

  lemma {:induction false} ClearTop(b: seq<bool>, more: nat)
    ensures Value(b + Clear(more)) == Value(b)
  {
    if b != [] {
      assert (b + Clear(more))[1..] == b[1..] + Clear(more);
      ClearTop(b[1..], more);
    } else if more > 0 {
      assert (b + Clear(more))[1..] == b + Clear(more - 1);
      ClearTop(b, more - 1);
    }
  }

  // The code.

  ghost predicate IsTable(table: array<Word32>, upTo: nat)
    reads table
  {
    table.Length == 256 && forall n :: 0 <= n < upTo && n < 256 ==> table[n] == Entry(n)
  }

  function Entry(n: nat): Word32 {
    Turns(BitsOf(n, 32), 8)
  }

  /** The inner loop: eight turns of an index. */
  method TableEntry(n: nat) returns (crc: Word32)
    ensures crc == Entry(n)
  {
    hide Polynomial, Shift, Xor, Clear, BitsOf;
    var k := 0;
    crc := BitsOf(n, 32);
    while k < 8
      invariant 0 <= k <= 8 && crc == Turns(BitsOf(n, 32), k)
    {
      crc, k := Xor(Shift(crc, 1), if crc[0] then Polynomial() else Clear(32)), k + 1;
    }
  }

  method MakeTable() returns (table: array<Word32>)
    ensures IsTable(table, 256)
  {
    hide Entry;
    table := new Word32[256](i => seq(32, j => false));
    var n: nat := 0;
    while n < 256
      invariant n <= 256 && IsTable(table, n)
    {
      var crc := TableEntry(n);
      table[n] := crc;
      n := n + 1;
    }
  }

  /** The table entry at the low byte of a word. */
  lemma LookedUp(a: Word32)
    ensures Value(LowByte(a)) < 256 && Entry(Value(LowByte(a))) == Turns(LowByte(a), 8)
  {
    ClearTop(a[..8], 24);
    SomePowers();
    BitsOfValue(LowByte(a));
  }

  /** `crc32c` computes the bit-at-a-time code of every message. */
  method Checksum(table: array<Word32>, data: seq<Byte>) returns (crc: Word32)
    requires IsTable(table, 256)
    ensures crc == Crc(data)
  {
    hide Xor, Shift, FeedBits, Turns, LowByte, BitsOf, Value;
    crc := Inverted(Clear(32));
    for i := 0 to |data|
      invariant crc == Register(Inverted(Clear(32)), data[..i])
    {
      assert data[..i + 1][..i] == data[..i];
      ByteIsWide(data[i]);
      var mixed := Xor(crc, BitsOf(data[i], 32));
      TableStep(crc, BitsOf(data[i], 8));
      LookedUp(mixed);
      crc := Xor(Shift(crc, 8), table[Value(LowByte(mixed))]);
    }
    assert data[..|data|] == data;
    crc := Inverted(crc);
  }

  lemma ByteIsWide(b: Byte)
    ensures BitsOf(b, 32) == Wide(BitsOf(b, 8))
  {
    SomePowers();
    SmallNumber(b, 8, 24);
  }
}
