/** A process's memory as the system calls reach it: whole pages of bytes, present or absent. */
module UserAccess {
  import opened Prelude

  /** Every address from `address` on, `n` of them, is present. */
  ghost predicate Present(m: map<nat, Byte>, address: nat, n: nat) {
    forall a :: address <= a < address + n ==> a in m
  }

  /** `m` with `bytes` stored from `address` on. */
  function Poke(m: map<nat, Byte>, address: nat, bytes: seq<Byte>): map<nat, Byte> {
    map a | a in m :: if address <= a < address + |bytes| then bytes[a - address] else m[a]
  }

  function Peek(m: map<nat, Byte>, address: nat, n: nat): (bytes: seq<Byte>)
    requires Present(m, address, n)
    ensures |bytes| == n
  {
    seq<Byte>(n, k requires 0 <= k < n => m[address + k])
  }

  ghost predicate WholePages(m: map<nat, Byte>) {
    forall a :: a in m ==> Present(m, a - a % 4096, 4096)
  }

  lemma PokePeek(m: map<nat, Byte>, address: nat, bytes: seq<Byte>)
    requires Present(m, address, |bytes|)
    ensures Present(Poke(m, address, bytes), address, |bytes|)
            && Peek(Poke(m, address, bytes), address, |bytes|) == bytes
  {
  }

  lemma PokeTwice(m: map<nat, Byte>, address: nat, a: seq<Byte>, b: seq<Byte>)
    ensures Poke(Poke(m, address, a), address + |a|, b) == Poke(m, address, a + b)
    ensures Poke(m, address, []) == m
  {
  }

  lemma PokeKeepsPages(m: map<nat, Byte>, address: nat, bytes: seq<Byte>)
    requires WholePages(m)
    ensures WholePages(Poke(m, address, bytes)) && Poke(m, address, bytes).Keys == m.Keys
  {
    forall a | a in Poke(m, address, bytes) ensures Present(Poke(m, address, bytes), a - a % 4096, 4096) {
      assert a in m;
    }
  }

  /** Up to the end of its page, an address that is present is followed by addresses that are. */
  lemma RestOfPage(m: map<nat, Byte>, a: nat)
    requires WholePages(m) && a in m
    ensures Present(m, a, 4096 - a % 4096)
  {
  }

  /** Presence of a range, page piece by page piece. */
  lemma PresentTwice(m: map<nat, Byte>, address: nat, n: nat, k: nat)
    requires n <= k
    ensures Present(m, address, k) <==> Present(m, address, n) && Present(m, address + n, k - n)
  {
  }

  lemma PeekTwice(m: map<nat, Byte>, address: nat, n: nat, k: nat)
    requires Present(m, address, n) && Present(m, address + n, k)
    ensures Present(m, address, n + k) && Peek(m, address, n) + Peek(m, address + n, k) == Peek(m, address, n + k)
    ensures Peek(m, address, 0) == []
  {
  }

  /** The range a copy accepts: below the user limit, and present. */
  ghost predicate Reachable(m: map<nat, Byte>, address: nat, n: nat) {
    n == 0 || (address + n <= USER_LIMIT && Present(m, address, n))
  }

  class UserMemory {
    var bytes: map<nat, Byte>

    /**
     `copy_user_out`, a page piece at a time: all of it when the range is reachable, else some of the first bytes.
     */
    method CopyOut(address: U64, input: seq<Byte>) returns (ok: bool, ghost copied: nat)
      requires WholePages(bytes) && |input| < U64_LIMIT
      modifies this
      ensures WholePages(bytes) && ok == Reachable(old(bytes), address, |input|)
      ensures copied <= |input| && (ok ==> copied == |input|) && bytes == Poke(old(bytes), address, input[..copied])
    {
      hide *;
      PokeTwice(bytes, address, [], []);
      assert input[..0] == [] && input[..|input|] == input;
      NothingToReach(bytes, address);
      copied := 0;
      if input == [] {
        return true, 0;
      }
      OutOfReach(bytes, address, |input|);
      if address + |input| >= 0x1_0000_0000_0000_0000 {
        return false, copied;
      }
      if address + |input| > 0x8000_0000_0000 {
        return false, copied;
      }
      var offset: nat := 0;
      ghost var before := bytes;
      while offset < |input|
        invariant offset <= |input| && WholePages(bytes) && WholePages(before)
                  && bytes == Poke(before, address, input[..offset])
        invariant copied == offset
        invariant bytes.Keys == before.Keys && Present(before, address, offset)
      {
        var virtualAddress := address + offset;
        if virtualAddress !in bytes {
          Missing(before, address, virtualAddress, |input|);
          return false, copied;
        }
        var amount := Piece(virtualAddress, |input| - offset);
        PieceIsPresent(before, virtualAddress, |input| - offset);
        PresentTwice(before, address, offset, offset + amount);
        PokeTwice(before, address, input[..offset], input[offset..offset + amount]);
        assert input[..offset] + input[offset..offset + amount] == input[..offset + amount];
        PokeKeepsPages(bytes, virtualAddress, input[offset..offset + amount]);
        bytes := Poke(bytes, virtualAddress, input[offset..offset + amount]);
        offset := offset + amount;
        copied := offset;
      }
      return true, |input|;
    }

    /** `copy_user_in`. */
    method CopyIn(address: U64, length: nat) returns (r: Option<seq<Byte>>)
      requires WholePages(bytes) && length < U64_LIMIT
      ensures r.Some? == Reachable(bytes, address, length)
      ensures r.Some? ==> Present(bytes, address, length) && r.value == Peek(bytes, address, length)
    {
      hide *;
      NothingToReach(bytes, address);
      PeekTwice(bytes, address, 0, 0);
      if length == 0 {
        return Some([]);
      }
      OutOfReach(bytes, address, length);
      if address + length >= 0x1_0000_0000_0000_0000 {
        return None;
      }
      if address + length > 0x8000_0000_0000 {
        return None;
      }
      var output: seq<Byte>, offset: nat := [], 0;
      while offset < length
        invariant offset <= length && Present(bytes, address, offset) && output == Peek(bytes, address, offset)
      {
        var virtualAddress := address + offset;
        if virtualAddress !in bytes {
          Missing(bytes, address, virtualAddress, length);
          return None;
        }
        var amount := Piece(virtualAddress, length - offset);
        PieceIsPresent(bytes, virtualAddress, length - offset);
        PresentTwice(bytes, address, offset, offset + amount);
        PeekTwice(bytes, address, offset, amount);
        output := output + Peek(bytes, virtualAddress, amount);
        offset := offset + amount;
      }
      return Some(output);
    }
  }

  /** What is left of the page, or of the data. */
  function Piece(a: nat, left: nat): (n: nat)
    ensures n <= left && (left > 0 ==> n > 0)
  {
    Min(4096 - a % 4096, left)
  }

  lemma PieceIsPresent(m: map<nat, Byte>, a: nat, left: nat)
    requires WholePages(m) && a in m
    ensures Present(m, a, Piece(a, left))
  {
    RestOfPage(m, a);
  }

  lemma NothingToReach(m: map<nat, Byte>, address: nat)
    ensures Reachable(m, address, 0) && Present(m, address, 0)
  {
  }

  lemma OutOfReach(m: map<nat, Byte>, address: nat, n: nat)
    requires n > 0
    ensures Reachable(m, address, n) <==> address + n <= 0x8000_0000_0000 && Present(m, address, n)
  {
  }

  lemma Missing(m: map<nat, Byte>, address: nat, a: nat, n: nat)
    requires address <= a < address + n && a !in m
    ensures !Present(m, address, n)
  {
  }
}
