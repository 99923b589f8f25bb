/** Pipes and socket pairs (kernel/src/arch/x86_64/syscall.rs): byte queues in rings of 8192 bytes. */
module Pipes {
  import opened Prelude
  import opened Bytes

  const PIPE_CAPACITY: nat := 8192
  const PIPE_MAX: nat := 32
  const SOCKET_MAX: nat := 8

  datatype Errno = EBADF | EAGAIN | EPIPE | EFAULT | EMFILE | ENOTCONN

  /** The `len` bytes from position `at` on, around the end of the ring. */
  function Ring(data: seq<Byte>, at: nat, len: nat): (bytes: seq<Byte>)
    requires |data| == PIPE_CAPACITY && at < PIPE_CAPACITY && len <= PIPE_CAPACITY
    ensures |bytes| == len
  {
    if at + len <= PIPE_CAPACITY then data[at..at + len] else data[at..] + data[..at + len - PIPE_CAPACITY]
  }

  /** A position `n` further on. */
  function Advance(at: nat, n: nat): nat {
    (at + n) % PIPE_CAPACITY
  }

  lemma AdvanceTwice(at: nat, n: nat, more: nat)
    requires at < PIPE_CAPACITY && n <= PIPE_CAPACITY
    ensures Advance(Advance(at, n), more) == Advance(at, n + more) < PIPE_CAPACITY
    ensures Advance(at, n) == if at + n < PIPE_CAPACITY then at + n else at + n - PIPE_CAPACITY
  {
    var q := (at + n) / PIPE_CAPACITY;
    var rest := (Advance(at, n) + more) / PIPE_CAPACITY;
    Quotient(at + n + more, PIPE_CAPACITY, q + rest, (Advance(at, n) + more) % PIPE_CAPACITY);
  }

  /** Taking from the front splits a ring. */
  lemma RingSplits(data: seq<Byte>, at: nat, n: nat, len: nat)
    requires |data| == PIPE_CAPACITY && at < PIPE_CAPACITY && n <= len <= PIPE_CAPACITY
    ensures Advance(at, n) < PIPE_CAPACITY
    ensures Ring(data, at, len) == Ring(data, at, n) + Ring(data, Advance(at, n), len - n)
  {
    hide Advance;
    AdvanceTwice(at, n, 0);
  }

  /** The ring with `bytes` stored from position `at` on, around the end. */
  function Stored(data: seq<Byte>, at: nat, bytes: seq<Byte>): (r: seq<Byte>)
    requires |data| == PIPE_CAPACITY && at < PIPE_CAPACITY && |bytes| <= PIPE_CAPACITY
    ensures |r| == PIPE_CAPACITY
  {
    var first := Min(|bytes|, PIPE_CAPACITY - at);
    Overlay(Overlay(data, at, bytes[..first]), 0, bytes[first..])
  }

  lemma RingAt(data: seq<Byte>, at: nat, len: nat)
    requires |data| == PIPE_CAPACITY && at < PIPE_CAPACITY && len <= PIPE_CAPACITY
    ensures forall k :: 0 <= k < len ==>
              Ring(data, at, len)[k] == data[if at + k < PIPE_CAPACITY then at + k else at + k - PIPE_CAPACITY]
  {
  }

  lemma StoredAt(data: seq<Byte>, at: nat, bytes: seq<Byte>)
    requires |data| == PIPE_CAPACITY && at < PIPE_CAPACITY && |bytes| <= PIPE_CAPACITY
    ensures forall i :: 0 <= i < PIPE_CAPACITY ==>
              Stored(data, at, bytes)[i] == if at <= i < at + |bytes| then bytes[i - at]
                                            else if i + PIPE_CAPACITY < at + |bytes| then bytes[i + PIPE_CAPACITY - at]
                                            else data[i]
  {
    hide Overlay;
    var first := Min(|bytes|, PIPE_CAPACITY - at);
    OverlayAt(data, at, bytes[..first]);
    OverlayAt(Overlay(data, at, bytes[..first]), 0, bytes[first..]);
  }

  /** Storing behind the contents appends to them. */
  lemma StoredAppends(data: seq<Byte>, at: nat, len: nat, bytes: seq<Byte>)
    requires |data| == PIPE_CAPACITY && at < PIPE_CAPACITY && len + |bytes| <= PIPE_CAPACITY
    ensures Advance(at, len) < PIPE_CAPACITY
    ensures Ring(Stored(data, Advance(at, len), bytes), at, len + |bytes|) == Ring(data, at, len) + bytes
  {
    hide Advance, Ring, Stored;
    AdvanceTwice(at, len, 0);
    var after := Stored(data, Advance(at, len), bytes);
    StoredAt(data, Advance(at, len), bytes);
    RingAt(data, at, len);
    RingAt(after, at, len + |bytes|);
  }

  class PipeBuffer {
    const data: array<Byte>
    var used: bool
    var readPos: nat
    var writePos: nat
    var len: nat
    /** All bytes written to this buffer since it was set up, and all bytes read from it. */
    ghost var written: seq<Byte>
    ghost var taken: seq<Byte>

    constructor ()
      ensures Valid() && fresh(data) && !used && Contents() == []
    {
      data := new Byte[PIPE_CAPACITY](i => 0);
      used, readPos, writePos, len := false, 0, 0, 0;
      written, taken := [], [];
    }

    ghost predicate Valid()
      reads this, data
    {
      && data.Length == PIPE_CAPACITY && readPos < PIPE_CAPACITY && len <= PIPE_CAPACITY
      && writePos == Advance(readPos, len)
      && taken + Contents() == written
    }

    ghost function Contents(): (bytes: seq<Byte>)
      requires data.Length == PIPE_CAPACITY && readPos < PIPE_CAPACITY && len <= PIPE_CAPACITY
      reads this, data
      ensures |bytes| == len
    {
      Ring(data[..], readPos, len)
    }

    /** `PipeBuffer::empty`, marked used or not. */
    method Reset(used: bool)
      requires Valid()
      modifies this, data
      ensures Valid() && this.used == used && Contents() == [] && written == [] && taken == []
    {
      forall k | 0 <= k < PIPE_CAPACITY {
        data[k] := 0;
      }
      this.used, readPos, writePos, len := used, 0, 0, 0;
      written, taken := [], [];
    }

    /** The copying half of a read: up to the end of the ring, then from its start. */
    method Peek(amount: nat) returns (buffer: seq<Byte>)
      requires Valid() && amount <= len
      ensures |buffer| == amount && buffer == Contents()[..amount]
    {
      RingSplits(data[..], readPos, amount, len);
      var first := Min(amount, PIPE_CAPACITY - readPos);
      buffer := data[readPos..readPos + first];
      var second := amount - first;
      if second != 0 {
        buffer := buffer + data[..second];
      }
    }

    /** The second half of a read, once the bytes are with the user. */
    method Consume(amount: nat)
      requires Valid() && amount <= len
      modifies this`readPos, this`len, this`taken
      ensures Valid() && Contents() == old(Contents())[amount..] && taken == old(taken) + old(Contents())[..amount]
    {
      hide Ring, Advance;
      RingSplits(data[..], readPos, amount, len);
      AdvanceTwice(readPos, amount, len - amount);
      taken := taken + Contents()[..amount];
      readPos := Advance(readPos, amount);
      len := len - amount;
    }

    /** Stores the bytes up to the end of the ring, then from its start. */
    method Append(bytes: seq<Byte>)
      requires Valid() && len + |bytes| <= PIPE_CAPACITY
      modifies this`writePos, this`len, this`written, data
      ensures Valid() && Contents() == old(Contents()) + bytes && written == old(written) + bytes
    {
      hide Ring, Advance, Overlay;
      ghost var before := data[..];
      StoredAppends(before, readPos, len, bytes);
      AdvanceTwice(readPos, len, |bytes|);
      var first := Min(|bytes|, PIPE_CAPACITY - writePos);
      Store(writePos, bytes[..first]);
      Store(0, bytes[first..]);
      writePos := Advance(writePos, |bytes|);
      len := len + |bytes|;
      written := written + bytes;
    }

    method Store(at: nat, bytes: seq<Byte>)
      requires data.Length == PIPE_CAPACITY && at + |bytes| <= PIPE_CAPACITY
      modifies data
      ensures data[..] == Overlay(old(data[..]), at, bytes)
    {
      forall k | 0 <= k < |bytes| {
        data[at + k] := bytes[k];
      }
    }

    /** `pipe_read_fd` on a read end of this buffer: `fault` says that the user's buffer cannot be written. */
    method Read(count: nat, hasWriter: bool, fault: bool) returns (r: Result<seq<Byte>, Errno>)
      requires Valid()
      modifies this`readPos, this`len, this`taken
      ensures Valid()
      ensures r == if count == 0 then Ok([])
                   else if !used then Err(EBADF)
                   else if old(len) == 0 then (if hasWriter then Err(EAGAIN) else Ok([]))
                   else if fault then Err(EFAULT)
                   else Ok(old(Contents())[..Min(count, old(len))])
      ensures var out := if r.Ok? then r.value else [];
              taken == old(taken) + out && Contents() == old(Contents())[|out|..]
    {
      hide Ring, Advance;
      if count == 0 {
        return Ok([]);
      }
      if !used {
        return Err(EBADF);
      }
      if len == 0 {
        return if hasWriter then Err(EAGAIN) else Ok([]);
      }
      var amount := Min(count, len);
      var buffer := Peek(amount);
      if fault {
        return Err(EFAULT);
      }
      Consume(amount);
      return Ok(buffer);
    }

    /** `pipe_write_fd` on a write end: `input` is what the user offers, if it can be read. */
    method Write(input: seq<Byte>, hasReader: bool, fault: bool) returns (r: Result<nat, Errno>)
      requires Valid()
      modifies this`writePos, this`len, this`written, data
      ensures Valid()
      ensures var free := PIPE_CAPACITY - old(len);
              r == if input == [] then Ok(0)
                   else if !used then Err(EBADF)
                   else if !hasReader then Err(EPIPE)
                   else if free == 0 then Err(EAGAIN)
                   else if fault then Err(EFAULT)
                   else Ok(Min(|input|, free))
      ensures var n := if r.Ok? then r.value else 0;
              n <= |input| && written == old(written) + input[..n] && Contents() == old(Contents()) + input[..n]
    {
      hide Ring, Advance;
      if input == [] {
        return Ok(0);
      }
      if !used {
        return Err(EBADF);
      }
      if !hasReader {
        return Err(EPIPE);
      }
      var free := PIPE_CAPACITY - len;
      if free == 0 {
        return Err(EAGAIN);
      }
      var amount := Min(|input|, free);
      if fault {
        return Err(EFAULT);
      }
      Append(input[..amount]);
      return Ok(amount);
    }

    /** The reading half of `socket_read_fd`. */
    method Receive(count: nat, nonBlocking: bool, fault: bool) returns (r: Result<seq<Byte>, Errno>)
      requires Valid()
      modifies this`readPos, this`len, this`taken
      ensures Valid()
      ensures r == if old(len) == 0 then (if nonBlocking then Err(EAGAIN) else Ok([]))
                   else if fault then Err(EFAULT)
                   else Ok(old(Contents())[..Min(count, old(len))])
      ensures var out := if r.Ok? then r.value else [];
              taken == old(taken) + out && Contents() == old(Contents())[|out|..]
    {
      hide Ring, Advance;
      if len == 0 {
        return if nonBlocking then Err(EAGAIN) else Ok([]);
      }
      var amount := Min(count, len);
      var buffer := Peek(amount);
      if fault {
        return Err(EFAULT);
      }
      Consume(amount);
      return Ok(buffer);
    }

    /** The writing half of `socket_write_fd`. */
    method Send(input: seq<Byte>, fault: bool) returns (r: Result<nat, Errno>)
      requires Valid()
      modifies this`writePos, this`len, this`written, data
      ensures Valid()
      ensures var free := PIPE_CAPACITY - old(len);
              r == if free == 0 then Err(EAGAIN) else if fault then Err(EFAULT) else Ok(Min(|input|, free))
      ensures var n := if r.Ok? then r.value else 0;
              n <= |input| && written == old(written) + input[..n] && Contents() == old(Contents()) + input[..n]
    {
      hide Ring, Advance;
      var free := PIPE_CAPACITY - len;
      if free == 0 {
        return Err(EAGAIN);
      }
      var amount := Min(|input|, free);
      if fault {
        return Err(EFAULT);
      }
      Append(input[..amount]);
      return Ok(amount);
    }
  }

  datatype Call =
    | ReadCall(count: nat, hasWriter: bool, fault: bool)
    | WriteCall(input: seq<Byte>, hasReader: bool, fault: bool)

  /**
   Any sequence of reads and writes, refused ones included: what came out and what is still in the pipe is what was
   in it followed by everything accepted, in order.
   */
  method Converse(pipe: PipeBuffer, calls: seq<Call>) returns (accepted: seq<Byte>, delivered: seq<Byte>)
    requires pipe.Valid()
    modifies pipe`readPos, pipe`writePos, pipe`len, pipe`written, pipe`taken, pipe.data
    ensures pipe.Valid()
    ensures delivered + pipe.Contents() == old(pipe.Contents()) + accepted
    ensures |accepted| <= |delivered| + PIPE_CAPACITY
  {
    hide Ring, Advance;
    accepted, delivered := [], [];
    for i := 0 to |calls|
      invariant pipe.Valid()
      invariant delivered + pipe.Contents() == old(pipe.Contents()) + accepted
    {
      ghost var before := pipe.Contents();
      match calls[i] {
        case ReadCall(count, hasWriter, fault) =>
          var r := pipe.Read(count, hasWriter, fault);
          var out := if r.Ok? then r.value else [];
          assert before == out + pipe.Contents();
          assert delivered + out + pipe.Contents() == delivered + before;
          delivered := delivered + out;
        case WriteCall(input, hasReader, fault) =>
          var r := pipe.Write(input, hasReader, fault);
          var taken := if r.Ok? then input[..r.value] else [];
          assert pipe.Contents() == before + taken;
          assert delivered + pipe.Contents() == delivered + before + taken;
          accepted := accepted + taken;
      }
    }
  }
}
