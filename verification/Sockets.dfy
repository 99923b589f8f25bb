/** Socket pairs (kernel/src/arch/x86_64/syscall.rs): two pipe buffers each, one for each direction. */
module Sockets {
  import opened Prelude
  import opened Pipes

  datatype SocketPair = SocketPair(used: bool, aToB: nat, bToA: nat)

  /** `socket_pipe_for`: the buffer a side of a pair writes to, or reads from. */
  function PipeFor(pairs: seq<SocketPair>, socket: nat, side: nat, write: bool): Option<nat> {
    if socket >= |pairs| || !pairs[socket].used || side > 1 then None
    else if side == 0 then Some(if write then pairs[socket].aToB else pairs[socket].bToA)
    else Some(if write then pairs[socket].bToA else pairs[socket].aToB)
  }

  /** Each live pair has two buffers in use, and no buffer serves two pairs. */
  ghost predicate PairsOk(pairs: seq<SocketPair>, used: seq<bool>) {
    && (forall s :: 0 <= s < |pairs| && pairs[s].used ==> PairOk(pairs[s], used))
    && (forall s, t :: 0 <= s < t < |pairs| && pairs[s].used && pairs[t].used ==> Apart(pairs[s], pairs[t]))
  }

  ghost predicate PairOk(p: SocketPair, used: seq<bool>) {
    p.aToB < |used| && p.bToA < |used| && p.aToB != p.bToA && used[p.aToB] && used[p.bToA]
  }

  ghost predicate Apart(p: SocketPair, q: SocketPair) {
    p.aToB != q.aToB && p.aToB != q.bToA && p.bToA != q.aToB && p.bToA != q.bToA
  }

  /** A read and a write meet in one buffer exactly when they are the two ends of one direction of one pair. */
  lemma DirectionsNeverMix(pairs: seq<SocketPair>, used: seq<bool>, s: nat, side: nat, write: bool, s': nat,
                           side': nat, write': bool)
    requires PairsOk(pairs, used)
    requires PipeFor(pairs, s, side, write).Some? && PipeFor(pairs, s', side', write').Some?
    ensures PipeFor(pairs, s, side, write) == PipeFor(pairs, s', side', write')
            <==> s == s' && ((side == side') <==> (write == write'))
  {
    assert PairOk(pairs[s], used);
    assert s < s' ==> Apart(pairs[s], pairs[s']);
    assert s' < s ==> Apart(pairs[s'], pairs[s]);
  }

  /** A new pair on two buffers that were free. */
  lemma NewPairOk(pairs: seq<SocketPair>, used: seq<bool>, s: nat, a: nat, b: nat)
    requires PairsOk(pairs, used) && s < |pairs| && !pairs[s].used
    requires a < |used| && b < |used| && a != b && !used[a] && !used[b]
    ensures PairsOk(pairs[s := SocketPair(true, a, b)], used[a := true][b := true])
  {
    var pairs', used' := pairs[s := SocketPair(true, a, b)], used[a := true][b := true];
    forall t | 0 <= t < |pairs'| && pairs'[t].used
      ensures PairOk(pairs'[t], used') && (t != s ==> Apart(pairs'[t], pairs'[s])) {
      assert t != s ==> PairOk(pairs[t], used);
    }
    forall t, u | 0 <= t < u < |pairs'| && pairs'[t].used && pairs'[u].used ensures Apart(pairs'[t], pairs'[u]) {
      if t != s && u != s {
        assert Apart(pairs[t], pairs[u]);
      }
    }
  }

  predicate AllTaken(pairs: seq<SocketPair>) {
    forall s :: 0 <= s < |pairs| ==> pairs[s].used
  }

  /** Two of the buffers are free. */
  ghost predicate TwoFree(used: seq<bool>) {
    exists i, j :: 0 <= i < j < |used| && !used[i] && !used[j]
  }

  /** The first two that are free. */
  predicate FirstTwo(used: seq<bool>, a: nat, b: nat) {
    && a < b < |used| && !used[a] && !used[b] && forall i :: 0 <= i < b && i != a ==> used[i]
  }

  /** The first that is free, if any is. */
  predicate FirstFree(used: seq<bool>, r: Option<nat>) {
    match r
    case None => forall i :: 0 <= i < |used| ==> used[i]
    case Some(a) => a < |used| && !used[a] && forall i :: 0 <= i < a ==> used[i]
  }

  lemma NoneFree(used: seq<bool>)
    requires FirstFree(used, None)
    ensures !TwoFree(used)
  {
  }

  /** The first free one, and then again the first, are the first two. */
  lemma SecondFree(used: seq<bool>, a: nat, second: Option<nat>)
    requires FirstFree(used, Some(a)) && FirstFree(used[a := true], second)
    ensures !used[a] && (second.None? <==> !TwoFree(used))
    ensures second.Some? ==> FirstTwo(used, a, second.value)
  {
    var after := used[a := true];
    assert forall i :: 0 <= i < |used| && i != a ==> after[i] == used[i];
    if second.Some? {
      assert !used[second.value] && second.value != a;
    }
  }

  lemma FirstTwoAreFree(used: seq<bool>, a: nat, b: nat)
    requires FirstTwo(used, a, b)
    ensures a < b < |used| && !used[a] && !used[b]
  {
  }

  class SocketTable {
    const pipes: seq<PipeBuffer>
    const pairs: array<SocketPair>
    /** The `used` flags of the buffers. */
    ghost var inUse: seq<bool>

    /** No pair and no buffer in use. */
    constructor ()
      ensures Valid() && fresh(pairs) && fresh(Storage()) && forall s :: 0 <= s < SOCKET_MAX ==> !pairs[s].used
    {
      var buffers: seq<PipeBuffer> := [];
      while |buffers| < PIPE_MAX
        invariant |buffers| <= PIPE_MAX && forall i :: 0 <= i < |buffers| ==> NewBuffer(buffers[i])
        invariant forall i :: 0 <= i < |buffers| ==> fresh(buffers[i]) && fresh(buffers[i].data)
        invariant forall i, j :: 0 <= i < j < |buffers| ==>
                    buffers[i] != buffers[j] && buffers[i].data != buffers[j].data
      {
        var buffer := new PipeBuffer();
        buffers := buffers + [buffer];
      }
      pipes := buffers;
      pairs := new SocketPair[SOCKET_MAX](i => SocketPair(false, 0, 0));
      inUse := seq(PIPE_MAX, i => false);
    }

    ghost predicate Valid()
      reads this, pairs, pipes, set p: PipeBuffer | p in pipes :: p.data
    {
      && Arranged()
      && BuffersOk()
      && PairsOk(pairs[..], inUse)
    }

    ghost predicate BuffersOk()
      reads this, pipes, set p: PipeBuffer | p in pipes :: p.data
    {
      |inUse| == |pipes| && forall i :: 0 <= i < |pipes| ==> pipes[i].Valid() && pipes[i].used == inUse[i]
    }

    /** The buffers are different objects with different storage. */
    ghost predicate Arranged() {
      && |pipes| == PIPE_MAX && pairs.Length == SOCKET_MAX
      && forall i, j :: 0 <= i < j < |pipes| ==> pipes[i] != pipes[j] && pipes[i].data != pipes[j].data
    }

    ghost function Storage(): set<object>
      reads this
    {
      (set p: PipeBuffer | p in pipes :: p as object) + (set p: PipeBuffer | p in pipes :: p.data as object)
    }

    /** `socket_read_fd` on one side of a pair. */
    method Receive(socket: nat, side: nat, count: nat, nonBlocking: bool, fault: bool)
      returns (r: Result<seq<Byte>, Errno>)
      requires Valid()
      modifies Storage()
      ensures Valid() && pairs[..] == old(pairs[..])
      ensures var id := PipeFor(pairs[..], socket, side, false);
              && (id.None? ==> r == Err(ENOTCONN))
              && (forall i :: 0 <= i < |pipes| && Some(i) != id ==>
                    SameHistory(pipes[i], old(pipes[i].written), old(pipes[i].taken)))
              && (id.Some? ==>
                    var p := pipes[id.value]; var out := if r.Ok? then r.value else [];
                    && r.Ok? == (if old(p.len) == 0 then !nonBlocking else !fault)
                    && (r.Err? ==> r.error == if old(p.len) == 0 then EAGAIN else EFAULT)
                    && |out| == (if r.Ok? then Min(count, old(p.len)) else 0)
                    && SameHistory(p, old(p.written), old(p.taken) + out) && old(p.taken) + out <= p.written)
    {
      hide PipeBuffer.Valid, PipeBuffer.Contents, PairsOk, PipeFor;
      PipeInRange(pairs[..], inUse, socket, side, false);
      var id := PipeFor(pairs[..], socket, side, false);
      if id.None? {
        return Err(ENOTCONN);
      }
      var p := pipes[id.value];
      assert p in pipes && p in Storage();
      r := p.Receive(count, nonBlocking, fault);
      TakenFirst(p);
    }

    /** `socket_write_fd` on one side of a pair. */
    method Send(socket: nat, side: nat, input: seq<Byte>, fault: bool) returns (r: Result<nat, Errno>)
      requires Valid()
      modifies Storage()
      ensures Valid() && pairs[..] == old(pairs[..])
      ensures var id := PipeFor(pairs[..], socket, side, true);
              && (id.None? ==> r == Err(ENOTCONN))
              && (forall i :: 0 <= i < |pipes| && Some(i) != id ==>
                    SameHistory(pipes[i], old(pipes[i].written), old(pipes[i].taken)))
              && (id.Some? ==>
                    var p := pipes[id.value]; var n := if r.Ok? then r.value else 0;
                    && r == (if old(p.len) == PIPE_CAPACITY then Err(EAGAIN) else if fault then Err(EFAULT)
                             else Ok(Min(|input|, PIPE_CAPACITY - old(p.len))))
                    && n <= |input| && SameHistory(p, old(p.written) + input[..n], old(p.taken)))
    {
      hide PipeBuffer.Valid, PipeBuffer.Contents, PairsOk, PipeFor;
      PipeInRange(pairs[..], inUse, socket, side, true);
      var id := PipeFor(pairs[..], socket, side, true);
      if id.None? {
        return Err(ENOTCONN);
      }
      var p := pipes[id.value];
      assert p in pipes && p in Storage() && p.data in Storage();
      r := p.Send(input, fault);
    }

    /**
     `socket_pair_alloc`: the first free pair, on the first two buffers not in use; it fails exactly when there is no
     such pair or there are no two such buffers, and then the buffers in use are as they were.
     */
    method Allocate() returns (r: Option<nat>)
      requires Valid()
      modifies pairs, Storage(), this`inUse
      ensures Valid()
      ensures r.None? <==> old(AllTaken(pairs[..])) || !TwoFree(old(inUse))
      ensures r.Some? ==>
                && r.value < SOCKET_MAX && !old(pairs[..])[r.value].used && AllTaken(old(pairs[..])[..r.value])
                && (forall s :: 0 <= s < SOCKET_MAX && s != r.value ==> pairs[..][s] == old(pairs[..])[s])
                && var p := pairs[..][r.value];
                && p.used && FirstTwo(old(inUse), p.aToB, p.bToA)
                && SameHistory(pipes[p.aToB], [], []) && SameHistory(pipes[p.bToA], [], [])
                && forall i :: 0 <= i < |pipes| && i != p.aToB && i != p.bToA ==>
                     SameHistory(pipes[i], old(pipes[i].written), old(pipes[i].taken))
      ensures r.None? ==> pairs[..] == old(pairs[..]) && inUse == old(inUse)
                          && forall i :: 0 <= i < |pipes| && inUse[i] ==>
                            SameHistory(pipes[i], old(pipes[i].written), old(pipes[i].taken))
    {
      hide PipeBuffer.Valid, PipeBuffer.Contents, PairsOk, AllTaken, TwoFree, FirstTwo;
      var s := FreePair();
      if s.None? {
        return None;
      }
      var a := FreeBuffer();
      if a.None? {
        NoneFree(inUse);
        return None;
      }
      SetUp(a.value, true);
      var b := FreeBuffer();
      SecondFree(old(inUse), a.value, b);
      if b.None? {
        SetUp(a.value, false);
        assert inUse == old(inUse);
        return None;
      }
      SetUp(b.value, true);
      FirstTwoAreFree(old(inUse), a.value, b.value);
      NewPairOk(pairs[..], old(inUse), s.value, a.value, b.value);
      pairs[s.value] := SocketPair(true, a.value, b.value);
      return s;
    }

    /** Empties a buffer and marks it used or free. */
    method SetUp(id: nat, used: bool)
      requires Arranged() && BuffersOk() && id < |pipes|
      modifies Storage(), this`inUse
      ensures BuffersOk() && inUse == old(inUse)[id := used] && SameHistory(pipes[id], [], [])
      ensures forall i :: 0 <= i < |pipes| && i != id ==>
                SameHistory(pipes[i], old(pipes[i].written), old(pipes[i].taken))
    {
      hide PipeBuffer.Valid, PipeBuffer.Contents;
      var p := pipes[id];
      assert p in pipes && p in Storage() && p.data in Storage();
      p.Reset(used);
      inUse := inUse[id := used];
    }

    method FreePair() returns (r: Option<nat>)
      requires Arranged()
      ensures r.None? <==> AllTaken(pairs[..])
      ensures r.Some? ==> r.value < SOCKET_MAX && !pairs[r.value].used && AllTaken(pairs[..][..r.value])
    {
      for s := 0 to SOCKET_MAX
        invariant AllTaken(pairs[..][..s])
      {
        if !pairs[s].used {
          assert !pairs[..][s].used;
          return Some(s);
        }
      }
      assert pairs[..][..SOCKET_MAX] == pairs[..];
      return None;
    }

    method FreeBuffer() returns (r: Option<nat>)
      requires Arranged() && |inUse| == |pipes| && forall i :: 0 <= i < |pipes| ==> pipes[i].used == inUse[i]
      ensures FirstFree(inUse, r)
    {
      for i := 0 to PIPE_MAX
        invariant forall k :: 0 <= k < i ==> inUse[k]
      {
        if !pipes[i].used {
          return Some(i);
        }
      }
      return None;
    }
  }

  ghost predicate NewBuffer(p: PipeBuffer)
    reads p, p.data
  {
    p.Valid() && !p.used
  }

  datatype Call = ReceiveCall(socket: nat, side: nat, count: nat, nonBlocking: bool, fault: bool)
                | SendCall(socket: nat, side: nat, input: seq<Byte>, fault: bool)

  /** The bytes each buffer has accepted and delivered since `written` and `taken`, all of them in order. */
  ghost predicate InOrder(table: SocketTable, written: seq<seq<Byte>>, taken: seq<seq<Byte>>,
                          accepted: seq<seq<Byte>>, delivered: seq<seq<Byte>>)
    reads table, table.pipes
  {
    && |written| == |taken| == |accepted| == |delivered| == |table.pipes|
    && forall i :: 0 <= i < |table.pipes| ==>
         SameHistory(table.pipes[i], written[i] + accepted[i], taken[i] + delivered[i])
  }

  /**
   Any sequence of sends and receives on a table of socket pairs. By buffer, and so by direction of a pair: what has
   been received is always the beginning of what was sent before and since, whatever the other sockets do.
   */
  method Converse(table: SocketTable, calls: seq<Call>, ghost written: seq<seq<Byte>>, ghost taken: seq<seq<Byte>>)
    returns (accepted: seq<seq<Byte>>, delivered: seq<seq<Byte>>)
    requires table.Valid() && |written| == |taken| == |table.pipes|
    requires forall i :: 0 <= i < |table.pipes| ==> SameHistory(table.pipes[i], written[i], taken[i])
    modifies table.Storage()
    ensures table.Valid() && table.pairs[..] == old(table.pairs[..])
    ensures InOrder(table, written, taken, accepted, delivered)
    ensures forall i :: 0 <= i < |table.pipes| ==> taken[i] + delivered[i] <= written[i] + accepted[i]
  {
    accepted, delivered := seq(|table.pipes|, i => []), seq(|table.pipes|, i => []);
    for k := 0 to |calls|
      invariant table.Valid() && table.pairs[..] == old(table.pairs[..])
      invariant InOrder(table, written, taken, accepted, delivered)
    {
      accepted, delivered := OneCall(table, calls[k], written, taken, accepted, delivered);
    }
    forall i | 0 <= i < |table.pipes| ensures taken[i] + delivered[i] <= written[i] + accepted[i] {
      TakenFirst(table.pipes[i]);
    }
  }

  method OneCall(table: SocketTable, call: Call, ghost written: seq<seq<Byte>>, ghost taken: seq<seq<Byte>>,
                 accepted: seq<seq<Byte>>, delivered: seq<seq<Byte>>)
    returns (accepted': seq<seq<Byte>>, delivered': seq<seq<Byte>>)
    requires table.Valid() && InOrder(table, written, taken, accepted, delivered)
    modifies table.Storage()
    ensures table.Valid() && table.pairs[..] == old(table.pairs[..])
            && InOrder(table, written, taken, accepted', delivered')
  {
    hide PairsOk, PipeFor, PipeBuffer.Valid, PipeBuffer.Contents;
    accepted', delivered' := accepted, delivered;
    match call {
      case ReceiveCall(socket, side, count, nonBlocking, fault) =>
        PipeInRange(table.pairs[..], table.inUse, socket, side, false);
        var id := PipeFor(table.pairs[..], socket, side, false);
        var r := table.Receive(socket, side, count, nonBlocking, fault);
        if id.Some? && r.Ok? {
          delivered' := delivered[id.value := delivered[id.value] + r.value];
        }
      case SendCall(socket, side, input, fault) =>
        PipeInRange(table.pairs[..], table.inUse, socket, side, true);
        var id := PipeFor(table.pairs[..], socket, side, true);
        var r := table.Send(socket, side, input, fault);
        if id.Some? && r.Ok? {
          accepted' := accepted[id.value := accepted[id.value] + input[..r.value]];
        }
    }
  }

  /** The histories of a buffer, which also fix its contents. */
  ghost predicate SameHistory(p: PipeBuffer, written: seq<Byte>, taken: seq<Byte>)
    reads p
  {
    p.written == written && p.taken == taken
  }

  /** What has been read of a buffer is the beginning of what was written to it. */
  lemma TakenFirst(p: PipeBuffer)
    requires p.Valid()
    ensures p.taken <= p.written && |p.written| == |p.taken| + p.len
  {
  }

  lemma PipeInRange(pairs: seq<SocketPair>, used: seq<bool>, s: nat, side: nat, write: bool)
    requires PairsOk(pairs, used)
    ensures PipeFor(pairs, s, side, write).Some? ==> PipeFor(pairs, s, side, write).value < |used|
  {
    if s < |pairs| && pairs[s].used {
      assert PairOk(pairs[s], used);
    }
  }
}
