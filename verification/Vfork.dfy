/**
 The stack and TLS page a vfork child shares with its parent (kernel/src/process.rs): saved before, put back after.
 */
module Vfork {
  import opened Prelude
  import opened UserAccess

  const TLS_BASE: nat := 0x5FFF_0000_0000
  const STACK_TOP: nat := 0x7F00_0000_0000
  const STACK_BOTTOM: nat := 0x7EFF_FFFC_0000
  const STACK_BYTES: nat := 0x4_0000

  /** The memory a snapshot was taken of comes back, and nothing else moves. */
  ghost function PutBack(now: map<nat, Byte>, was: map<nat, Byte>, stack: bool, tls: bool): map<nat, Byte> {
    map a | a in now ::
      if ((stack && STACK_BOTTOM <= a < STACK_TOP) || (tls && TLS_BASE <= a < TLS_BASE + 4096)) && a in was then was[a]
        else now[a]
  }

  lemma PokedIsPutBack(now: map<nat, Byte>, was: map<nat, Byte>, stack: bool, tls: bool)
    requires stack ==> Present(was, STACK_BOTTOM, STACK_BYTES)
    requires tls ==> Present(was, TLS_BASE, 4096)
    ensures var afterStack := if stack then Poke(now, STACK_BOTTOM, Peek(was, STACK_BOTTOM, STACK_BYTES)) else now;
            var afterTls := if tls then Poke(afterStack, TLS_BASE, Peek(was, TLS_BASE, 4096)) else afterStack;
            afterTls == PutBack(now, was, stack, tls)
  {
  }

  class SharedMemory {
    var stackValid: bool
    var tlsValid: bool
    var stackShared: bool
    var stackSnapshot: seq<Byte>
    var tlsSnapshot: seq<Byte>

    constructor ()
      ensures !stackValid && !tlsValid && !stackShared
    {
      stackValid, tlsValid, stackShared, stackSnapshot, tlsSnapshot := false, false, false, [], [];
    }

    /** What the snapshots hold. */
    ghost predicate Holds(was: map<nat, Byte>)
      reads this
    {
      && (stackValid ==>
            Present(was, STACK_BOTTOM, STACK_BYTES) && stackSnapshot == Peek(was, STACK_BOTTOM, STACK_BYTES))
      && (tlsValid ==> Present(was, TLS_BASE, 4096) && tlsSnapshot == Peek(was, TLS_BASE, 4096))
    }

    /** Whether every page of the stack is mapped. */
    method StackIsMapped(memory: UserMemory) returns (mapped: bool)
      requires WholePages(memory.bytes)
      ensures mapped == Present(memory.bytes, STACK_BOTTOM, STACK_BYTES)
    {
      hide Present, WholePages;
      var page: nat := STACK_BOTTOM;
      PresentTwice(memory.bytes, STACK_BOTTOM, 0, 0);
      NothingToReach(memory.bytes, STACK_BOTTOM);
      while page < STACK_TOP
        invariant STACK_BOTTOM <= page <= STACK_TOP && page % 4096 == 0
        invariant Present(memory.bytes, STACK_BOTTOM, page - STACK_BOTTOM)
      {
        if page !in memory.bytes {
          Missing(memory.bytes, STACK_BOTTOM, page, STACK_BYTES);
          return false;
        }
        RestOfPage(memory.bytes, page);
        PresentTwice(memory.bytes, STACK_BOTTOM, page - STACK_BOTTOM, page + 4096 - STACK_BOTTOM);
        page := page + 4096;
      }
      return true;
    }

    /** `snapshot_vfork_shared_memory`. */
    method Snapshot(memory: UserMemory, parentRsp: U64)
      requires WholePages(memory.bytes)
      modifies this
      ensures Holds(memory.bytes) && stackShared == stackValid
      ensures stackValid <==> STACK_BOTTOM <= parentRsp < STACK_TOP && Present(memory.bytes, STACK_BOTTOM, STACK_BYTES)
      ensures tlsValid <==> stackValid && TLS_BASE in memory.bytes
    {
      hide Present, WholePages, Peek;
      stackShared, stackValid, tlsValid := false, false, false;
      if parentRsp < STACK_BOTTOM || parentRsp >= STACK_TOP {
        return;
      }
      var mapped := StackIsMapped(memory);
      if !mapped {
        return;
      }
      stackSnapshot := Peek(memory.bytes, STACK_BOTTOM, STACK_BYTES);
      stackValid, stackShared := true, true;
      if TLS_BASE in memory.bytes {
        RestOfPage(memory.bytes, TLS_BASE);
        tlsSnapshot := Peek(memory.bytes, TLS_BASE, 4096);
        tlsValid := true;
      }
    }

    /** `restore_vfork_shared_memory`. The pages are taken to be mapped still. */
    method Restore(memory: UserMemory, ghost was: map<nat, Byte>)
      requires Holds(was)
      modifies this, memory
      ensures memory.bytes == PutBack(old(memory.bytes), was, old(stackValid), old(tlsValid))
      ensures !stackValid && !tlsValid && !stackShared
    {
      hide Present, Peek, Poke, PutBack;
      PokedIsPutBack(memory.bytes, was, stackValid, tlsValid);
      if stackValid {
        memory.bytes := Poke(memory.bytes, STACK_BOTTOM, stackSnapshot);
      }
      if tlsValid {
        memory.bytes := Poke(memory.bytes, TLS_BASE, tlsSnapshot);
      }
      stackValid, tlsValid, stackShared := false, false, false;
    }

    /**
     A vfork around a child that leaves `childMemory` behind. On the parent's own stack the parent finds every byte
     of its stack, and of its TLS page if it had one, as it was; on a stack of the child's own nothing is put back.
     */
    method Around(memory: UserMemory, parentRsp: U64, childStack: U64, childMemory: map<nat, Byte>)
      requires WholePages(memory.bytes)
      requires memory.bytes.Keys <= childMemory.Keys
      modifies this, memory
      ensures var saved := childStack == 0 && STACK_BOTTOM <= parentRsp < STACK_TOP
              && old(Present(memory.bytes, STACK_BOTTOM, STACK_BYTES));
              memory.bytes == PutBack(childMemory, old(memory.bytes), saved, saved && TLS_BASE in old(memory.bytes))
    {
      ghost var was := memory.bytes;
      if childStack == 0 {
        Snapshot(memory, parentRsp);
      }
      memory.bytes := childMemory;
      if childStack == 0 {
        Restore(memory, was);
      }
    }
  }
}
