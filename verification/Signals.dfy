/** Signal delivery and return (kernel/src/arch/x86_64/syscall.rs): the frame on the user stack saves and restores. */
module Signals {
  import opened Prelude
  import opened Bytes
  import opened Words
  import opened UserAccess

  const SIGKILL: nat := 9
  const SIGSEGV: nat := 11
  const SIGSTOP: nat := 19
  const SIG_DFL: U64 := 0
  const SIG_IGN: U64 := 1
  const FRAME_BYTES: nat := 560
  const FPSTATE_BYTES: nat := 512

  /** A signal mask: bit n - 1 stands for signal n. */
  type Mask = b: seq<bool> | |b| == 64 witness seq(64, i => false)

  datatype Registers = Registers(
    r8: U64, r9: U64, r10: U64, r11: U64, r12: U64, r13: U64, r14: U64, r15: U64,
    rdi: U64, rsi: U64, rbp: U64, rbx: U64, rdx: U64, rax: U64, rcx: U64)

  datatype Action = Action(handler: U64, noDefer: bool, resetHand: bool, restorer: U64, mask: Mask)

  const NO_ACTION := Action(0, false, false, 0, seq(64, i => false))

  predicate IgnoredByDefault(signum: nat) {
    signum == 17 || signum == 18 || signum == 23 || signum == 28
  }

  predicate Ignored(action: Action, signum: nat) {
    action.handler == SIG_IGN || (action.handler == SIG_DFL && IgnoredByDefault(signum))
  }

  // Masks as machine words.

  lemma SixtyFourBits()
    ensures PowerOfTwo(64) == 0x1_0000_0000_0000_0000
  {
    SomePowers();
    PowersMultiply(8, 8);
    PowersMultiply(8, 16);
    PowersMultiply(24, 40);
  }

  function MaskWord(mask: Mask): U64 {
    SixtyFourBits();
    Value(mask)
  }

  lemma MaskRoundTrip(mask: Mask)
    ensures BitsOf(MaskWord(mask), 64) == mask
  {
    BitsOfValue(mask);
  }

  // The frame.

  /** Where the frame goes: below the red zone, eight bytes off a 16-byte boundary. */
  function FrameBase(rsp: U64): Option<U64> {
    if rsp < FRAME_BYTES + FPSTATE_BYTES + 128 then None
    else
      var raw := rsp - (FRAME_BYTES + FPSTATE_BYTES + 128);
      if raw - raw % 16 < 8 then None
      else
        var base := raw - raw % 16 - 8;
        if base < 0x1000 || base + FRAME_BYTES + FPSTATE_BYTES > USER_LIMIT then None else Some(base)
  }

  /** The frame keeps clear of the 128 bytes below the stack pointer, and is aligned as a call would leave the stack. */
  lemma FramePlacement(rsp: U64)
    requires FrameBase(rsp).Some?
    ensures var base := FrameBase(rsp).value;
            && base + FRAME_BYTES + FPSTATE_BYTES <= rsp - 128 < base + FRAME_BYTES + FPSTATE_BYTES + 24
            && base % 16 == 8 && 0x1000 <= base
  {
  }

  /** There is a place for it below every stack pointer of the user half that is high enough. */
  lemma FrameHasPlaceIff(rsp: U64)
    requires rsp <= USER_LIMIT
    ensures FrameBase(rsp).Some? <==> 0x1010 + FRAME_BYTES + FPSTATE_BYTES + 128 <= rsp
  {
  }

  /** CS and SS as the frame stores them, in one word. */
  const SELECTORS: U64 := 0x23 + 0x1_0000_0000_0000 * 0x1B

  ghost predicate SavesHigh(w: seq<U64>, g: Registers)
    requires |w| == 70
  {
    && w[6] == g.r8 && w[7] == g.r9 && w[8] == g.r10 && w[9] == g.r11
    && w[10] == g.r12 && w[11] == g.r13 && w[12] == g.r14 && w[13] == g.r15
  }

  ghost predicate SavesLow(w: seq<U64>, g: Registers)
    requires |w| == 70
  {
    && w[14] == g.rdi && w[15] == g.rsi && w[16] == g.rbp && w[17] == g.rbx
    && w[18] == g.rdx && w[19] == g.rax && w[20] == g.rcx
  }

  ghost predicate SavesControl(w: seq<U64>, g: Registers, rsp: U64, mask: Mask, fs: U64)
    requires |w| == 70
  {
    && w[21] == rsp && w[22] == g.rcx && w[23] == g.r11 && w[24] == SELECTORS && w[30] == fs && w[38] == MaskWord(mask)
  }

  /** Where a frame keeps the interrupted state. */
  ghost predicate Saves(w: seq<U64>, g: Registers, rsp: U64, mask: Mask, fs: U64)
    requires |w| == 70
  {
    SavesHigh(w, g) && SavesLow(w, g) && SavesControl(w, g, rsp, mask, fs)
  }

  /** The words of a frame that carry nothing. */
  predicate IsBlank(k: nat) {
    1 <= k < 6 || k == 25 || k == 26 || k == 28 || 30 < k < 38 || 38 < k < 54 || k == 55 || 56 < k
  }

  /** The rest of it: where the handler returns to, and what it is told about the signal. */
  ghost predicate Informs(w: seq<U64>, signum: nat, restorer: U64, mask: Mask, base: U64, pid: nat)
    requires |w| == 70
  {
    && w[0] == restorer && w[27] == MaskWord(mask) && w[29] == base + FRAME_BYTES
    && w[54] == signum && w[56] == pid + 0x1_0000_0000 * 1000
    && forall k :: 0 <= k < 70 && IsBlank(k) ==> w[k] == 0
  }

  /** `rflags | 0x202`. */
  function UserFlags(n: U64): U64 {
    var m := if n / 2 % 2 == 1 then n else n + 2;
    if m / 512 % 2 == 1 then m else m + 512
  }

  /** The bits of the flags a return refuses: 13, 14 and 17. */
  predicate ForbiddenFlags(n: U64) {
    n / 0x2000 % 2 == 1 || n / 0x4000 % 2 == 1 || n / 0x2_0000 % 2 == 1
  }

  datatype Resumed = Resumed(regs: Registers, rsp: U64, fs: U64, mask: Mask)

  /** What `rt_sigreturn` makes of a frame. */
  function Restore(w: seq<U64>): Option<Resumed>
    requires |w| == 70
  {
    var rsp, rip, flags, selectors := w[21], w[22], w[23], w[24];
    if selectors % 0x1_0000 != 0x23 || selectors / 0x1_0000_0000_0000 % 0x1_0000 != 0x1B || rip == 0 || rsp == 0
       || rip >= USER_LIMIT || rsp >= USER_LIMIT || ForbiddenFlags(flags)
    then None
    else
      Some(Resumed(Registers(w[6], w[7], w[8], UserFlags(flags), w[10], w[11], w[12], w[13], w[14], w[15], w[16],
                             w[17], w[18], w[19], rip),
                   rsp, w[30], BitsOf(w[38], 64)))
  }

  /** Whether the interrupted state is one a return accepts. */
  predicate Resumable(g: Registers, rsp: U64) {
    0 < g.rcx < USER_LIMIT && 0 < rsp < USER_LIMIT && !ForbiddenFlags(g.r11)
  }

  /** A frame restores exactly the state it was built from, with the flags user code may not clear set. */
  lemma FrameRoundTrip(w: seq<U64>, g: Registers, rsp: U64, mask: Mask, fs: U64)
    requires |w| == 70 && Saves(w, g, rsp, mask, fs)
    ensures Restore(w) == if Resumable(g, rsp) then Some(Resumed(g.(r11 := UserFlags(g.r11)), rsp, fs, mask)) else None
  {
    hide ForbiddenFlags, UserFlags, MaskWord, BitsOf;
    MaskRoundTrip(mask);
    assert SELECTORS % 0x1_0000 == 0x23 && SELECTORS / 0x1_0000_0000_0000 % 0x1_0000 == 0x1B;
  }

  /** The mask while a handler runs. */
  function HandlerMask(mask: Mask, action: Action, signum: nat): Mask
    requires 1 <= signum <= 64
  {
    seq(64, i requires 0 <= i < 64 =>
      (mask[i] || action.mask[i] || (!action.noDefer && i == signum - 1)) && i != SIGKILL - 1 && i != SIGSTOP - 1)
  }

  /** The signals a mask blocks. */
  function Blocked(mask: Mask): set<nat> {
    set n: nat | n <= 64 && Blocks(mask, n)
  }

  predicate Blocks(mask: Mask, n: nat) {
    1 <= n <= 64 && mask[n - 1]
  }

  /** The handler runs with the signals of both masks blocked and its own, but SIGKILL and SIGSTOP never are. */
  lemma HandlerBlocks(mask: Mask, action: Action, signum: nat)
    requires 1 <= signum <= 64
    ensures Blocked(HandlerMask(mask, action, signum))
         == Blocked(mask) + Blocked(action.mask) + (if action.noDefer then {} else {signum}) - {SIGKILL, SIGSTOP}
  {
  }

  lemma Halves(n: nat, p: nat)
    requires p > 0
    ensures n / (2 * p) == n / 2 / p
  {
    var q, r := n / 2 / p, n / 2 % p;
    assert n / 2 == p * q + r;
    assert p * q + p * q == (2 * p) * q;
    Quotient(n, 2 * p, q, 2 * r + n % 2);
  }

  lemma {:induction false} BitAt(n: nat, j: nat, k: nat)
    requires j < k
    ensures BitsOf(n, k)[j] <==> n / PowerOfTwo(j) % 2 == 1
  {
    if j > 0 {
      BitAt(n / 2, j - 1, k - 1);
      Halves(n, PowerOfTwo(j - 1));
    }
  }

  /** Adding a power of two to a number without that bit sets the bit. */
  lemma {:induction false} AddedBit(n: nat, j: nat, k: nat)
    requires j < k && !BitsOf(n, k)[j]
    ensures BitsOf(n + PowerOfTwo(j), k) == BitsOf(n, k)[j := true]
  {
    if j > 0 {
      var p := PowerOfTwo(j - 1);
      AddedBit(n / 2, j - 1, k - 1);
      assert (n + 2 * p) / 2 == n / 2 + p && (n + 2 * p) % 2 == n % 2;
    }
  }

  /** A return sets bits 1 and 9 of the flags and keeps the others; it refuses bits 13, 14 and 17. */
  lemma FlagsAreBits(n: U64)
    ensures BitsOf(UserFlags(n), 64) == BitsOf(n, 64)[1 := true][9 := true]
    ensures ForbiddenFlags(n) <==> BitsOf(n, 64)[13] || BitsOf(n, 64)[14] || BitsOf(n, 64)[17]
  {
    hide BitsOf;
    FlagPowers();
    BitAt(n, 1, 64);
    BitAt(n, 13, 64);
    BitAt(n, 14, 64);
    BitAt(n, 17, 64);
    var m := n;
    if n / 2 % 2 == 0 {
      AddedBit(n, 1, 64);
      m := n + 2;
    }
    BitAt(m, 9, 64);
    if m / 512 % 2 == 0 {
      AddedBit(m, 9, 64);
    }
  }

  lemma FlagPowers()
    ensures PowerOfTwo(1) == 2 && PowerOfTwo(9) == 512 && PowerOfTwo(13) == 0x2000 && PowerOfTwo(14) == 0x4000
            && PowerOfTwo(17) == 0x2_0000
  {
    SomePowers();
    PowersMultiply(1, 8);
    PowersMultiply(3, 11);
    PowersMultiply(1, 13);
    PowersMultiply(3, 14);
    assert PowerOfTwo(1) == 2;
  }

  /** Outside `from..to` nothing was written. */
  ghost predicate OnlyWithin(was: seq<U64>, w: seq<U64>, from: nat, to: nat) {
    |w| == |was| && forall k :: 0 <= k < |w| && !(from <= k < to) ==> w[k] == was[k]
  }

  method PutHigh(data: array<U64>, g: Registers)
    requires data.Length == 70
    modifies data
    ensures SavesHigh(data[..], g) && OnlyWithin(old(data[..]), data[..], 6, 14)
  {
    data[6], data[7], data[8], data[9] := g.r8, g.r9, g.r10, g.r11;
    data[10], data[11], data[12], data[13] := g.r12, g.r13, g.r14, g.r15;
  }

  method PutLow(data: array<U64>, g: Registers)
    requires data.Length == 70
    modifies data
    ensures SavesLow(data[..], g) && OnlyWithin(old(data[..]), data[..], 14, 21)
  {
    data[14], data[15], data[16], data[17] := g.rdi, g.rsi, g.rbp, g.rbx;
    data[18], data[19], data[20] := g.rdx, g.rax, g.rcx;
  }

  method PutControl(data: array<U64>, g: Registers, rsp: U64, mask: Mask, fs: U64)
    requires data.Length == 70 && forall k :: 21 <= k < 70 ==> data[k] == 0
    modifies data
    ensures SavesControl(data[..], g, rsp, mask, fs) && OnlyWithin(old(data[..]), data[..], 21, 39)
    ensures data[27] == MaskWord(mask) && data[25] == data[26] == data[28] == data[29] == 0
    ensures forall k :: 31 <= k < 38 ==> data[k] == 0
  {
    hide MaskWord;
    data[21], data[22], data[23], data[24] := rsp, g.rcx, g.r11, SELECTORS;
    data[27], data[30], data[38] := MaskWord(mask), fs, MaskWord(mask);
  }

  method PutState(data: array<U64>, g: Registers, rsp: U64, mask: Mask, fs: U64)
    requires data.Length == 70 && forall k :: 0 <= k < 70 ==> data[k] == 0
    modifies data
    ensures Saves(data[..], g, rsp, mask, fs) && OnlyWithin(old(data[..]), data[..], 6, 39)
    ensures data[27] == MaskWord(mask) && data[25] == data[26] == data[28] == data[29] == 0
    ensures forall k :: 31 <= k < 38 ==> data[k] == 0
  {
    hide MaskWord;
    PutHigh(data, g);
    PutLow(data, g);
    assert SavesHigh(data[..], g);
    PutControl(data, g, rsp, mask, fs);
  }

  /** The words `build_signal_frame` fills in, register by register. */
  method BuildWords(g: Registers, signum: nat, restorer: U64, mask: Mask, rsp: U64, base: U64, fs: U64, pid: nat)
    returns (w: seq<U64>)
    requires signum <= 64 && base + FRAME_BYTES < U64_LIMIT && pid < 0x1_0000_0000
    ensures |w| == 70 && Saves(w, g, rsp, mask, fs) && Informs(w, signum, restorer, mask, base, pid)
  {
    hide MaskWord, SavesHigh, SavesLow, SavesControl;
    var data := new U64[70](i => 0);
    PutState(data, g, rsp, mask, fs);
    ghost var was := data[..];
    data[0], data[29] := restorer, base + FRAME_BYTES;
    data[54], data[56] := signum, pid + 0x1_0000_0000 * 1000;
    w := data[..];
    InfoKeepsState(was, w, g, rsp, mask, fs);
  }

  lemma InfoKeepsState(was: seq<U64>, w: seq<U64>, g: Registers, rsp: U64, mask: Mask, fs: U64)
    requires |was| == |w| == 70 && Saves(was, g, rsp, mask, fs)
    requires forall k :: 6 <= k < 39 && k != 29 ==> w[k] == was[k]
    ensures Saves(w, g, rsp, mask, fs)
  {
    hide MaskWord;
  }

  // The process.

  /** A pending, unblocked signal that is not ignored. */
  predicate Deliverable(pending: Mask, mask: Mask, actions: seq<Action>, i: nat)
    requires i < 64 && |actions| == 64
  {
    pending[i] && !mask[i] && !Ignored(actions[i], i + 1)
  }

  /** The pending signals after the first `n` numbers have been gone through: the unblocked ones were discarded. */
  ghost predicate Discarded(was: Mask, pending: Mask, mask: Mask, n: nat) {
    forall i :: 0 <= i < 64 ==> pending[i] == (was[i] && (i >= n || mask[i]))
  }

  /** The lowest deliverable signal was taken, and everything unblocked before it discarded. */
  ghost predicate IsTaken(was: Mask, pending: Mask, mask: Mask, actions: seq<Action>, signum: Option<nat>)
    requires |actions| == 64
  {
    match signum
    case None => (forall i :: 0 <= i < 64 ==> !Deliverable(was, mask, actions, i)) && Discarded(was, pending, mask, 64)
    case Some(n) =>
      && 1 <= n <= 64 && Deliverable(was, mask, actions, n - 1)
      && (forall i :: 0 <= i < n - 1 ==> !Deliverable(was, mask, actions, i)) && Discarded(was, pending, mask, n)
  }

  /** The bytes a frame puts in memory: its words and a cleared FPU area. */
  function FrameBytes(w: seq<U64>): (b: seq<Byte>)
    ensures |b| == 8 * |w| + FPSTATE_BYTES
  {
    WordsToBytes(w) + Zeros(FPSTATE_BYTES)
  }

  /** The first `n` bytes were stored from `base` on, and nothing else. */
  ghost predicate PartlyStored(was: map<nat, Byte>, now: map<nat, Byte>, base: nat, bytes: seq<Byte>, n: nat) {
    n <= |bytes| && now == Poke(was, base, bytes[..n])
  }

  /** Where `build_signal_frame` puts the frame, if it can. */
  ghost function FrameOutcome(m: map<nat, Byte>, action: Action, rsp: U64): Option<U64> {
    var base := FrameBase(rsp);
    if action.restorer != 0 && base.Some? && Reachable(m, base.value, FRAME_BYTES + FPSTATE_BYTES) then base else None
  }

  lemma FrameOutcomeIsBase(m: map<nat, Byte>, action: Action, rsp: U64)
    ensures var outcome := FrameOutcome(m, action, rsp);
            outcome.Some? ==>
              && action.restorer != 0 && FrameBase(rsp) == outcome && 0x1000 <= outcome.value < 0x8000_0000_0000 - 432
              && Reachable(m, outcome.value, FRAME_BYTES + FPSTATE_BYTES)
  {
  }

  lemma FrameSlices(w: seq<U64>, n: nat)
    requires |w| == 70 && n <= FRAME_BYTES + FPSTATE_BYTES
    ensures n <= FRAME_BYTES ==> FrameBytes(w)[..n] == WordsToBytes(w)[..n]
    ensures n >= FRAME_BYTES ==> FrameBytes(w)[..n] == WordsToBytes(w) + Zeros(FPSTATE_BYTES)[..n - FRAME_BYTES]
    ensures WordsToBytes(w)[..FRAME_BYTES] == WordsToBytes(w)
            && FrameBytes(w)[..FRAME_BYTES + FPSTATE_BYTES] == FrameBytes(w)
  {
    hide WordsToBytes, Zeros;
  }

  class SignalState {
    const memory: UserMemory
    const actions: array<Action>
    const pid: nat
    var regs: Registers
    /** The stack pointer saved at system call entry, and the copies kept for a vfork child and for its parent. */
    var savedRsp: U64
    var childRsp: U64
    var parentRsp: U64
    var vforkChild: bool
    var fsBase: U64
    var mask: Mask
    var pending: Mask
    var exitCode: Option<nat>

    constructor (memory: UserMemory, pid: nat, regs: Registers, rsp: U64)
      requires WholePages(memory.bytes) && pid < 0x1_0000_0000
      ensures Valid() && this.memory == memory && this.regs == regs && savedRsp == rsp
      ensures fresh(actions)
    {
      this.memory, this.pid, this.regs := memory, pid, regs;
      actions := new Action[64](i => NO_ACTION);
      savedRsp, childRsp, parentRsp, vforkChild := rsp, 0, rsp, false;
      fsBase, mask, pending, exitCode := 0, seq(64, i => false), seq(64, i => false), None;
    }

    ghost predicate Valid()
      reads this, memory, actions
    {
      actions.Length == 64 && pid < 0x1_0000_0000 && WholePages(memory.bytes)
    }

    /** `take_deliverable_signal`: the lowest deliverable signal, discarding the ignored ones before it. */
    method Take() returns (signum: Option<nat>)
      requires Valid()
      modifies this`pending
      ensures IsTaken(old(pending), pending, mask, actions[..], signum)
    {
      ghost var low := 0;
      while true
        invariant 0 <= low <= 64 && Discarded(old(pending), pending, mask, low)
        invariant forall i :: 0 <= i < low ==> !Deliverable(old(pending), mask, actions[..], i)
        decreases 64 - low
      {
        var index := LowestPending();
        if index == 64 {
          return None;
        }
        pending := pending[index := false];
        if !Ignored(actions[index], index + 1) {
          return Some(index + 1);
        }
        low := index + 1;
      }
    }

    /** `trailing_zeros` of the pending, unblocked signals; 64 when there are none. */
    method LowestPending() returns (index: nat)
      ensures index <= 64 && forall i :: 0 <= i < index ==> !pending[i] || mask[i]
      ensures index < 64 ==> pending[index] && !mask[index]
    {
      for i := 0 to 64
        invariant forall k :: 0 <= k < i ==> !pending[k] || mask[k]
      {
        if pending[i] && !mask[i] {
          return i;
        }
      }
      return 64;
    }

    method SetSavedRsp(value: U64)
      modifies this`savedRsp, this`childRsp, this`parentRsp
      ensures savedRsp == value
      ensures childRsp == if vforkChild then value else old(childRsp)
      ensures parentRsp == if vforkChild then old(parentRsp) else value
    {
      savedRsp := value;
      if vforkChild {
        childRsp := value;
      } else {
        parentRsp := value;
      }
    }

    /** `build_signal_frame`. */
    method BuildFrame(signum: nat, action: Action, oldMask: Mask, oldRsp: U64)
      returns (r: Option<U64>, ghost w: seq<U64>, ghost stored: nat)
      requires Valid() && signum <= 64
      modifies memory
      ensures Valid()
      ensures r == FrameOutcome(old(memory.bytes), action, oldRsp)
      ensures if action.restorer == 0 || FrameBase(oldRsp).None? then memory.bytes == old(memory.bytes)
              else
                && |w| == 70 && Saves(w, regs, oldRsp, oldMask, fsBase)
                && Informs(w, signum, action.restorer, oldMask, FrameBase(oldRsp).value, pid)
                && PartlyStored(old(memory.bytes), memory.bytes, FrameBase(oldRsp).value, FrameBytes(w), stored)
                && (r.Some? ==> stored == FRAME_BYTES + FPSTATE_BYTES)
    {
      hide Saves, Informs, Poke, Present, WholePages, Reachable, MaskWord, WordsToBytes;
      w, stored := [], 0;
      if action.restorer == 0 {
        return None, w, 0;
      }
      var base := FrameBase(oldRsp);
      if base.None? {
        return None, w, 0;
      }
      var words := BuildWords(regs, signum, action.restorer, oldMask, oldRsp, base.value, fsBase, pid);
      w := words;
      ghost var before := memory.bytes;
      ReachableTwice(before, base.value, FRAME_BYTES, FPSTATE_BYTES);
      var ok, copied := memory.CopyOut(base.value, WordsToBytes(words));
      FrameSlices(w, copied);
      if !ok {
        return None, w, copied;
      }
      PokeKeepsReachable(before, base.value, WordsToBytes(words), base.value + FRAME_BYTES, FPSTATE_BYTES);
      ok, copied := memory.CopyOut(base.value + FRAME_BYTES, Zeros(FPSTATE_BYTES));
      FrameSlices(w, FRAME_BYTES + copied);
      PokeTwice(before, base.value, WordsToBytes(words), Zeros(FPSTATE_BYTES)[..copied]);
      return if ok then base else None, w, FRAME_BYTES + copied;
    }

    method Terminate(signum: nat)
      modifies this`exitCode
      ensures exitCode == Some(128 + Min(signum, 127))
    {
      exitCode := Some(128 + Min(signum, 127));
    }

    /**
     `deliver_pending_signal`. The lowest deliverable signal ends the process by default; for a handler the interrupted
     state is saved in a frame and the handler started on it, and when there is no place for the frame the process ends
     with SIGSEGV, the frame stored in part at most.
     */
    method Deliver() returns (delivered: Option<nat>, ghost taken: Option<nat>, ghost w: seq<U64>, ghost stored: nat)
      requires Valid()
      modifies this, memory, actions
      ensures Valid() && fsBase == old(fsBase) && vforkChild == old(vforkChild)
      ensures IsTaken(old(pending), pending, old(mask), old(actions[..]), taken)
      ensures delivered.None? ==>
                regs == old(regs) && mask == old(mask) && savedRsp == old(savedRsp) && actions[..] == old(actions[..])
      ensures delivered == if taken.None? then None
                           else
                             var action := old(actions[..])[taken.value - 1];
                             if action.handler == SIG_DFL
                                || FrameOutcome(old(memory.bytes), action,
                                                old(if vforkChild then childRsp else savedRsp)).None?
                             then None else taken
      ensures exitCode == if taken.None? || delivered.Some? then old(exitCode)
                          else if old(actions[..])[taken.value - 1].handler == SIG_DFL then Some(128 + taken.value)
                          else Some(128 + SIGSEGV)
      ensures var rsp := old(if vforkChild then childRsp else savedRsp);
              if taken.None? || old(actions[..])[taken.value - 1].handler == SIG_DFL
                 || old(actions[..])[taken.value - 1].restorer == 0 || FrameBase(rsp).None?
              then memory.bytes == old(memory.bytes)
              else
                && |w| == 70 && Saves(w, old(regs), rsp, old(mask), old(fsBase))
                && Informs(w, taken.value, old(actions[..])[taken.value - 1].restorer, old(mask), FrameBase(rsp).value,
                           pid)
                && PartlyStored(old(memory.bytes), memory.bytes, FrameBase(rsp).value, FrameBytes(w), stored)
                && (delivered.Some? ==> stored == FRAME_BYTES + FPSTATE_BYTES)
      ensures delivered.Some? ==>
                var n := delivered.value; var rsp := old(if vforkChild then childRsp else savedRsp);
                var action := old(actions[..])[n - 1];
                && FrameBase(rsp) == Some(savedRsp) && action.handler != SIG_DFL && action.handler != SIG_IGN
                && regs == old(regs).(rdi := n, rsi := savedRsp + 432, rdx := savedRsp + 8, rcx := action.handler,
                                      r11 := 0x202)
                && mask == HandlerMask(old(mask), action, n)
                && actions[..] == (if action.resetHand then old(actions[..])[n - 1 := NO_ACTION] else old(actions[..]))
    {
      hide Saves, Informs, Poke, Present, WholePages, Reachable, WordsToBytes, Deliverable;
      hide Discarded, FrameBase, HandlerMask;
      hide PartlyStored, FrameBytes, FrameOutcome;
      w, stored := [], 0;
      var signal := Take();
      taken, delivered := signal, None;
      if signal.None? {
        return;
      }
      var signum := signal.value;
      var action := actions[signum - 1];
      if action.handler == SIG_DFL {
        Terminate(signum);
        return;
      }
      NotIgnored(old(pending), mask, actions[..], signum - 1);
      var oldMask, oldRsp := mask, if vforkChild then childRsp else savedRsp;
      FrameOutcomeIsBase(memory.bytes, action, oldRsp);
      var base;
      base, w, stored := BuildFrame(signum, action, oldMask, oldRsp);
      if base.None? {
        Terminate(SIGSEGV);
        return;
      }
      mask := HandlerMask(oldMask, action, signum);
      if action.resetHand {
        actions[signum - 1] := NO_ACTION;
      }
      regs := regs.(rdi := signum, rsi := base.value + 432, rdx := base.value + 8, rcx := action.handler, r11 := 0x202);
      SetSavedRsp(base.value);
      delivered := signal;
    }

    /** `rt_sigreturn_impl`. */
    method SigReturn() returns (ok: bool)
      requires Valid()
      modifies this
      ensures Valid() && memory.bytes == old(memory.bytes) && vforkChild == old(vforkChild)
      ensures var base := old(savedRsp) - 8;
              var resumed := if base >= 0x1000 && Reachable(memory.bytes, base, FRAME_BYTES)
                && Present(memory.bytes, base, FRAME_BYTES)
                             then Restore(BytesToWords(Peek(memory.bytes, base, FRAME_BYTES))) else None;
              if resumed.None? then
                !ok && regs == old(regs) && savedRsp == old(savedRsp) && fsBase == old(fsBase) && mask == old(mask)
              else ok && Resumed(regs, savedRsp, fsBase, mask) == resumed.value
    {
      hide Present, WholePages, Reachable, Peek, BytesToWords, ForbiddenFlags, UserFlags, BitsOf;
      if savedRsp < 8 {
        return false;
      }
      var base := savedRsp - 8;
      if base < 0x1000 || base + FRAME_BYTES > USER_LIMIT {
        OutOfReach(memory.bytes, base, FRAME_BYTES);
        return false;
      }
      var data := memory.CopyIn(base, FRAME_BYTES);
      if data.None? {
        return false;
      }
      var w := BytesToWords(data.value);
      var rsp, rip, rflags, csgsfs := w[21], w[22], w[23], w[24];
      if csgsfs % 0x1_0000 != 0x23 || csgsfs / 0x1_0000_0000_0000 % 0x1_0000 != 0x1B || rip == 0 || rsp == 0
         || rip >= USER_LIMIT || rsp >= USER_LIMIT || ForbiddenFlags(rflags)
      {
        return false;
      }
      regs := Registers(w[6], w[7], w[8], UserFlags(rflags), w[10], w[11], w[12], w[13], w[14], w[15], w[16], w[17],
                        w[18], w[19], rip);
      SetSavedRsp(rsp);
      fsBase, mask := w[30], BitsOf(w[38], 64);
      return true;
    }

    /**
     A signal whose handler returns through the restorer. It may store anywhere but in the 560 bytes of its frame,
     and may do anything to the registers, the mask and FS base: the interrupted state comes back, exactly when it
     was one a return accepts. The process is not a vfork child.
     */
    method DeliverAndReturn(handlerStores: map<nat, Byte>, handlerRegs: Registers, handlerFs: U64, handlerMask: Mask)
      returns (delivered: Option<nat>, ok: bool)
      requires Valid() && !vforkChild
      requires FrameBase(savedRsp).Some? ==> SparesFrame(handlerStores, FrameBase(savedRsp).value)
      modifies this, memory, actions
      ensures Valid()
      ensures delivered.Some? ==> ok == Resumable(old(regs), old(savedRsp))
      ensures delivered.Some? && ok ==>
                && regs == old(regs).(r11 := UserFlags(old(regs).r11)) && savedRsp == old(savedRsp)
                && fsBase == old(fsBase) && mask == old(mask)
    {
      hide Informs, Saves, Poke, Present, WholePages, Reachable, Peek, WordsToBytes, BytesToWords;
      hide Deliverable, FrameBase;
      hide HandlerMask, Restore, UserFlags, Resumable, Stored, SparesFrame;
      ghost var w;
      ghost var before, rsp, was, oldMask, oldFs := memory.bytes, savedRsp, regs, mask, fsBase;
      ghost var taken, stored;
      ghost var table := actions[..];
      delivered, taken, w, stored := Deliver();
      ok := false;
      if delivered.Some? {
        ghost var base, action := savedRsp, table[delivered.value - 1];
        FrameOutcomeIsBase(before, action, rsp);
        FrameReadBack(before, base, w);
        FrameRoundTrip(w, was, rsp, oldMask, oldFs);
        StoresSpareFrame(memory.bytes, handlerStores, base);
        memory.bytes := Stored(memory.bytes, handlerStores);
        savedRsp := savedRsp + 8;
        regs, fsBase, mask := handlerRegs, handlerFs, handlerMask;
        ok := SigReturn();
      }
    }
  }

  /** User memory after a handler's stores; a store to an absent page does not happen. */
  function Stored(m: map<nat, Byte>, stores: map<nat, Byte>): map<nat, Byte> {
    map a | a in m :: if a in stores then stores[a] else m[a]
  }

  predicate SparesFrame(stores: map<nat, Byte>, base: nat) {
    forall a :: a in stores ==> !(base <= a < base + FRAME_BYTES)
  }

  /** Stores outside the frame leave it readable and unchanged. */
  lemma StoresSpareFrame(m: map<nat, Byte>, stores: map<nat, Byte>, base: nat)
    requires WholePages(m) && SparesFrame(stores, base)
    ensures var m' := Stored(m, stores);
            && WholePages(m')
            && (Reachable(m, base, FRAME_BYTES) <==> Reachable(m', base, FRAME_BYTES))
            && (Present(m, base, FRAME_BYTES) ==>
                  Present(m', base, FRAME_BYTES) && Peek(m', base, FRAME_BYTES) == Peek(m, base, FRAME_BYTES))
  {
    var m' := Stored(m, stores);
    assert forall a :: a in m' <==> a in m;
    forall a | a in m' ensures Present(m', a - a % 4096, 4096) {
      assert a in m && Present(m, a - a % 4096, 4096);
    }
  }

  lemma NotIgnored(pending: Mask, mask: Mask, actions: seq<Action>, i: nat)
    requires i < 64 && |actions| == 64 && Deliverable(pending, mask, actions, i)
    ensures actions[i].handler != SIG_IGN
  {
  }

  /** An untouched frame is read back word for word. */
  lemma FrameReadBack(m: map<nat, Byte>, base: nat, w: seq<U64>)
    requires |w| == 70 && Reachable(m, base, FRAME_BYTES + FPSTATE_BYTES)
    ensures var m' := Poke(m, base, FrameBytes(w)[..FRAME_BYTES + FPSTATE_BYTES]);
            && Reachable(m', base, FRAME_BYTES) && Present(m', base, FRAME_BYTES)
            && BytesToWords(Peek(m', base, FRAME_BYTES)) == w
  {
    hide WordsToBytes, BytesToWords, Zeros;
    FrameSlices(w, FRAME_BYTES + FPSTATE_BYTES);
    var bytes := FrameBytes(w);
    var m' := Poke(m, base, bytes);
    PokePeek(m, base, bytes);
    WordsReadBack(w);
    assert Peek(m', base, FRAME_BYTES) == WordsToBytes(w);
  }

  lemma ReachableTwice(m: map<nat, Byte>, a: nat, n: nat, k: nat)
    requires n > 0 && k > 0
    ensures Reachable(m, a, n + k) <==> Reachable(m, a, n) && Reachable(m, a + n, k)
  {
  }

  lemma PokeKeepsReachable(m: map<nat, Byte>, a: nat, bytes: seq<Byte>, b: nat, n: nat)
    ensures Reachable(Poke(m, a, bytes), b, n) == Reachable(m, b, n)
  {
    var m' := Poke(m, a, bytes);
    assert forall k :: k in m' <==> k in m;
    assert Present(m', b, n) == Present(m, b, n);
  }
}
