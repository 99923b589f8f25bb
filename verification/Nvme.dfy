/**
 The NVMe driver (kernel/src/storage/nvme.rs) against a device that behaves as sections 4.1 and 4.6 of the
 NVM Express Base Specification 1.4 say: the completion ring, and the byte ranges built on page transfers.
 */
module Nvme {
  import opened Prelude
  import opened Bytes

  const WAIT_SPINS: nat := 20_000_000

  datatype Opcode = Flush | WritePages | ReadPages | WriteZeroes

  /** A submission queue entry; `lastBlock` is the zero-based block count of command dword 12. */
  datatype Command = Command(opcode: Opcode, cid: nat, lba: nat, lastBlock: nat)

  /** A completion queue entry: command identifier, status code and phase tag. */
  datatype Completion = Completion(cid: nat, status: nat, phase: nat)

  datatype NvmeError = Timeout | Status(code: nat) | Invalid | OutOfRange

  const LBA_OUT_OF_RANGE: nat := 0x80

  /** What a command can touch: the medium, and the data page in host memory. */
  datatype Media = Media(disk: seq<Byte>, page: seq<Byte>)

  /** The address of block `lba` on the medium. */
  function ByteOf(lba: nat, lbaBytes: nat): nat {
    lba * lbaBytes
  }

  predicate Accepts(c: Command, lbaBytes: nat, m: Media) {
    var base, n := ByteOf(c.lba, lbaBytes), (c.lastBlock + 1) * lbaBytes;
    c.opcode == Flush || (base + n <= |m.disk| && (c.opcode == WriteZeroes || n <= |m.page|))
  }

  /** The medium and the data page after the device has carried out `c`. */
  function Executed(c: Command, lbaBytes: nat, m: Media): (r: Media)
    ensures |r.disk| == |m.disk| && |r.page| == |m.page|
  {
    var base, n := ByteOf(c.lba, lbaBytes), (c.lastBlock + 1) * lbaBytes;
    if !Accepts(c, lbaBytes, m) then m
    else
      match c.opcode
      case Flush => m
      case ReadPages => m.(page := Overlay(m.page, 0, m.disk[base..base + n]))
      case WritePages => m.(disk := Overlay(m.disk, base, m.page[..n]))
      case WriteZeroes => m.(disk := Overlay(m.disk, base, Zeros(n)))
  }

  /**
   What a command that fails may leave: the medium is as before outside its blocks, and a read changes the page
   only.
   */
  predicate Torn(c: Command, lbaBytes: nat, m: Media, m': Media) {
    var base, n := ByteOf(c.lba, lbaBytes), (c.lastBlock + 1) * lbaBytes;
    && |m'.disk| == |m.disk| && |m'.page| == |m.page|
    && if !Accepts(c, lbaBytes, m) || c.opcode == Flush then m' == m
       else if c.opcode == ReadPages then m'.disk == m.disk
       else m'.page == m.page && SameOutside(m.disk, m'.disk, base, base + n)
  }

  /** `d'` is `d` but for the bytes from `from` up to `to`. */
  predicate SameOutside(d: seq<Byte>, d': seq<Byte>, from: nat, to: nat) {
    |d'| == |d| && forall i :: 0 <= i < |d| && !(from <= i < to) ==> d'[i] == d[i]
  }

  lemma ExecutedIsTorn(c: Command, lbaBytes: nat, m: Media)
    ensures Torn(c, lbaBytes, m, Executed(c, lbaBytes, m)) && Torn(c, lbaBytes, m, m)
  {
  }

  /** A status code other than success. */
  type StatusCode = n: nat | 0 < n < 256 witness 1

  /** A failure of the device: the status it reports, and what it leaves as far as that is possible. */
  datatype Fault = Fault(status: StatusCode, left: Media)

  /**
   How the device treats a command: the spin of the driver at which its completion is there, whether it has acted if
   that is too late, and the failure if there is one.
   */
  datatype Reaction = Reaction(spin: nat, early: bool, fault: Option<Fault>)

  /** What the device leaves when it acts on a command. */
  function Left(c: Command, lbaBytes: nat, m: Media, fault: Option<Fault>): Media {
    if fault.None? then Executed(c, lbaBytes, m)
    else if Torn(c, lbaBytes, m, fault.value.left) then fault.value.left
    else m
  }

  /** The status code it reports. */
  function StatusOf(c: Command, lbaBytes: nat, m: Media, fault: Option<Fault>): nat {
    if fault.Some? then fault.value.status else if Accepts(c, lbaBytes, m) then 0 else LBA_OUT_OF_RANGE
  }

  /** The device answers in time and without a failure. */
  predicate Good(re: Reaction) {
    re.spin < WAIT_SPINS && re.fault.None?
  }

  ghost predicate AlwaysGood(plan: nat -> Reaction) {
    forall n :: Good(plan(n))
  }

  /** What the driver is to answer for a command inside the namespace. */
  function ReplyTo(re: Reaction): Result<(), NvmeError> {
    if re.spin >= WAIT_SPINS then Err(Timeout)
    else if re.fault.Some? then Err(Status(re.fault.value.status))
    else Ok(())
  }

  /** The answer to the commands `from` to before `to`: the failure of the last, or there was none. */
  ghost predicate Reported(plan: nat -> Reaction, from: nat, to: nat, r: Result<(), NvmeError>) {
    if r.Ok? then from <= to && forall n :: from <= n < to ==> Good(plan(n))
    else
      && from < to && (forall n :: from <= n < to - 1 ==> Good(plan(n))) && !Good(plan(to - 1))
      && r == ReplyTo(plan(to - 1))
  }

  lemma ReportedOnce(plan: nat -> Reaction, n: nat)
    ensures Reported(plan, n, n + 1, ReplyTo(plan(n))) && Reported(plan, n, n, Ok(()))
  {
  }

  lemma ReportedTwice(plan: nat -> Reaction, from: nat, mid: nat, to: nat, r: Result<(), NvmeError>)
    requires Reported(plan, from, mid, Ok(())) && Reported(plan, mid, to, r)
    ensures Reported(plan, from, to, r)
  {
  }

  /** A device that is always good is never reported to fail. */
  lemma GoodIsReported(plan: nat -> Reaction, from: nat, to: nat, r: Result<(), NvmeError>)
    requires Reported(plan, from, to, r)
    ensures AlwaysGood(plan) ==> r.Ok?
    ensures r.Err? ==> DeviceFails(r.error)
  {
  }

  predicate DeviceFails(e: NvmeError) {
    e == Timeout || e.Status?
  }

  /** The position after `i` in a ring of `depth` entries. */
  function Next(i: nat, depth: nat): nat {
    if i + 1 == depth then 0 else i + 1
  }

  lemma NextIsModulo(i: nat, depth: nat)
    requires i < depth
    ensures (i + 1) % depth == Next(i, depth) < depth
  {
  }

  /** Entries before `head` carry `phase`, the entries from `head` on carry the other tag. */
  predicate Tagged(cq: seq<Completion>, head: nat, phase: nat) {
    forall i :: 0 <= i < |cq| ==> cq[i].phase == if i < head then phase else 1 - phase
  }

  /**
   The device. It takes a command when the submission doorbell is ahead of its own head, and posts one completion
   when the completion queue has room.
   */
  class Device {
    const depth: nat
    const lbaBytes: nat
    const sq: array<Command>
    const cq: array<Completion>
    /** The data page of the host, the target of every transfer. */
    const page: array<Byte>
    /** How it will treat each command to come, and how many there have been. */
    const plan: nat -> Reaction
    var served: nat
    var disk: seq<Byte>
    var sqDoorbell: nat
    var cqDoorbell: nat
    var sqHead: nat
    var cqTail: nat
    var phase: nat

    constructor (depth: nat, lbaBytes: nat, disk: seq<Byte>, plan: nat -> Reaction)
      requires 2 <= depth
      ensures Wired() && fresh(sq) && fresh(cq) && fresh(page)
      ensures this.depth == depth && this.lbaBytes == lbaBytes && this.disk == disk && this.plan == plan && served == 0
      ensures sqDoorbell == cqDoorbell == sqHead == cqTail == 0 && phase == 1 && Tagged(cq[..], 0, 1)
    {
      this.depth, this.lbaBytes, this.disk, this.plan, served := depth, lbaBytes, disk, plan, 0;
      sq := new Command[depth](i => Command(Flush, 0, 0, 0));
      cq := new Completion[depth](i => Completion(0, 0, 0));
      page := new Byte[4096](i => 0);
      sqDoorbell, cqDoorbell, sqHead, cqTail, phase := 0, 0, 0, 0, 1;
    }

    ghost predicate Wired()
      reads this
    {
      && depth >= 2 && sq.Length == depth && cq.Length == depth && page.Length == 4096
      && sqHead < depth && cqTail < depth && sqDoorbell < depth && cqDoorbell < depth && (phase == 0 || phase == 1)
    }

    ghost function Contents(): Media
      reads this, page
    {
      Media(disk, page[..])
    }

    method Transfer(c: Command)
      requires Wired()
      modifies this`disk, page
      ensures Wired() && Contents() == Executed(c, lbaBytes, old(Contents()))
    {
      var base, n := ByteOf(c.lba, lbaBytes), (c.lastBlock + 1) * lbaBytes;
      ghost var before := Contents();
      if c.opcode == Flush || base + n > |disk| || (c.opcode != WriteZeroes && n > 4096) {
        return;
      }
      match c.opcode {
        case ReadPages =>
          forall k | 0 <= k < n {
            page[k] := disk[base + k];
          }
          assert page[..] == Executed(c, lbaBytes, before).page;
        case WritePages =>
          disk := Overlay(disk, base, page[..n]);
          assert before.page[..n] == page[..n];
        case WriteZeroes =>
          disk := Overlay(disk, base, Zeros(n));
      }
    }

    method Fail(left: Media)
      requires Wired() && |left.page| == 4096
      modifies this`disk, page
      ensures Wired() && Contents() == left
    {
      disk := left.disk;
      forall k | 0 <= k < 4096 {
        page[k] := left.page[k];
      }
      assert page[..] == left.page;
    }

    /** The device acts on the command at the head. */
    method Act(fault: Option<Fault>)
      requires Wired()
      modifies this`disk, page
      ensures Wired() && Contents() == Left(sq[sqHead], lbaBytes, old(Contents()), fault)
      ensures Torn(sq[sqHead], lbaBytes, old(Contents()), Contents()) && |disk| == |old(disk)|
    {
      hide Torn, Executed;
      var c, m := sq[sqHead], Media(disk, page[..]);
      ExecutedIsTorn(c, lbaBytes, m);
      if fault.None? {
        Transfer(c);
      } else if Torn(c, lbaBytes, m, fault.value.left) {
        TornKeepsSize(c, lbaBytes, m, fault.value.left);
        Fail(fault.value.left);
      }
      TornKeepsSize(c, lbaBytes, m, Contents());
    }

    /** One command acted on and answered. */
    method Execute(fault: Option<Fault>)
      requires Wired() && sqHead != sqDoorbell && Next(cqTail, depth) != cqDoorbell
      modifies this`disk, this`sqHead, this`cqTail, this`phase, page, cq
      ensures Wired() && |disk| == |old(disk)|
      ensures Contents() == Left(sq[old(sqHead)], lbaBytes, old(Contents()), fault)
      ensures Torn(sq[old(sqHead)], lbaBytes, old(Contents()), Contents())
      ensures sqHead == Next(old(sqHead), depth) && cqTail == Next(old(cqTail), depth)
      ensures phase == if cqTail == 0 then 1 - old(phase) else old(phase)
      ensures var c := sq[old(sqHead)];
              cq[..] == old(cq[..])[old(cqTail) :=
                          Completion(c.cid, StatusOf(c, lbaBytes, old(Contents()), fault), old(phase))]
    {
      hide Torn, Executed, Left;
      var c := sq[sqHead];
      var status := StatusOf(c, lbaBytes, Media(disk, page[..]), fault);
      Act(fault);
      cq[cqTail] := Completion(c.cid, status, phase);
      sqHead, cqTail := Next(sqHead, depth), Next(cqTail, depth);
      if cqTail == 0 {
        phase := 1 - phase;
      }
    }
  }

  lemma TornKeepsSize(c: Command, lbaBytes: nat, m: Media, m': Media)
    requires Torn(c, lbaBytes, m, m')
    ensures |m'.disk| == |m.disk| && |m'.page| == |m.page|
  {
  }

  lemma OtherTagAtHead(cq: seq<Completion>, head: nat, phase: nat)
    requires head < |cq| && Tagged(cq, head, phase) && (phase == 0 || phase == 1)
    ensures cq[head].phase != phase
  {
  }

  /** A completion at the tail keeps the ring tagged, on the next lap with the tags exchanged. */
  lemma PostKeepsTagged(cq: seq<Completion>, head: nat, phase: nat, done: Completion)
    requires head < |cq| && Tagged(cq, head, phase) && done.phase == phase && (phase == 0 || phase == 1)
    ensures var h := Next(head, |cq|); Tagged(cq[head := done], h, if h == 0 then 1 - phase else phase)
  {
  }

  /** The block sizes the range operations work with. */
  predicate DividesPage(lbaBytes: nat) {
    lbaBytes != 0 && PageRemainder(lbaBytes) == 0
  }

  function PageRemainder(lbaBytes: nat): nat
    requires lbaBytes != 0
  {
    4096 % lbaBytes
  }

  function BlocksPerPage(lbaBytes: nat): nat
    requires lbaBytes != 0
  {
    4096 / lbaBytes
  }

  lemma BlocksFillPage(lbaBytes: nat, page: nat)
    requires DividesPage(lbaBytes)
    ensures var bpp := BlocksPerPage(lbaBytes);
            1 <= bpp <= 4096 && bpp * lbaBytes == 4096 && page * bpp * lbaBytes == page * 4096
  {
    var bpp := 4096 / lbaBytes;
    assert 4096 == lbaBytes * bpp + 4096 % lbaBytes;
    assert page * bpp * lbaBytes == page * (bpp * lbaBytes);
  }

  /** The effect of a data command on the whole page at byte `base`, none when it ends past the medium. */
  function OnPage(opcode: Opcode, base: nat, m: Media): (r: Media)
    requires opcode != Flush && |m.page| == 4096
    ensures |r.disk| == |m.disk| && |r.page| == 4096
  {
    if base + 4096 > |m.disk| then m
    else if opcode == ReadPages then m.(page := m.disk[base..base + 4096])
    else m.(disk := Overlay(m.disk, base, if opcode == WritePages then m.page else Zeros(4096)))
  }

  lemma ExecutedOnPage(c: Command, lbaBytes: nat, m: Media)
    requires c.opcode != Flush && (c.lastBlock + 1) * lbaBytes == 4096 == |m.page|
    ensures Executed(c, lbaBytes, m) == OnPage(c.opcode, ByteOf(c.lba, lbaBytes), m)
    ensures Accepts(c, lbaBytes, m) <==> ByteOf(c.lba, lbaBytes) + 4096 <= |m.disk|
  {
    hide Overlay, Zeros;
    var base := ByteOf(c.lba, lbaBytes);
    if base + 4096 <= |m.disk| {
      WholeOverlay(m.page, m.disk[base..base + 4096]);
      WholeOverlay(m.page, m.page);
    }
  }

  /** Reading a page, changing part of it and writing it back changes just that part of the medium. */
  lemma ReadModifyWrite(d: seq<Byte>, base: nat, at: nat, bytes: seq<Byte>)
    requires base + 4096 <= |d| && at + |bytes| <= 4096
    ensures Overlay(d, base, Overlay(d[base..base + 4096], at, bytes)) == Overlay(d, base + at, bytes)
  {
    var page := Overlay(d[base..base + 4096], at, bytes);
    hide Overlay;
    OverlayAt(d[base..base + 4096], at, bytes);
    OverlayAt(d, base, page);
    OverlayAt(d, base + at, bytes);
  }

  /** `bytes` lie at `base` of the medium, or the device has failed and nothing changed outside `from` to `to`. */
  ghost predicate Written(base: nat, before: seq<Byte>, after: seq<Byte>, bytes: seq<Byte>, from: nat, to: nat,
                          r: Result<(), NvmeError>) {
    if r.Ok? then base + |bytes| <= |before| && after == Overlay(before, base, bytes)
    else DeviceFails(r.error) && SameOutside(before, after, from, to)
  }

  /** The first `done` of `bytes` have reached the medium from `from` on. */
  ghost predicate Progress(before: seq<Byte>, now: seq<Byte>, from: nat, bytes: seq<Byte>, done: nat) {
    from + |bytes| <= |before| && done <= |bytes| && now == Overlay(before, from, bytes[..done])
  }

  lemma ProgressEnds(before: seq<Byte>, now: seq<Byte>, from: nat, bytes: seq<Byte>)
    requires from + |bytes| <= |before|
    ensures Progress(before, before, from, bytes, 0)
    ensures Progress(before, now, from, bytes, |bytes|) <==> now == Overlay(before, from, bytes)
  {
    assert bytes[..|bytes|] == bytes;
  }

  /** One more write of a range carries it on, or leaves everything outside the pages of the range alone. */
  lemma ProgressStep(before: seq<Byte>, now: seq<Byte>, next: seq<Byte>, from: nat, bytes: seq<Byte>, done: nat, n: nat,
                     r: Result<(), NvmeError>)
    requires Progress(before, now, from, bytes, done) && 0 < n && done + n <= |bytes|
    requires Written(from + done, now, next, bytes[done..done + n], PageStart(from + done),
                     PageStart(from + done) + 4096, r)
    ensures if r.Ok? then Progress(before, next, from, bytes, done + n)
            else DeviceFails(r.error) && SameOutside(before, next, PageStart(from), PageEnd(from + |bytes|))
  {
    hide Overlay, PageStart, PageEnd;
    PagesCover(from, from + done, from + |bytes|);
    OverlayAt(before, from, bytes[..done]);
    if r.Ok? {
      OverlayAt(before, from, bytes[..done + n]);
      OverlayAppend(before, from, bytes[..done], bytes[done..done + n]);
      assert bytes[..done] + bytes[done..done + n] == bytes[..done + n];
    }
  }

  /** The pages a range lies in. */
  function PageStart(offset: nat): (base: nat)
    ensures base <= offset < base + 4096
  {
    offset - InPage(offset)
  }

  function PageEnd(to: nat): nat {
    PageStart(to + 4095)
  }

  lemma PagesCover(from: nat, k: nat, to: nat)
    requires from <= k < to
    ensures PageStart(from) <= PageStart(k) && PageStart(k) + 4096 <= PageEnd(to)
    ensures PageStart(from) <= from && to <= PageEnd(to)
  {
    assert PageStart(k) == k / 4096 * 4096 && PageEnd(to) == (to + 4095) / 4096 * 4096;
  }

  /** The position of a byte within its page. */
  function InPage(offset: nat): (at: nat)
    ensures at < 4096
  {
    offset % 4096
  }

  /** The first block of the page that holds byte `offset`. */
  function PageLba(offset: nat, lbaBytes: nat): (lba: nat)
    requires DividesPage(lbaBytes)
    ensures ByteOf(lba, lbaBytes) == offset - InPage(offset)
  {
    BlocksFillPage(lbaBytes, offset / 4096);
    offset / 4096 * (BlocksPerPage(lbaBytes))
  }

  lemma PageInside(offset: nat, size: nat)
    requires offset < size && size % 4096 == 0
    ensures offset - InPage(offset) + 4096 <= size
  {
  }

  class NvmeController {
    const device: Device
    var lbaBytes: nat
    var namespaceBytes: nat
    var ioTail: nat
    var ioHead: nat
    var ioPhase: nat
    var nextCid: nat

    constructor (device: Device)
      requires device.Wired() && |device.disk| < U64_LIMIT && |device.disk| % 4096 == 0
      requires device.sqDoorbell == device.cqDoorbell == device.sqHead == device.cqTail == 0 && device.phase == 1
      requires Tagged(device.cq[..], 0, 1)
      ensures Idle() && this.device == device
    {
      this.device := device;
      lbaBytes, namespaceBytes := device.lbaBytes, |device.disk|;
      ioTail, ioHead, ioPhase, nextCid := 0, 0, 1, 1;
    }

    /** Host and device agree on the ring, and nothing is outstanding. */
    ghost predicate Idle()
      reads this, device, device.cq
    {
      && Linked() && ioTail == device.sqHead == device.sqDoorbell && Answered()
    }

    ghost predicate Linked()
      reads this, device
    {
      && device.Wired() && 1 <= nextCid < 0x1_0000
      && lbaBytes == device.lbaBytes && namespaceBytes == |device.disk| && |device.disk| < U64_LIMIT
      && namespaceBytes % 4096 == 0
    }

    /** Every completion posted so far has been consumed. */
    ghost predicate Answered()
      reads this, device, device.cq
    {
      && ioHead == device.cqTail == device.cqDoorbell && ioPhase == device.phase
      && ioHead < device.cq.Length && Tagged(device.cq[..], ioHead, ioPhase)
    }

    /** Exactly one command, the one before the tail, has been rung in and not carried out. */
    ghost predicate Outstanding()
      reads this, device, device.cq
    {
      Linked() && Answered() && ioTail == device.sqDoorbell == Next(device.sqHead, device.depth)
    }

    ghost function Contents(): Media
      reads this, device, device.page
    {
      device.Contents()
    }

    /**
     Spins until an entry carries the host's phase. It gives up exactly when the device does not answer before the last
     spin; an answer is the answer to the outstanding command, and consuming it leaves the ring idle.
     */
    method WaitCq(cid: nat) returns (r: Result<(), NvmeError>)
      requires Outstanding()
      modifies this`ioHead, this`ioPhase, device, device.page, device.cq
      ensures |Contents().disk| == |old(Contents()).disk| && device.served == old(device.served) + 1
      ensures var c, re := device.sq[old(device.sqHead)], device.plan(old(device.served));
              var status := StatusOf(c, lbaBytes, old(Contents()), re.fault);
              && r == (if re.spin >= WAIT_SPINS then Err(Timeout)
                       else if c.cid != cid then Err(Invalid)
                       else if status != 0 then Err(Status(status))
                       else Ok(()))
              && Contents() == (if re.spin < WAIT_SPINS || re.early then Left(c, lbaBytes, old(Contents()), re.fault)
                                else old(Contents()))
              && (r != Err(Timeout) ==> Idle())
              && Torn(c, lbaBytes, old(Contents()), Contents())
    {
      hide Executed, Accepts, Tagged, Torn, Left;
      ExecutedIsTorn(device.sq[device.sqHead], lbaBytes, Contents());
      ghost var was := device.cq[..];
      var reaction := device.plan(device.served);
      device.served := device.served + 1;
      var spins := 0;
      while spins < WAIT_SPINS
        invariant spins <= WAIT_SPINS && spins <= reaction.spin && Outstanding()
        invariant device.sqHead == old(device.sqHead) && Contents() == old(Contents()) && device.cq[..] == was
        invariant ioHead == old(ioHead) && ioPhase == old(ioPhase) && device.served == old(device.served) + 1
      {
        if spins == reaction.spin {
          device.Execute(reaction.fault);
        }
        var entry := device.cq[ioHead];
        OtherTagAtHead(was, ioHead, ioPhase);
        if entry.phase == ioPhase {
          PostKeepsTagged(was, ioHead, ioPhase, entry);
          ioHead := ioHead + 1;
          if ioHead >= device.depth {
            ioHead, ioPhase := 0, 1 - ioPhase;
          }
          device.cqDoorbell := ioHead;
          if entry.cid != cid {
            return Err(Invalid);
          }
          if entry.status != 0 {
            return Err(Status(entry.status));
          }
          return Ok(());
        }
        spins := spins + 1;
      }
      if reaction.early {
        device.Act(reaction.fault);
      }
      return Err(Timeout);
    }

    /** The device was given `c` when it had served `served` commands, and `r` is what it made of it. */
    ghost predicate Done(c: Command, before: Media, served: nat, r: Result<(), NvmeError>)
      reads this, device, device.page, device.cq
    {
      var re := device.plan(served);
      && device.served == served + 1
      && r == (if Good(re) && !Accepts(c, lbaBytes, before) then Err(Status(LBA_OUT_OF_RANGE)) else ReplyTo(re))
      && (r != Err(Timeout) ==> Idle())
      && (if r.Ok? then Contents() == Executed(c, lbaBytes, before) else Torn(c, lbaBytes, before, Contents()))
    }

    /** Writes a command at the tail, rings the doorbell and waits for its completion. */
    method Submit(opcode: Opcode, lba: nat, lastBlock: nat) returns (r: Result<(), NvmeError>)
      requires Idle()
      modifies this`ioHead, this`ioPhase, this`ioTail, this`nextCid, device, device.page, device.cq, device.sq
      ensures lbaBytes == old(lbaBytes)
      ensures Done(Command(opcode, old(nextCid), lba, lastBlock), old(Contents()), old(device.served), r)
      ensures nextCid == if r.Ok? then Max((old(nextCid) + 1) % 0x1_0000, 1) else old(nextCid)
    {
      hide Executed, Accepts, Tagged, Torn;
      NextIsModulo(ioTail, device.depth);
      var cid := nextCid;
      device.sq[ioTail] := Command(opcode, cid, lba, lastBlock);
      assert device.cq[..] == old(device.cq[..]);
      ioTail := (ioTail + 1) % device.depth;
      device.sqDoorbell := ioTail;
      r := WaitCq(cid);
      if r.Ok? {
        nextCid := Max((nextCid + 1) % 0x1_0000, 1);
      }
    }

    method IoTransfer(opcode: Opcode, lba: nat, count: nat, read: bool) returns (r: Result<(), NvmeError>)
      requires Idle()
      modifies this`ioHead, this`ioPhase, this`ioTail, this`nextCid, device, device.page, device.cq, device.sq
      ensures lbaBytes == old(lbaBytes)
      ensures if count == 0 then
                r == Err(Invalid) && Idle() && Contents() == old(Contents()) && device.served == old(device.served)
              else
                var before := old(Contents()).(page := if read then Zeros(4096) else old(Contents()).page);
                Done(Command(opcode, old(nextCid), lba, count - 1), before, old(device.served), r)
    {
      if count == 0 {
        return Err(Invalid);
      }
      if read {
        forall k | 0 <= k < 4096 {
          device.page[k] := 0;
        }
        assert device.page[..] == Zeros(4096);
      }
      assert device.cq[..] == old(device.cq[..]);
      r := Submit(opcode, lba, count - 1);
    }

    method FlushCache() returns (r: Result<(), NvmeError>)
      requires Idle()
      modifies this`ioHead, this`ioPhase, this`ioTail, this`nextCid, device, device.page, device.cq, device.sq
      ensures Contents() == old(Contents()) && (r == Err(Timeout) || Idle())
      ensures device.served == old(device.served) + 1 && r == ReplyTo(device.plan(old(device.served)))
    {
      r := Submit(Flush, 0, 0);
    }

    /** Reads the page at block `lba` into `out`. */
    method Read4K(lba: nat, out: array<Byte>) returns (r: Result<(), NvmeError>)
      requires Idle() && out.Length == 4096 && out != device.page
      modifies this`ioHead, this`ioPhase, this`ioTail, this`nextCid, device, device.page, device.cq, device.sq, out
      ensures lbaBytes == old(lbaBytes) && device.disk == old(device.disk)
      ensures r == Err(Timeout) || Idle()
      ensures !DividesPage(lbaBytes) ==> r == Err(Invalid)
      ensures DividesPage(lbaBytes) ==>
                var inside, re := ByteOf(lba, lbaBytes) + 4096 <= |device.disk|, device.plan(old(device.served));
                && device.served == old(device.served) + 1
                && r == if Good(re) && !inside then Err(Status(LBA_OUT_OF_RANGE)) else ReplyTo(re)
      ensures r.Ok? ==> ByteOf(lba, lbaBytes) + 4096 <= |device.disk|
      ensures r.Ok? ==> out[..] == device.disk[ByteOf(lba, lbaBytes)..ByteOf(lba, lbaBytes) + 4096]
    {
      if !DividesPage(lbaBytes) {
        return Err(Invalid);
      }
      BlocksFillPage(lbaBytes, 0);
      ExecutedOnPage(Command(ReadPages, nextCid, lba, BlocksPerPage(lbaBytes) - 1), lbaBytes,
                     Contents().(page := Zeros(4096)));
      r := IoTransfer(ReadPages, lba, BlocksPerPage(lbaBytes), true);
      if r.Ok? {
        forall k | 0 <= k < 4096 {
          out[k] := device.page[k];
        }
        assert out[..] == device.page[..];
      }
    }

    /** Writes `input` over the page at block `lba`. */
    method Write4K(lba: nat, input: array<Byte>) returns (r: Result<(), NvmeError>)
      requires Idle() && input.Length == 4096 && input != device.page
      modifies this`ioHead, this`ioPhase, this`ioTail, this`nextCid, device, device.page, device.cq, device.sq
      ensures lbaBytes == old(lbaBytes)
      ensures r == Err(Timeout) || Idle()
      ensures !DividesPage(lbaBytes) ==> r == Err(Invalid) && device.disk == old(device.disk)
      ensures DividesPage(lbaBytes) ==>
                var base, re := ByteOf(lba, lbaBytes), device.plan(old(device.served));
                && device.served == old(device.served) + 1
                && r == (if Good(re) && base + 4096 > |device.disk| then Err(Status(LBA_OUT_OF_RANGE)) else ReplyTo(re))
                && Written(base, old(device.disk), device.disk, input[..], base, base + 4096, r)
    {
      if !DividesPage(lbaBytes) {
        return Err(Invalid);
      }
      BlocksFillPage(lbaBytes, 0);
      forall k | 0 <= k < 4096 {
        device.page[k] := input[k];
      }
      assert device.page[..] == input[..];
      assert device.cq[..] == old(device.cq[..]);
      ExecutedOnPage(Command(WritePages, nextCid, lba, BlocksPerPage(lbaBytes) - 1), lbaBytes, Contents());
      r := IoTransfer(WritePages, lba, BlocksPerPage(lbaBytes), false);
    }

    method WriteZeroesAt(lba: nat, count: nat) returns (r: Result<(), NvmeError>)
      requires Idle()
      modifies this`ioHead, this`ioPhase, this`ioTail, this`nextCid, device, device.page, device.cq, device.sq
      ensures lbaBytes == old(lbaBytes)
      ensures r == Err(Timeout) || Idle()
      ensures count == 0 ==> r == Err(Invalid) && device.disk == old(device.disk)
      ensures count > 0 ==>
                var base, re := ByteOf(lba, lbaBytes), device.plan(old(device.served));
                && device.served == old(device.served) + 1
                && r == (if Good(re) && base + count * lbaBytes > |device.disk| then Err(Status(LBA_OUT_OF_RANGE))
                         else ReplyTo(re))
                && Written(base, old(device.disk), device.disk, Zeros(count * lbaBytes), base, base + count * lbaBytes,
                           r)
    {
      if count == 0 {
        return Err(Invalid);
      }
      r := Submit(WriteZeroes, lba, count - 1);
    }

    /** One page of a range read: `n` bytes at `offset` into `buf` at `dst`. */
    method ReadPart(offset: nat, page: array<Byte>, buf: array<Byte>, dst: nat, n: nat)
      returns (r: Result<(), NvmeError>)
      requires Idle() && DividesPage(lbaBytes) && offset < namespaceBytes && InPage(offset) + n <= 4096
      requires page.Length == 4096 && page != device.page && buf != device.page && buf != page && dst + n <= buf.Length
      modifies this`ioHead, this`ioPhase, this`ioTail, this`nextCid, device, device.page, device.cq, device.sq, page,
               buf
      ensures lbaBytes == old(lbaBytes) && namespaceBytes == |device.disk| && device.disk == old(device.disk)
      ensures if r.Ok? then offset + n <= |device.disk| && Idle()
              && buf[..] == Overlay(old(buf[..]), dst, device.disk[offset..offset + n])
              else DeviceFails(r.error) && (r == Err(Timeout) || Idle())
      ensures Reported(device.plan, old(device.served), device.served, r)
    {
      ReportedOnce(device.plan, device.served);
      PageInside(offset, |device.disk|);
      hide InPage, PageLba, PageRemainder, BlocksPerPage, ByteOf, Overlay, Tagged;
      r := Read4K(PageLba(offset, lbaBytes), page);
      if r.Ok? {
        Patch(buf, dst, page, InPage(offset), n);
        SliceOfSlice(device.disk, offset - InPage(offset), InPage(offset), n);
      }
    }

    /** One page of a range write: `n` bytes of `buf` from `src` to `offset`, around what the page already holds. */
    method WritePart(offset: nat, page: array<Byte>, buf: array<Byte>, src: nat, n: nat)
      returns (r: Result<(), NvmeError>)
      requires Idle() && DividesPage(lbaBytes) && offset < namespaceBytes && InPage(offset) + n <= 4096
      requires page.Length == 4096 && page != device.page && buf != device.page && buf != page && src + n <= buf.Length
      modifies this`ioHead, this`ioPhase, this`ioTail, this`nextCid, device, device.page, device.cq, device.sq, page
      ensures lbaBytes == old(lbaBytes) && (r == Err(Timeout) || Idle())
      ensures offset + n <= |old(device.disk)|
      ensures Written(offset, old(device.disk), device.disk, buf[..][src..src + n], PageStart(offset),
                      PageStart(offset) + 4096, r)
      ensures Reported(device.plan, old(device.served), device.served, r)
    {
      ReportedOnce(device.plan, device.served);
      PageInside(offset, |device.disk|);
      hide InPage, PageLba, PageRemainder, BlocksPerPage, ByteOf, Tagged;
      var at, lba := InPage(offset), PageLba(offset, lbaBytes);
      ghost var base, before, bytes := offset - at, device.disk, buf[..][src..src + n];
      assert bytes == buf[src..src + n];
      if at == 0 && n == 4096 {
        Patch(page, 0, buf, src, n);
        WholeOverlay(before[base..base + 4096], bytes);
        WholeOverlay(old(page[..]), bytes);
      } else {
        r := Read4K(lba, page);
        if r.Err? {
          return;
        }
        Patch(page, at, buf, src, n);
      }
      ReadModifyWrite(before, base, at, bytes);
      hide Overlay;
      ReportedOnce(device.plan, device.served);
      r := Write4K(lba, page);
    }

    /** Copies `buf[src..src + n]` into `page` at `at`. */
    static method Patch(page: array<Byte>, at: nat, buf: array<Byte>, src: nat, n: nat)
      requires page != buf && at + n <= page.Length && src + n <= buf.Length
      modifies page
      ensures page[..] == Overlay(old(page[..]), at, buf[src..src + n])
    {
      forall k | 0 <= k < n {
        page[at + k] := buf[src + k];
      }
    }

    static method Clear(page: array<Byte>, at: nat, n: nat)
      requires at + n <= page.Length
      modifies page
      ensures page[..] == Overlay(old(page[..]), at, Zeros(n))
    {
      forall k | at <= k < at + n {
        page[k] := 0;
      }
    }

    ghost predicate RangeWritten(from: U64, bytes: seq<Byte>, before: seq<Byte>, r: Result<(), NvmeError>)
      reads this, device
    {
      if !DividesPage(lbaBytes) then r == Err(Invalid) && device.disk == before
      else if |bytes| > 0 && from + |bytes| > |before| then r == Err(OutOfRange) && device.disk == before
      else if r.Ok? then
        if |bytes| == 0 then device.disk == before
        else from + |bytes| <= |before| && device.disk == Overlay(before, from, bytes)
      else DeviceFails(r.error) && SameOutside(before, device.disk, PageStart(from), PageEnd(from + |bytes|))
    }

    /** Reads any byte range of the medium. */
    method ReadRange(byteOffset: U64, buf: array<Byte>) returns (r: Result<(), NvmeError>)
      requires Idle() && buf != device.page
      modifies this`ioHead, this`ioPhase, this`ioTail, this`nextCid, device, device.page, device.cq, device.sq, buf
      ensures device.disk == old(device.disk) && (r == Err(Timeout) || Idle())
      ensures if !DividesPage(lbaBytes) then r == Err(Invalid) && buf[..] == old(buf[..])
              else if buf.Length > 0 && byteOffset + buf.Length > |device.disk| then
                r == Err(OutOfRange) && buf[..] == old(buf[..])
              else
                && (buf.Length > 0 ==> Reported(device.plan, old(device.served), device.served, r))
                && (AlwaysGood(device.plan) ==> r.Ok?) && (r.Err? ==> DeviceFails(r.error))
                && (r.Ok? && buf.Length > 0 ==> buf[..] == device.disk[byteOffset..byteOffset + buf.Length])
    {
      if !DividesPage(lbaBytes) {
        return Err(Invalid);
      }
      if buf.Length == 0 {
        return Ok(());
      }
      if byteOffset + buf.Length >= U64_LIMIT {
        return Err(OutOfRange);
      }
      if byteOffset + buf.Length > namespaceBytes {
        return Err(OutOfRange);
      }
      r := ReadLoop(byteOffset, buf);
      GoodIsReported(device.plan, old(device.served), device.served, r);
    }

    method ReadLoop(byteOffset: U64, buf: array<Byte>) returns (r: Result<(), NvmeError>)
      requires Idle() && DividesPage(lbaBytes) && buf != device.page && byteOffset + buf.Length <= namespaceBytes
      modifies this`ioHead, this`ioPhase, this`ioTail, this`nextCid, device, device.page, device.cq, device.sq, buf
      ensures lbaBytes == old(lbaBytes) && namespaceBytes == |device.disk| && device.disk == old(device.disk)
      ensures if r.Ok? then Idle() && buf[..] == device.disk[byteOffset..byteOffset + buf.Length]
              else DeviceFails(r.error) && (r == Err(Timeout) || Idle())
      ensures Reported(device.plan, old(device.served), device.served, r)
    {
      hide Idle, InPage, DividesPage;
      IdleSize();
      var offset: nat, dst: nat, remaining: nat := byteOffset, 0, buf.Length;
      var page := new Byte[4096];
      ReportedOnce(device.plan, device.served);
      while remaining > 0
        invariant Reported(device.plan, old(device.served), device.served, Ok(()))
        invariant Idle() && lbaBytes == old(lbaBytes) && device.disk == old(device.disk)
        invariant offset == byteOffset + dst && dst + remaining == buf.Length && offset + remaining <= namespaceBytes
        invariant buf[..dst] == device.disk[byteOffset..offset]
      {
        var n := Min(4096 - InPage(offset), remaining);
        ghost var served := device.served;
        r := ReadPart(offset, page, buf, dst, n);
        ReportedTwice(device.plan, old(device.served), served, device.served, r);
        if r.Err? {
          return;
        }
        offset, dst, remaining := offset + n, dst + n, remaining - n;
      }
      assert buf[..] == buf[..dst];
      return Ok(());
    }

    /** Writes any byte range of the medium, reading, changing and writing back the pages it covers in part. */
    method WriteRange(byteOffset: U64, buf: array<Byte>) returns (r: Result<(), NvmeError>)
      requires Idle() && buf != device.page
      modifies this`ioHead, this`ioPhase, this`ioTail, this`nextCid, device, device.page, device.cq, device.sq
      ensures r == Err(Timeout) || Idle()
      ensures RangeWritten(byteOffset, buf[..], old(device.disk), r)
      ensures DividesPage(lbaBytes) && 0 < buf.Length && byteOffset + buf.Length <= |old(device.disk)| ==>
                && Reported(device.plan, old(device.served), device.served, r)
                && (AlwaysGood(device.plan) ==> r.Ok?)
    {
      if !DividesPage(lbaBytes) {
        return Err(Invalid);
      }
      if buf.Length == 0 {
        return Ok(());
      }
      if byteOffset + buf.Length >= U64_LIMIT {
        return Err(OutOfRange);
      }
      if byteOffset + buf.Length > namespaceBytes {
        return Err(OutOfRange);
      }
      r := WriteLoop(byteOffset, buf);
      GoodIsReported(device.plan, old(device.served), device.served, r);
    }

    lemma IdleSize()
      requires Idle()
      ensures namespaceBytes == |device.disk| < U64_LIMIT
    {
    }

    method WriteLoop(byteOffset: U64, buf: array<Byte>) returns (r: Result<(), NvmeError>)
      requires Idle() && DividesPage(lbaBytes) && buf != device.page && byteOffset + buf.Length <= namespaceBytes
      modifies this`ioHead, this`ioPhase, this`ioTail, this`nextCid, device, device.page, device.cq, device.sq
      ensures lbaBytes == old(lbaBytes)
      ensures if r.Ok? then Idle() && device.disk == Overlay(old(device.disk), byteOffset, buf[..])
              else
                && DeviceFails(r.error) && (r == Err(Timeout) || Idle())
                && SameOutside(old(device.disk), device.disk, PageStart(byteOffset), PageEnd(byteOffset + buf.Length))
      ensures Reported(device.plan, old(device.served), device.served, r)
    {
      hide Idle, Overlay, InPage, DividesPage, Progress, Written, SameOutside;
      IdleSize();
      var offset: nat, src: nat, remaining: nat := byteOffset, 0, buf.Length;
      ghost var before, bytes := device.disk, buf[..];
      ProgressEnds(before, before, byteOffset, bytes);
      var page := new Byte[4096];
      assert buf[..] == bytes;
      ReportedOnce(device.plan, device.served);
      while remaining > 0
        invariant Reported(device.plan, old(device.served), device.served, Ok(()))
        invariant Idle() && lbaBytes == old(lbaBytes)
        invariant buf[..] == bytes
        invariant offset == byteOffset + src && src + remaining == |bytes| && offset + remaining <= namespaceBytes
        invariant Progress(before, device.disk, byteOffset, bytes, src)
      {
        var n := Min(4096 - InPage(offset), remaining);
        ghost var now, served := device.disk, device.served;
        r := WritePart(offset, page, buf, src, n);
        ReportedTwice(device.plan, old(device.served), served, device.served, r);
        ProgressStep(before, now, device.disk, byteOffset, bytes, src, n, r);
        if r.Err? {
          return;
        }
        offset, src, remaining := offset + n, src + n, remaining - n;
      }
      ProgressEnds(before, device.disk, byteOffset, bytes);
      return Ok(());
    }

    /** One step of a range wipe at `offset`: a whole page by command, less than a page by rewriting it. */
    method ZeroPart(offset: nat, n: nat) returns (r: Result<(), NvmeError>)
      requires Idle() && DividesPage(lbaBytes) && offset < namespaceBytes && InPage(offset) + n <= 4096
      modifies this`ioHead, this`ioPhase, this`ioTail, this`nextCid, device, device.page, device.cq, device.sq
      ensures lbaBytes == old(lbaBytes) && (r == Err(Timeout) || Idle())
      ensures offset + n <= |old(device.disk)|
      ensures Written(offset, old(device.disk), device.disk, Zeros(n), PageStart(offset), PageStart(offset) + 4096, r)
      ensures Reported(device.plan, old(device.served), device.served, r)
    {
      ReportedOnce(device.plan, device.served);
      PageInside(offset, |device.disk|);
      BlocksFillPage(lbaBytes, 0);
      var at, lba, bpp := InPage(offset), PageLba(offset, lbaBytes), BlocksPerPage(lbaBytes);
      hide InPage, PageLba, PageRemainder, BlocksPerPage, ByteOf, Tagged;
      if at == 0 && n == 4096 {
        r := WriteZeroesAt(lba, bpp);
      } else {
        r := ZeroWithin(lba, at, n);
      }
    }

    /** Zeroes `n` bytes at `at` of the page at block `lba`. */
    method ZeroWithin(lba: nat, at: nat, n: nat) returns (r: Result<(), NvmeError>)
      requires Idle() && DividesPage(lbaBytes) && at + n <= 4096 && ByteOf(lba, lbaBytes) + 4096 <= |device.disk|
      modifies this`ioHead, this`ioPhase, this`ioTail, this`nextCid, device, device.page, device.cq, device.sq
      ensures lbaBytes == old(lbaBytes) && (r == Err(Timeout) || Idle())
      ensures var base := ByteOf(lba, lbaBytes);
              Written(base + at, old(device.disk), device.disk, Zeros(n), base, base + 4096, r)
      ensures Reported(device.plan, old(device.served), device.served, r)
    {
      ReportedOnce(device.plan, device.served);
      hide PageRemainder, ByteOf, Tagged;
      ghost var base, before := ByteOf(lba, lbaBytes), device.disk;
      var page := new Byte[4096];
      r := Read4K(lba, page);
      if r.Err? {
        return;
      }
      Clear(page, at, n);
      ReadModifyWrite(before, base, at, Zeros(n));
      hide Overlay, Zeros;
      ReportedOnce(device.plan, device.served);
      r := Write4K(lba, page);
    }

    /** Zeroes any byte range of the medium. */
    method ZeroRange(byteOffset: U64, length: U64) returns (r: Result<(), NvmeError>)
      requires Idle()
      modifies this`ioHead, this`ioPhase, this`ioTail, this`nextCid, device, device.page, device.cq, device.sq
      ensures r == Err(Timeout) || Idle()
      ensures if length == 0 then r.Ok? && device.disk == old(device.disk)
              else if byteOffset + length > |old(device.disk)| then
                r == Err(OutOfRange) && device.disk == old(device.disk)
              else RangeWritten(byteOffset, Zeros(length), old(device.disk), r)
      ensures DividesPage(lbaBytes) && 0 < length && byteOffset + length <= |old(device.disk)| ==>
                && Reported(device.plan, old(device.served), device.served, r)
                && (AlwaysGood(device.plan) ==> r.Ok?)
    {
      if length == 0 {
        return Ok(());
      }
      if byteOffset + length >= U64_LIMIT {
        return Err(OutOfRange);
      }
      if byteOffset + length > namespaceBytes {
        return Err(OutOfRange);
      }
      if !DividesPage(lbaBytes) {
        return Err(Invalid);
      }
      r := ZeroLoop(byteOffset, length);
      GoodIsReported(device.plan, old(device.served), device.served, r);
    }

    method ZeroLoop(byteOffset: U64, length: U64) returns (r: Result<(), NvmeError>)
      requires Idle() && DividesPage(lbaBytes) && byteOffset + length <= namespaceBytes
      modifies this`ioHead, this`ioPhase, this`ioTail, this`nextCid, device, device.page, device.cq, device.sq
      ensures lbaBytes == old(lbaBytes)
      ensures if r.Ok? then Idle() && device.disk == Overlay(old(device.disk), byteOffset, Zeros(length))
              else
                && DeviceFails(r.error) && (r == Err(Timeout) || Idle())
                && SameOutside(old(device.disk), device.disk, PageStart(byteOffset), PageEnd(byteOffset + length))
      ensures Reported(device.plan, old(device.served), device.served, r)
    {
      hide Idle, Overlay, InPage, DividesPage, Progress, Written, SameOutside, Zeros;
      IdleSize();
      var offset: nat, remaining: nat := byteOffset, length;
      ghost var before, bytes, done: nat := device.disk, Zeros(length), 0;
      ProgressEnds(before, before, byteOffset, bytes);
      ReportedOnce(device.plan, device.served);
      while remaining > 0
        invariant Reported(device.plan, old(device.served), device.served, Ok(()))
        invariant Idle() && lbaBytes == old(lbaBytes)
        invariant offset == byteOffset + done && done + remaining == length && offset + remaining <= namespaceBytes
        invariant Progress(before, device.disk, byteOffset, bytes, done)
      {
        var n := Min(4096 - InPage(offset), remaining);
        ghost var now, served := device.disk, device.served;
        r := ZeroPart(offset, n);
        ReportedTwice(device.plan, old(device.served), served, device.served, r);
        ZerosSlice(length, done, n);
        ProgressStep(before, now, device.disk, byteOffset, bytes, done, n, r);
        if r.Err? {
          return;
        }
        offset, done, remaining := offset + n, done + n, remaining - n;
      }
      ProgressEnds(before, device.disk, byteOffset, bytes);
      return Ok(());
    }
  }

  /** What was written is read back through the driver. */
  method WriteThenRead(nvme: NvmeController, byteOffset: U64, input: array<Byte>, output: array<Byte>)
    returns (r: Result<(), NvmeError>)
    requires nvme.Idle() && input != nvme.device.page && output != nvme.device.page && input != output
    requires 0 < input.Length == output.Length
    modifies nvme`ioHead, nvme`ioPhase, nvme`ioTail, nvme`nextCid, nvme.device, nvme.device.page, nvme.device.cq,
             nvme.device.sq
    modifies output
    ensures r.Ok? ==> nvme.Idle() && output[..] == input[..]
    ensures r.Ok? ==>
              && byteOffset + input.Length <= |old(nvme.device.disk)|
              && nvme.device.disk == Overlay(old(nvme.device.disk), byteOffset, input[..])
    ensures var inside := byteOffset + input.Length <= |old(nvme.device.disk)|;
            AlwaysGood(nvme.device.plan) && DividesPage(old(nvme.lbaBytes)) && inside ==> r.Ok?
  {
    hide NvmeController.Idle, Overlay, PageRemainder;
    ghost var before := nvme.device.disk;
    r := nvme.WriteRange(byteOffset, input);
    if r.Err? {
      return;
    }
    assert byteOffset + input.Length <= |before|;
    ReadBack(before, byteOffset, input[..], 0, 0);
    r := nvme.ReadRange(byteOffset, output);
  }
}
