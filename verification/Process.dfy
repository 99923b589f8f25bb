/** Fork, child exit and wait4 (kernel/src/process.rs), with the process state they save and restore. */
module Process {
  import opened Prelude
  import opened PageTables
  import opened FrameAllocation
  import opened Paging
  import opened PagingRuns
  import opened CloneSpace
  import opened ForkIsolation

  const MAX_CHILDREN: nat := 16

  datatype Errno = EAGAIN | ENOMEM | ECHILD | EFAULT

  /** The kernel's record of the running process. `others` are the fields fork and exit never name. */
  datatype ProcessState = ProcessState(
    pid: U64, nextMmap: U64, signalMask: U64, pendingSignals: U64, exitRequested: bool, exitCode: int, others: seq<nat>)

  datatype ChildEntry = ChildEntry(used: bool, pid: U64, status: nat)

  const EMPTY_ENTRY := ChildEntry(false, 0, 0)

  /** The wait status of a normal exit: no signal in the low byte, and the low byte of the code in the next. */
  function ExitStatus(code: U64): (status: nat)
    ensures status % 256 == 0 && status / 256 % 256 == code % 256 && status < 0x1_0000
  {
    code % 256 * 256
  }

  predicate Waitable(e: ChildEntry, requested: int) {
    e.used && (requested <= 0 || e.pid == requested)
  }

  /** The first slot with no entry, or the length of the table. */
  function FirstUnused(table: seq<ChildEntry>): (k: nat)
    ensures k <= |table| && (forall j :: 0 <= j < k ==> table[j].used) && (k < |table| ==> !table[k].used)
  {
    if table == [] || !table[0].used then 0
    else
      var rest := table[1..];
      assert forall j :: 0 < j < |table| ==> table[j] == rest[j - 1];
      1 + FirstUnused(rest)
  }

  /** The first entry that answers a wait, or the length of the table. */
  function FirstWaitable(table: seq<ChildEntry>, requested: int): (k: nat)
    ensures k <= |table| && (forall j :: 0 <= j < k ==> !Waitable(table[j], requested))
    ensures k < |table| ==> Waitable(table[k], requested)
  {
    if table == [] || Waitable(table[0], requested) then 0
    else
      var rest := table[1..];
      assert forall j :: 0 < j < |table| ==> table[j] == rest[j - 1];
      1 + FirstWaitable(rest, requested)
  }

  /** An exited child takes the first unused slot; with all slots taken it is dropped. */
  function Pushed(table: seq<ChildEntry>, pid: U64, status: nat): seq<ChildEntry> {
    var k := FirstUnused(table);
    if k < |table| then table[k := ChildEntry(true, pid, status)] else table
  }

  function Taken(table: seq<ChildEntry>, requested: int): seq<ChildEntry> {
    var k := FirstWaitable(table, requested);
    if k < |table| then table[k := EMPTY_ENTRY] else table
  }

  /** Pids grow and are never reused: each is running, in one slot of the table, or waited for, never two of these. */
  ghost predicate PidsValid(table: seq<ChildEntry>, waited: seq<U64>, next: U64, running: Option<U64>) {
    && NoDuplicates(waited)
    && (forall i :: 0 <= i < |waited| ==> waited[i] < next)
    && (forall i :: 0 <= i < |table| && table[i].used ==> table[i].pid < next && table[i].pid !in waited)
    && (forall i, j :: 0 <= i < j < |table| && table[i].used && table[j].used ==> table[i].pid != table[j].pid)
    && (running.Some? ==>
          && running.value < next && running.value !in waited
          && forall i :: 0 <= i < |table| && table[i].used ==> table[i].pid != running.value)
  }

  /** A fork gives its child a pid no process has had. */
  lemma ForkKeepsPids(table: seq<ChildEntry>, waited: seq<U64>, next: U64)
    requires PidsValid(table, waited, next, None) && next + 1 < U64_LIMIT
    ensures PidsValid(table, waited, next + 1, Some(next)) && PidsValid(table, waited, next + 1, None)
  {
  }

  /** A child that exits moves from running to the table. */
  lemma PushKeepsPids(table: seq<ChildEntry>, waited: seq<U64>, next: U64, pid: U64, status: nat)
    requires PidsValid(table, waited, next, Some(pid))
    ensures PidsValid(Pushed(table, pid, status), waited, next, None)
  {
  }

  /** A child that is waited for leaves the table, so no later wait returns it. */
  lemma TakeKeepsPids(table: seq<ChildEntry>, waited: seq<U64>, next: U64, running: Option<U64>, requested: int)
    requires PidsValid(table, waited, next, running) && FirstWaitable(table, requested) < |table|
    ensures var pid := table[FirstWaitable(table, requested)].pid;
            && pid !in waited
            && PidsValid(Taken(table, requested), waited + [pid], next, running)
  {
  }

  /** What a fork remembers of the parent, for the proof only. */
  datatype ForkRecord = ForkRecord(m0: Memory, own: map<Pfn, Node>, free0: set<nat>, copies: map<Pfn, Copy>,
                                   world: World)

  /** What a successful fork leaves on record about the parent and the child. */
  ghost predicate Recorded(k: ForkRecord, parent: Pfn) {
    var s := k.world.space;
    && parent != 0 && Forkable(k.m0, parent, k.own, k.free0)
    && Forked(k.m0, s.m, parent, s.root, k.copies, k.free0, s.free)
    && k.world == ChildWorld(s.m, s.root, k.copies, s.free)
  }

  class ProcessManager {
    const pages: PageTableManager
    const children: array<ChildEntry>
    var state: ProcessState
    /** The PENDING_SIGNALS word and the FS base register. */
    var pendingSignals: U64
    var fsBase: U64
    /** The exit flag and code the assembly stubs read. */
    var exitFlag: bool
    var exitWord: int
    // The vibux_vfork_* variables and the saved parent.
    var childActive: bool
    var childPid: U64
    var childStatus: nat
    var childValid: bool
    var parentCr3: Pfn
    var parentFsBase: U64
    var parentState: ProcessState
    var nextPid: U64
    ghost var record: Option<ForkRecord>
    /** Every pid wait4 has returned. */
    ghost var waited: seq<U64>

    constructor (pages: PageTableManager, state: ProcessState)
      ensures Valid() && !childActive && this.pages == pages && this.state == state && waited == []
    {
      this.pages, this.state, parentState := pages, state, state;
      children := new ChildEntry[MAX_CHILDREN](i => EMPTY_ENTRY);
      pendingSignals, fsBase, exitFlag, exitWord := 0, 0, false, 0;
      childActive, childPid, childStatus, childValid := false, 0, 0, false;
      parentCr3, parentFsBase, nextPid := 0, 0, 2;
      record, waited := None, [];
    }

    ghost predicate Valid()
      reads this, children
    {
      children.Length == MAX_CHILDREN
        && PidsValid(children[..], waited, nextPid, if childActive then Some(childPid) else None)
    }

    /** `push_exited_child`: the first unused slot, or nowhere when all sixteen are taken. */
    method PushExitedChild(pid: U64, status: nat)
      requires children.Length == MAX_CHILDREN
      modifies children
      ensures children[..] == Pushed(old(children[..]), pid, status)
    {
      for i := 0 to MAX_CHILDREN
        invariant forall j :: 0 <= j < i ==> children[j].used
        invariant children[..] == old(children[..])
      {
        if !children[i].used {
          children[i] := ChildEntry(true, pid, status);
          return;
        }
      }
    }

    /** `take_exited_child`: remove and return the first entry that answers the request. */
    method TakeExitedChild(requested: int) returns (r: Option<ChildEntry>)
      requires children.Length == MAX_CHILDREN
      modifies children
      ensures children[..] == Taken(old(children[..]), requested)
      ensures var k := FirstWaitable(old(children[..]), requested);
              r == if k < MAX_CHILDREN then Some(old(children[..])[k]) else None
    {
      for i := 0 to MAX_CHILDREN
        invariant forall j :: 0 <= j < i ==> !Waitable(children[j], requested)
        invariant children[..] == old(children[..])
      {
        if !children[i].used {
          continue;
        }
        if requested <= 0 || children[i].pid == requested {
          var entry := children[i];
          children[i] := EMPTY_ENTRY;
          return Some(entry);
        }
      }
      return None;
    }

    /** The parent's side of memory, ready to be forked. */
    ghost predicate ForkReady(alloc: FrameAllocator)
      reads this, pages, pages.ram, alloc
    {
      && pages.Backed() && pages.cr3 != 0 && alloc.Supplies()
      && Forkable(pages.memory, pages.cr3, pages.own, alloc.Frames())
    }

    /** The copy of the parent's address space, and what it leaves on record. */
    method CloneParent(alloc: FrameAllocator) returns (child: Option<Pfn>, ghost k: ForkRecord)
      requires ForkReady(alloc)
      modifies pages`memory, pages.ram, alloc
      ensures pages.Backed() && alloc.Supplies()
      ensures child.Some? <==> CopyCost(old(pages.memory), N4, pages.cr3) <= |old(alloc.Frames())|
      ensures forall f: Pfn :: f !in old(alloc.Frames()) ==> pages.memory[f] == old(pages.memory)[f]
      ensures child.Some? ==>
                && Recorded(k, pages.cr3) && Shape(pages.memory, child.value, k.world.space.own)
                && k.m0 == old(pages.memory) && k.own == pages.own && k.free0 == old(alloc.Frames())
                && k.world.space.m == pages.memory && k.world.space.root == child.value
                && k.world.space.free == alloc.Frames()
      ensures child.Some? && Permissive(k.m0, k.own) ==> Permissive(pages.memory, k.world.space.own)
    {
      hide FrameAllocator.Supplies, FrameAllocator.Frames, Shape, Plain, Permissive, DeepCopy, SameSpace;
      hide Undisturbed, ChildTree, CopyCost;
      hide UserPage;
      ghost var copies;
      child, copies := CloneUserAddressSpace(pages, pages.cr3, alloc);
      ghost var root: Pfn := if child.Some? then child.value else 0;
      k := ForkRecord(old(pages.memory), pages.own, old(alloc.Frames()), copies,
                      ChildWorld(pages.memory, root, copies, alloc.Frames()));
      if child.Some? {
        ChildHasShape(old(pages.memory), pages.memory, pages.cr3, root, pages.own, copies);
      }
    }

    /** Save the parent, and give the child its pid. */
    method BeginChild() returns (pid: U64)
      requires Valid() && !childActive && nextPid + 1 < U64_LIMIT
      modifies this
      ensures Valid() && children[..] == old(children[..]) && waited == old(waited)
      ensures PidsValid(children[..], waited, nextPid, None)
      ensures pid == old(nextPid) && nextPid == pid + 1 && childActive && childPid == pid
      ensures parentState == state == old(state).(pendingSignals := old(pendingSignals))
      ensures parentCr3 == pages.cr3 && parentFsBase == fsBase == old(fsBase)
    {
      ForkKeepsPids(children[..], waited, nextPid);
      state := state.(pendingSignals := pendingSignals);
      parentState := state;
      parentCr3, parentFsBase := pages.cr3, fsBase;
      pid := nextPid;
      nextPid := nextPid + 1;
      childPid, childStatus, childValid, childActive := pid, 0, false, true;
    }

    /** `do_fork` up to the entry into the child; control comes back through `ChildExit`. */
    method DoFork(alloc: FrameAllocator) returns (r: Result<U64, Errno>)
      requires Valid() && (!childActive ==> ForkReady(alloc))
      requires nextPid + 1 < U64_LIMIT
      modifies this, pages, pages.ram, alloc
      ensures Valid() && children[..] == old(children[..]) && waited == old(waited)
      ensures r == if old(childActive) then Err(EAGAIN)
                   else if old(CopyCost(pages.memory, N4, pages.cr3) <= |alloc.Frames()|) then Ok(old(nextPid))
                        else Err(ENOMEM)
      ensures childActive == (r != Err(ENOMEM)) && nextPid == old(nextPid) + if old(childActive) then 0 else 1
      ensures r == Err(EAGAIN) ==> unchanged(this) && unchanged(pages) && unchanged(alloc)
      ensures r == Err(ENOMEM) ==>
                && state == old(state).(pendingSignals := old(pendingSignals)) && fsBase == old(fsBase)
                && pages.cr3 == old(pages.cr3) && pages.own == old(pages.own) && pages.Backed()
                && forall f: Pfn :: f !in old(alloc.Frames()) ==> pages.memory[f] == old(pages.memory)[f]
      ensures r.Ok? ==>
                && parentState == old(state).(pendingSignals := old(pendingSignals))
                && state == parentState.(pid := r.value) && childPid == r.value
                && parentCr3 == old(pages.cr3) && parentFsBase == old(fsBase) && fsBase == old(fsBase)
                && pages.Valid() && record.Some? && Recorded(record.value, parentCr3)
      ensures r.Ok? ==> var k := record.value;
                && k.m0 == old(pages.memory) && k.own == old(pages.own) && k.free0 == old(alloc.Frames())
                && k.world.space == Space(pages.memory, pages.cr3, pages.own, alloc.Frames())
                && (Permissive(k.m0, k.own) ==> Permissive(pages.memory, pages.own))
    {
      hide FrameAllocator.Supplies, FrameAllocator.Frames, Shape, Permissive, Forkable, Recorded, PidsValid, CopyCost;
      if childActive {
        return Err(EAGAIN);
      }
      var pid := BeginChild();
      ghost var k;
      var child;
      child, k := CloneParent(alloc);
      if child.None? {
        childActive := false;
        return Err(ENOMEM);
      }
      state := state.(pid := pid);
      record := Some(k);
      pages.cr3, pages.own := child.value, k.world.space.own;
      return Ok(pid);
    }

    /** `do_vfork` up to the entry into the child, which goes on in the parent's own space. */
    method DoVfork() returns (r: Result<U64, Errno>)
      requires Valid() && nextPid + 1 < U64_LIMIT
      modifies this
      ensures Valid() && children[..] == old(children[..]) && waited == old(waited)
      ensures r == if old(childActive) then Err(EAGAIN) else Ok(old(nextPid))
      ensures r.Err? ==> unchanged(this)
      ensures r.Ok? ==>
                && childActive && childPid == r.value && nextPid == old(nextPid) + 1
                && parentState == old(state).(pendingSignals := old(pendingSignals))
                && state == parentState.(pid := r.value)
                && parentCr3 == pages.cr3 && parentFsBase == old(fsBase) && fsBase == old(fsBase)
    {
      hide PidsValid;
      if childActive {
        return Err(EAGAIN);
      }
      var pid := BeginChild();
      state := state.(pid := pid);
      return Ok(pid);
    }

    /**
     `vibux_vfork_child_exit`, for the child of a fork or a vfork. The parent gets back its state with the exit flags
     cleared, its address space (whose tree is `own`) and its FS base, and the child is on record for `wait4`.
     */
    method LeaveChild(code: U64, ghost own: map<Pfn, Node>)
      requires Valid() && childActive
      modifies this, children, pages`cr3, pages`own
      ensures Valid() && !childActive && waited == old(waited) && nextPid == old(nextPid) && record == old(record)
      ensures state == old(parentState).(exitRequested := false, exitCode := 0)
      ensures pendingSignals == old(parentState).pendingSignals && fsBase == old(parentFsBase)
      ensures !exitFlag && exitWord == 0
      ensures if old(parentCr3) != 0 then pages.cr3 == old(parentCr3) && pages.own == own
              else pages.cr3 == old(pages.cr3) && pages.own == old(pages.own)
      ensures children[..] == Pushed(old(children[..]), old(childPid), ExitStatus(code))
    {
      hide PidsValid;
      childStatus := ExitStatus(code);
      childValid := true;
      if parentCr3 != 0 {
        pages.cr3, pages.own := parentCr3, own;
      }
      state := parentState;
      pendingSignals := parentState.pendingSignals;
      state := state.(exitRequested := false, exitCode := 0);
      exitFlag, exitWord := false, 0;
      fsBase := parentFsBase;
      PushKeepsPids(children[..], waited, nextPid, childPid, childStatus);
      PushExitedChild(childPid, childStatus);
      childActive := false;
    }

    /**
     The exit of a forked child after a life of `moves`: the parent is back as `LeaveChild` says. It finds its
     tables and its pages exactly as they were before the fork if the child has hit none of them, nor its own,
     through a kernel slot.
     */
    method ChildExit(code: U64, ghost life: seq<World>, ghost moves: seq<Move>)
      requires Valid() && childActive && pages.Backed()
      requires record.Some? && Recorded(record.value, parentCr3)
      requires IsLife(life, moves) && life[0] == record.value.world && life[|moves|].space.m == pages.memory
      modifies this, children, pages`cr3, pages`own
      ensures Valid() && !childActive && waited == old(waited) && nextPid == old(nextPid)
      ensures state == old(parentState).(exitRequested := false, exitCode := 0)
      ensures pendingSignals == old(parentState).pendingSignals && fsBase == old(parentFsBase)
      ensures !exitFlag && exitWord == 0
      ensures pages.Backed() && pages.memory == old(pages.memory)
      ensures pages.cr3 == old(parentCr3) && pages.own == old(record).value.own
      ensures LifeSparesItself(life, moves) ==>
                var k := old(record).value;
                && (forall f: Pfn :: f !in k.free0 && Unhit(life, moves, f) ==> pages.memory[f] == k.m0[f])
                && (SparesParent(life, moves, k.m0, pages.cr3, k.own) ==>
                      pages.Valid() && forall at :: PageKept(k.m0, pages.memory, pages.cr3, at))
      ensures children[..] == Pushed(old(children[..]), old(childPid), ExitStatus(code))
    {
      hide PidsValid, Forkable, Forked, Shape, PageKept, ChildTree, LifeSparesItself, SparesParent, Unhit, Moves;
      ghost var k := record.value;
      if LifeSparesItself(life, moves) {
        ForkIsInvisible(k.m0, k.world.space.m, parentCr3, k.world.space.root, k.own, k.copies, k.free0,
                        k.world.space.free,
                        life, moves);
      }
      LeaveChild(code, k.own);
    }

    /**
     `wait4`: `statusCopied` and `usageCopied` say whether the copies to user memory succeed. An entry
     leaves the table for good even when they fail.
     */
    method Wait4(requested: int, wnohang: bool, statusAddress: U64, statusCopied: bool, usageAddress: U64,
                 usageCopied: bool)
      returns (r: Result<U64, Errno>)
      requires Valid()
      modifies this`waited, children
      ensures Valid()
      ensures children[..] == Taken(old(children[..]), requested)
      ensures var k := FirstWaitable(old(children[..]), requested);
              if k < MAX_CHILDREN then
                && waited == old(waited) + [old(children[..])[k].pid]
                && var faults := (statusAddress != 0 && !statusCopied) || (usageAddress != 0 && !usageCopied);
                r == if faults then Err(EFAULT) else Ok(old(children[..])[k].pid)
              else waited == old(waited) && r == if wnohang then Ok(0) else Err(ECHILD)
      ensures r.Ok? && 0 < requested && r != Ok(0) ==> r.value == requested
      ensures r == Ok(0) || r == Err(ECHILD) <== forall j :: 0 <= j < MAX_CHILDREN && old(children[..])[j].used ==>
                0 < requested && old(children[..])[j].pid != requested
    {
      ghost var table := children[..];
      if FirstWaitable(table, requested) < |table| {
        TakeKeepsPids(table, waited, nextPid, if childActive then Some(childPid) else None, requested);
      }
      var entry := TakeExitedChild(requested);
      if entry.Some? {
        waited := waited + [entry.value.pid];
        if statusAddress != 0 && !statusCopied {
          return Err(EFAULT);
        }
        if usageAddress != 0 && !usageCopied {
          return Err(EFAULT);
        }
        return Ok(entry.value.pid);
      }
      return if wnohang then Ok(0) else Err(ECHILD);
    }
  }
}
