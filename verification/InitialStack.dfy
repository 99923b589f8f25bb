/**
 The initial stack of a program (kernel/src/velf/runner.rs), as section 3.4.1 of the System V AMD64 ABI asks for it. The
 frames behind the 64 stack pages are taken to be contiguous.
 */
module InitialStack {
  import opened Prelude
  import opened Bytes

  const STACK_TOP: nat := 0x7F00_0000_0000
  const STACK_SIZE: nat := 0x4_0000
  const BOTTOM: nat := 0x7EFF_FFFC_0000

  /** Something on the stack, and where. */
  datatype Placed = Placed(address: nat, bytes: seq<Byte>)

  ghost predicate Intact(mem: seq<Byte>, p: Placed) {
    && |mem| == STACK_SIZE && BOTTOM <= p.address && p.address + |p.bytes| <= STACK_TOP
    && mem[p.address - BOTTOM..p.address - BOTTOM + |p.bytes|] == p.bytes
  }

  /** Everything placed so far lies at or above the stack pointer and reads as it was written. */
  ghost predicate AllIntact(mem: seq<Byte>, placed: set<Placed>, sp: nat) {
    forall p :: p in placed ==> sp <= p.address && Intact(mem, p)
  }

  /** A write below the stack pointer disturbs nothing placed before it. */
  lemma WriteBelow(mem: seq<Byte>, placed: set<Placed>, sp: nat, at: nat, bytes: seq<Byte>)
    requires |mem| == STACK_SIZE && AllIntact(mem, placed, sp)
    requires BOTTOM <= at && at + |bytes| <= sp <= STACK_TOP
    ensures AllIntact(Overlay(mem, at - BOTTOM, bytes), placed + {Placed(at, bytes)}, at)
  {
    var mem' := Overlay(mem, at - BOTTOM, bytes);
    OverlayAt(mem, at - BOTTOM, bytes);
    forall p | p in placed + {Placed(at, bytes)} ensures at <= p.address && Intact(mem', p) {
      if p in placed {
        SameSlice(mem, mem', p.address - BOTTOM, |p.bytes|);
      }
    }
  }

  lemma SameSlice(a: seq<Byte>, b: seq<Byte>, from: nat, n: nat)
    requires |a| == |b| && from + n <= |a| && forall i :: from <= i < from + n ==> a[i] == b[i]
    ensures a[from..from + n] == b[from..from + n]
  {
  }

  lemma LowerPointer(mem: seq<Byte>, placed: set<Placed>, sp: nat, sp': nat)
    requires AllIntact(mem, placed, sp) && sp' <= sp
    ensures AllIntact(mem, placed, sp')
  {
  }

  predicate IsPowerOfTwo(n: nat) {
    n == 1 || (n > 1 && n % 2 == 0 && IsPowerOfTwo(n / 2))
  }

  predicate WordAligned(a: nat) {
    a % 8 == 0
  }

  /** The 16-byte boundary at or below. */
  function Floor16(a: int): int {
    a - a % 16
  }

  class StackBuilder {
    /** The memory of the stack pages, from the bottom up. */
    const memory: array<Byte>
    var sp: nat
    ghost var placed: set<Placed>

    constructor ()
      ensures Valid() && fresh(memory) && sp == STACK_TOP && placed == {}
    {
      memory := new Byte[STACK_SIZE](i => 0);
      sp, placed := STACK_TOP, {};
    }

    ghost predicate Valid()
      reads this, memory
    {
      memory.Length == STACK_SIZE && BOTTOM <= sp <= STACK_TOP && AllIntact(memory[..], placed, sp)
    }

    method Reserve(size: nat, alignment: nat) returns (r: Option<nat>)
      requires Valid() && size < U64_LIMIT
      modifies this`sp
      ensures Valid()
      ensures r == if alignment == 0 || !IsPowerOfTwo(alignment) || old(sp) < size then None
                   else
                     var low := old(sp) - size - (old(sp) - size) % alignment;
                     if low < BOTTOM then None else Some(low)
      ensures sp == if r.Some? then r.value else old(sp)
    {
      hide AllIntact, IsPowerOfTwo;
      if alignment == 0 || !IsPowerOfTwo(alignment) {
        return None;
      }
      if sp < size {
        return None;
      }
      var raw := sp - size;
      var aligned := raw - raw % alignment;
      if aligned < BOTTOM {
        return None;
      }
      LowerPointer(memory[..], placed, sp, aligned);
      sp := aligned;
      return Some(sp);
    }

    method Store(address: nat, bytes: seq<Byte>)
      requires memory.Length == STACK_SIZE && BOTTOM <= address && address + |bytes| <= STACK_TOP
      modifies memory
      ensures memory[..] == Overlay(old(memory[..]), address - BOTTOM, bytes)
    {
      forall k | 0 <= k < |bytes| {
        memory[address - BOTTOM + k] := bytes[k];
      }
    }

    /** Places a string and its terminating zero. */
    method PutBytes(bytes: seq<Byte>) returns (r: Option<nat>)
      requires Valid() && |bytes| + 1 < U64_LIMIT
      modifies this`sp, this`placed, memory
      ensures Valid()
      ensures r == if old(sp) - |bytes| - 1 < BOTTOM then None else Some(old(sp) - |bytes| - 1)
      ensures sp == if r.Some? then r.value else old(sp)
      ensures placed == if r.Some? then old(placed) + {Placed(sp, bytes + [0])} else old(placed)
      ensures r.None? ==> memory[..] == old(memory[..])
    {
      hide AllIntact, Overlay;
      ghost var before, top := memory[..], sp;
      OneIsPowerOfTwo();
      r := Reserve(|bytes| + 1, 1);
      if r.Some? {
        WriteBelow(before, placed, top, sp, bytes + [0]);
        Store(sp, bytes + [0]);
        placed := placed + {Placed(sp, bytes + [0])};
      }
    }

    /** Places the 16 random bytes on a 16-byte boundary. */
    method PutRandom(seed: seq<Byte>) returns (r: Option<nat>)
      requires Valid() && |seed| == 16
      modifies this`sp, this`placed, memory
      ensures Valid() && sp == if r.Some? then r.value else old(sp)
      ensures r == if Floor16(old(sp) - 16) < BOTTOM then None else Some(Floor16(old(sp) - 16))
      ensures placed == if r.Some? then old(placed) + {Placed(sp, seed)} else old(placed)
    {
      hide AllIntact, Overlay;
      ghost var before, top := memory[..], sp;
      OneIsPowerOfTwo();
      r := Reserve(16, 16);
      if r.Some? {
        WriteBelow(before, placed, top, sp, seed);
        Store(sp, seed);
        placed := placed + {Placed(sp, seed)};
      }
    }

    method PutU64(value: U64) returns (r: Option<nat>)
      requires Valid() && WordAligned(sp)
      modifies this`sp, this`placed, memory
      ensures Valid() && r == if old(sp) - 8 < BOTTOM then None else Some(old(sp) - 8)
      ensures sp == if r.Some? then r.value else old(sp)
      ensures placed == if r.Some? then old(placed) + {Placed(sp, LeBytes(value, 8))} else old(placed)
      ensures memory[..] == if r.Some? then Overlay(old(memory[..]), sp - BOTTOM, LeBytes(value, 8))
                            else old(memory[..])
    {
      hide AllIntact, Overlay, LeBytes;
      ghost var before, top := memory[..], sp;
      OneIsPowerOfTwo();
      r := Reserve(8, 8);
      if r.Some? {
        WriteBelow(before, placed, top, sp, LeBytes(value, 8));
        Store(sp, LeBytes(value, 8));
        placed := placed + {Placed(sp, LeBytes(value, 8))};
      }
    }

    /** Moves the pointer so that a block of this size will end up on a 16-byte boundary. */
    method AlignBeforeBlock(blockSize: nat) returns (ok: bool)
      requires Valid() && blockSize < U64_LIMIT
      modifies this`sp
      ensures Valid()
      ensures ok <==> old(sp) >= blockSize && Floor16(old(sp) - blockSize) + blockSize >= BOTTOM
      ensures ok ==> sp == Floor16(old(sp) - blockSize) + blockSize
    {
      hide AllIntact;
      if sp < blockSize {
        return false;
      }
      var padding := (sp - blockSize) % 16;
      if padding != 0 {
        if sp < padding {
          return false;
        }
        if sp - padding < BOTTOM {
          return false;
        }
        LowerPointer(memory[..], placed, sp, sp - padding);
        sp := sp - padding;
      }
      return true;
    }

    /** Pushes the entries from the last to the first, so that they end up in order. */
    method PushWords(entries: seq<U64>) returns (ok: bool)
      requires Valid() && WordAligned(sp)
      modifies this`sp, this`placed, memory
      ensures Valid() && old(placed) <= placed
      ensures ok <==> old(sp) - 8 * |entries| >= BOTTOM
      ensures ok ==> Block(memory[..], entries, 0, sp, old(sp))
    {
      hide *;
      var i: nat := |entries|;
      ghost var top := sp;
      SpInStack();
      EmptyBlock(memory[..], entries, top);
      while i > 0
        invariant i <= |entries| && Valid() && old(placed) <= placed
        invariant sp + 8 * (|entries| - i) == top && WordAligned(sp) && BOTTOM <= sp
        invariant Block(memory[..], entries, i, sp, top)
      {
        ghost var before, from := memory[..], sp;
        var put := PutU64(entries[i - 1]);
        if put.None? {
          return false;
        }
        WordBelow(from);
        LongerBlock(before, entries, i, from, top);
        i := i - 1;
      }
      return true;
    }

    lemma SpInStack()
      requires Valid()
      ensures memory.Length == STACK_SIZE && BOTTOM <= sp <= STACK_TOP
    {
    }

    /** The block of vectors: its words end up in order, on a 16-byte boundary. */
    method PushBlock(entries: seq<U64>) returns (r: Option<nat>)
      requires Valid() && 8 * |entries| < U64_LIMIT
      modifies this`sp, this`placed, memory
      ensures Valid() && old(placed) <= placed
      ensures r == if Floor16(old(sp) - 8 * |entries|) < BOTTOM then None else Some(Floor16(old(sp) - 8 * |entries|))
      ensures r.Some? ==> r.value == sp && sp % 16 == 0 && sp + 8 * |entries| <= old(sp)
                          && Intact(memory[..], Placed(sp, WordsToBytes(entries)))
    {
      hide *;
      SpInStack();
      FloorIsMultiple(sp - 8 * |entries|);
      var aligned := AlignBeforeBlock(8 * |entries|);
      if !aligned {
        return None;
      }
      ghost var top := sp;
      SixteenIsTwoEights(top, |entries|);
      var pushed := PushWords(entries);
      if !pushed {
        return None;
      }
      WholeBlock(memory[..], entries, sp, top);
      return Some(sp);
    }
  }

  lemma FloorIsMultiple(a: int)
    ensures Floor16(a) % 16 == 0 && Floor16(a) <= a < Floor16(a) + 16
  {
  }

  /** The entries from the `i`-th on lie at the stack pointer, up to `top`. */
  ghost predicate Block(mem: seq<Byte>, entries: seq<U64>, i: nat, sp: nat, top: nat) {
    && i <= |entries| && sp + 8 * (|entries| - i) == top && Intact(mem, Placed(sp, WordsToBytes(entries[i..])))
  }

  lemma EmptyBlock(mem: seq<Byte>, entries: seq<U64>, sp: nat)
    requires |mem| == STACK_SIZE && BOTTOM <= sp <= STACK_TOP
    ensures Block(mem, entries, |entries|, sp, sp)
  {
    assert entries[|entries|..] == [];
  }

  lemma LongerBlock(mem: seq<Byte>, entries: seq<U64>, i: nat, sp: nat, top: nat)
    requires 0 < i <= |entries| && Block(mem, entries, i, sp, top) && BOTTOM <= sp - 8
    ensures Block(Overlay(mem, sp - 8 - BOTTOM, LeBytes(entries[i - 1], 8)), entries, i - 1, sp - 8, top)
  {
    hide LeBytes;
    var word, rest := LeBytes(entries[i - 1], 8), WordsToBytes(entries[i..]);
    var mem' := Overlay(mem, sp - 8 - BOTTOM, word);
    OverlayAt(mem, sp - 8 - BOTTOM, word);
    assert entries[i - 1..][1..] == entries[i..];
    assert WordsToBytes(entries[i - 1..]) == word + rest;
    SameSlice(mem, mem', sp - BOTTOM, |rest|);
    assert mem'[sp - 8 - BOTTOM..sp - BOTTOM + |rest|]
        == mem'[sp - 8 - BOTTOM..sp - BOTTOM] + mem'[sp - BOTTOM..sp - BOTTOM + |rest|];
  }

  lemma WholeBlock(mem: seq<Byte>, entries: seq<U64>, sp: nat, top: nat)
    requires Block(mem, entries, 0, sp, top)
    ensures Intact(mem, Placed(sp, WordsToBytes(entries))) && sp + 8 * |entries| == top
  {
    assert entries[0..] == entries;
  }

  lemma WordBelow(a: nat)
    requires WordAligned(a) && a >= 8
    ensures WordAligned(a - 8)
  {
  }

  lemma SixteenIsTwoEights(top: nat, n: nat)
    requires top >= 8 * n && (top - 8 * n) % 16 == 0
    ensures WordAligned(top)
  {
    var q := (top - 8 * n) / 16;
    Quotient(top, 8, 2 * q + n, 0);
  }

  lemma OneIsPowerOfTwo()
    ensures IsPowerOfTwo(1) && IsPowerOfTwo(8) && IsPowerOfTwo(16)
  {
  }

  // The vectors.

  /** What the auxiliary vector tells besides addresses on the stack. */
  datatype Aux = Aux(phdr: U64, phentsize: U64, phnum: U64, base: U64, entry: U64)

  function AuxWords(aux: Aux, platform: U64, random: U64, execfn: U64): (w: seq<U64>)
    ensures |w| == 36
  {
    [3, aux.phdr, 4, aux.phentsize, 5, aux.phnum, 6, 4096, 7, aux.base, 9, aux.entry]
    + [11, 1000, 12, 1000, 13, 1000, 14, 1000]
    + [15, platform, 16, 0, 17, 250, 23, 0, 25, random, 26, 0, 31, execfn, 0, 0]
  }

  /** What `getauxval` finds: the value beside the first such key, up to the pair that ends the vector. */
  function AuxValue(words: seq<U64>, from: nat, key: U64): Option<U64>
    decreases |words| - from
  {
    if from + 2 > |words| || words[from] == 0 then None
    else if words[from] == key then Some(words[from + 1])
    else AuxValue(words, from + 2, key)
  }

  const AUX_KEYS: seq<U64> := [3, 4, 5, 6, 7, 9, 11, 12, 13, 14, 15, 16, 17, 23, 25, 26, 31]

  /** The pairs the vector is made of, by their keys in section 3.4.3 of the System V AMD64 ABI. */
  function AuxTable(aux: Aux, platform: U64, random: U64, execfn: U64): map<U64, U64> {
    map[
      3 := aux.phdr, 4 := aux.phentsize, 5 := aux.phnum, 6 := 4096, 7 := aux.base, 9 := aux.entry,
      11 := 1000, 12 := 1000, 13 := 1000, 14 := 1000,
      15 := platform, 16 := 0, 17 := 250, 23 := 0, 25 := random, 26 := 0, 31 := execfn]
  }

  /** The words list these pairs. */
  predicate Lists(words: seq<U64>, keys: seq<U64>, table: map<U64, U64>) {
    && |words| == 2 * |keys| + 2 && words[2 * |keys|] == 0
    && forall k :: 0 <= k < |keys| ==> ListsPair(words, keys, table, k)
  }

  predicate ListsPair(words: seq<U64>, keys: seq<U64>, table: map<U64, U64>, k: nat)
    requires k < |keys| && 2 * k + 2 <= |words|
  {
    words[2 * k] == keys[k] != 0 && keys[k] in table && words[2 * k + 1] == table[keys[k]]
  }

  lemma {:induction false} ScanFinds(words: seq<U64>, keys: seq<U64>, table: map<U64, U64>, i: nat, key: U64)
    requires Lists(words, keys, table) && i <= |keys|
    ensures if key in keys[i..] then key in table && AuxValue(words, 2 * i, key) == Some(table[key])
            else AuxValue(words, 2 * i, key) == None
    decreases |keys| - i
  {
    if i < |keys| {
      assert ListsPair(words, keys, table, i);
      assert keys[i..] == [keys[i]] + keys[i + 1..];
      ScanFinds(words, keys, table, i + 1, key);
    }
  }

  /** Whatever key a program looks up in the auxiliary vector, it finds its value, or finds that there is none. */
  lemma AuxTells(aux: Aux, platform: U64, random: U64, execfn: U64, key: U64)
    ensures var t := AuxTable(aux, platform, random, execfn);
            AuxValue(AuxWords(aux, platform, random, execfn), 0, key) == if key in t then Some(t[key]) else None
  {
    hide AuxWords, AuxTable, Lists;
    AuxLists(aux, platform, random, execfn);
    AuxKeys(aux, platform, random, execfn, key);
    ScanFinds(AuxWords(aux, platform, random, execfn), AUX_KEYS, AuxTable(aux, platform, random, execfn), 0, key);
    assert AUX_KEYS[0..] == AUX_KEYS;
  }

  lemma AuxKeys(aux: Aux, platform: U64, random: U64, execfn: U64, key: U64)
    ensures key in AUX_KEYS <==> key in AuxTable(aux, platform, random, execfn)
  {
  }

  lemma AuxLists(aux: Aux, platform: U64, random: U64, execfn: U64)
    ensures Lists(AuxWords(aux, platform, random, execfn), AUX_KEYS, AuxTable(aux, platform, random, execfn))
  {
    hide AuxTable, ListsPair;
    FirstPairs(aux, platform, random, execfn);
    LastPairs(aux, platform, random, execfn);
  }

  lemma FirstPairs(aux: Aux, platform: U64, random: U64, execfn: U64)
    ensures forall k :: 0 <= k < 9 ==>
              ListsPair(AuxWords(aux, platform, random, execfn), AUX_KEYS, AuxTable(aux, platform, random, execfn), k)
  {
  }

  lemma LastPairs(aux: Aux, platform: U64, random: U64, execfn: U64)
    ensures forall k :: 9 <= k < 17 ==>
              ListsPair(AuxWords(aux, platform, random, execfn), AUX_KEYS, AuxTable(aux, platform, random, execfn), k)
  {
  }

  /** The block at the stack pointer: argc, argv, a zero, envp, a zero, the auxiliary vector. */
  function Vectors(argv: seq<U64>, envp: seq<U64>, aux: seq<U64>): (w: seq<U64>)
    requires |argv| < U64_LIMIT
    ensures |w| == 3 + |argv| + |envp| + |aux|
  {
    [|argv|] + argv + [0] + envp + [0] + aux
  }

  /** The address leads to an intact copy of the string with its terminating zero. */
  ghost predicate Names(mem: seq<Byte>, address: nat, text: seq<Byte>) {
    Intact(mem, Placed(address, text + [0]))
  }

  ghost predicate AllName(mem: seq<Byte>, pointers: seq<U64>, texts: seq<seq<Byte>>) {
    |pointers| == |texts| && forall k :: 0 <= k < |pointers| ==> Names(mem, pointers[k], texts[k])
  }

  /** The strings were placed where the pointers say. */
  ghost predicate PlacedAll(placed: set<Placed>, pointers: seq<U64>, texts: seq<seq<Byte>>) {
    |pointers| == |texts| && forall k :: 0 <= k < |pointers| ==> Placed(pointers[k], texts[k] + [0]) in placed
  }

  lemma PlacedAreNamed(mem: seq<Byte>, placed: set<Placed>, sp: nat, pointers: seq<U64>, texts: seq<seq<Byte>>)
    requires AllIntact(mem, placed, sp) && PlacedAll(placed, pointers, texts)
    ensures AllName(mem, pointers, texts)
  {
    hide Intact;
    forall k | 0 <= k < |pointers| ensures Names(mem, pointers[k], texts[k]) {
      assert Placed(pointers[k], texts[k] + [0]) in placed;
    }
  }

  /** The room strings take. */
  function Room(texts: seq<seq<Byte>>): nat {
    if texts == [] then 0 else Room(texts[..|texts| - 1]) + |texts[|texts| - 1]| + 1
  }

  lemma {:induction false} RoomOfPrefix(texts: seq<seq<Byte>>, n: nat)
    requires n < |texts|
    ensures Room(texts[..n + 1]) == Room(texts[..n]) + |texts[n]| + 1 && Room(texts[..n + 1]) <= Room(texts)
    decreases |texts|
  {
    assert texts[..n + 1][..n] == texts[..n];
    if n + 1 < |texts| {
      var shorter := texts[..|texts| - 1];
      RoomOfPrefix(shorter, n);
      assert shorter[..n + 1] == texts[..n + 1];
    } else {
      assert texts[..n + 1] == texts;
    }
  }

  /** Places the strings one below the other. */
  method PutStrings(stack: StackBuilder, texts: seq<seq<Byte>>) returns (r: Option<seq<U64>>)
    requires stack.Valid() && forall t :: t in texts ==> |t| + 1 < U64_LIMIT
    modifies stack`sp, stack`placed, stack.memory
    ensures stack.Valid() && old(stack.placed) <= stack.placed
    ensures r.Some? <==> old(stack.sp) - Room(texts) >= BOTTOM
    ensures r.Some? ==> PlacedAll(stack.placed, r.value, texts) && stack.sp == old(stack.sp) - Room(texts)
  {
    hide AllIntact;
    var pointers: seq<U64> := [];
    assert texts[..0] == [];
    for i := 0 to |texts|
      invariant stack.Valid() && old(stack.placed) <= stack.placed
      invariant PlacedAll(stack.placed, pointers, texts[..i]) && |pointers| == i
      invariant stack.sp == old(stack.sp) - Room(texts[..i])
    {
      RoomOfPrefix(texts, i);
      var put := stack.PutBytes(texts[i]);
      if put.None? {
        return None;
      }
      pointers := pointers + [put.value];
    }
    assert texts[..|texts|] == texts;
    return Some(pointers);
  }

  // The whole stack.

  datatype Layout = Layout(argv: seq<U64>, envp: seq<U64>, platform: U64, random: U64, execfn: U64)

  /** "x86_64". */
  const PLATFORM: seq<Byte> := [0x78, 0x38, 0x36, 0x5F, 0x36, 0x34]

  /** Every address of the layout is at or above `low`. */
  ghost predicate Above(l: Layout, low: nat) {
    && low <= l.platform && low <= l.random && low <= l.execfn
    && (forall a :: a in l.argv ==> low <= a) && forall a :: a in l.envp ==> low <= a
  }

  ghost predicate LaidOut(mem: seq<Byte>, l: Layout, path: seq<Byte>, argv: seq<seq<Byte>>, envp: seq<seq<Byte>>,
                          seed: seq<Byte>) {
    && AllName(mem, l.argv, argv) && AllName(mem, l.envp, envp)
    && Names(mem, l.execfn, path) && Names(mem, l.platform, PLATFORM)
    && Intact(mem, Placed(l.random, seed)) && l.random % 16 == 0
  }

  ghost predicate LayoutPlaced(placed: set<Placed>, l: Layout, path: seq<Byte>, argv: seq<seq<Byte>>,
                               envp: seq<seq<Byte>>, seed: seq<Byte>) {
    && PlacedAll(placed, l.argv, argv) && PlacedAll(placed, l.envp, envp)
    && Placed(l.execfn, path + [0]) in placed && Placed(l.platform, PLATFORM + [0]) in placed
    && Placed(l.random, seed) in placed && l.random % 16 == 0
  }

  lemma PlacedIsLaidOut(mem: seq<Byte>, placed: set<Placed>, sp: nat, l: Layout, path: seq<Byte>, argv: seq<seq<Byte>>,
                        envp: seq<seq<Byte>>, seed: seq<Byte>)
    requires AllIntact(mem, placed, sp) && LayoutPlaced(placed, l, path, argv, envp, seed)
    ensures LaidOut(mem, l, path, argv, envp, seed)
  {
    hide AllIntact, Intact, PlacedAll, AllName;
    PlacedAreNamed(mem, placed, sp, l.argv, argv);
    PlacedAreNamed(mem, placed, sp, l.envp, envp);
    OnePlaced(mem, placed, sp, Placed(l.execfn, path + [0]));
    OnePlaced(mem, placed, sp, Placed(l.platform, PLATFORM + [0]));
    OnePlaced(mem, placed, sp, Placed(l.random, seed));
  }

  lemma OnePlaced(mem: seq<Byte>, placed: set<Placed>, sp: nat, p: Placed)
    requires AllIntact(mem, placed, sp) && p in placed
    ensures Intact(mem, p) && sp <= p.address
  {
  }

  lemma PlacedIsAbove(mem: seq<Byte>, placed: set<Placed>, sp: nat, l: Layout, path: seq<Byte>, argv: seq<seq<Byte>>,
                      envp: seq<seq<Byte>>, seed: seq<Byte>)
    requires AllIntact(mem, placed, sp) && LayoutPlaced(placed, l, path, argv, envp, seed)
    ensures Above(l, sp)
  {
    hide Intact;
    forall a | a in l.argv ensures sp <= a {
      var k :| 0 <= k < |l.argv| && l.argv[k] == a;
      assert Placed(l.argv[k], argv[k] + [0]) in placed;
    }
    forall a | a in l.envp ensures sp <= a {
      var k :| 0 <= k < |l.envp| && l.envp[k] == a;
      assert Placed(l.envp[k], envp[k] + [0]) in placed;
    }
  }

  lemma PlacedAllGrows(placed: set<Placed>, more: set<Placed>, pointers: seq<U64>, texts: seq<seq<Byte>>)
    requires placed <= more && PlacedAll(placed, pointers, texts)
    ensures PlacedAll(more, pointers, texts)
  {
    forall k | 0 <= k < |pointers| ensures Placed(pointers[k], texts[k] + [0]) in more {
      assert Placed(pointers[k], texts[k] + [0]) in placed;
    }
  }

  /** The strings of `exec_program`, from the path down to the last environment string. */
  method PutAllStrings(stack: StackBuilder, path: seq<Byte>, argv: seq<seq<Byte>>, envp: seq<seq<Byte>>,
                       seed: seq<Byte>)
    returns (r: Option<Layout>)
    requires stack.Valid() && |seed| == 16 && |path| + 1 < U64_LIMIT
    requires (forall t :: t in argv ==> |t| + 1 < U64_LIMIT) && forall t :: t in envp ==> |t| + 1 < U64_LIMIT
    modifies stack`sp, stack`placed, stack.memory
    ensures stack.Valid()
    ensures r.Some? <==> Floor16(old(stack.sp) - |path| - 24) - Room(argv) - Room(envp) >= BOTTOM
    ensures r.Some? ==> stack.sp == Floor16(old(stack.sp) - |path| - 24) - Room(argv) - Room(envp)
    ensures r.Some? ==> LayoutPlaced(stack.placed, r.value, path, argv, envp, seed)
  {
    hide AllIntact, Room, PlacedAll;
    var execfn := stack.PutBytes(path);
    if execfn.None? {
      return None;
    }
    var platform := stack.PutBytes(PLATFORM);
    if platform.None? {
      return None;
    }
    var random := stack.PutRandom(seed);
    if random.None? {
      return None;
    }
    var argvPointers := PutStrings(stack, argv);
    if argvPointers.None? {
      return None;
    }
    ghost var placed := stack.placed;
    var envpPointers := PutStrings(stack, envp);
    if envpPointers.None? {
      return None;
    }
    PlacedAllGrows(placed, stack.placed, argvPointers.value, argv);
    return Some(Layout(argvPointers.value, envpPointers.value, platform.value, random.value, execfn.value));
  }

  /** At most 32 strings of a vector are passed on. */
  function First32(texts: seq<seq<Byte>>): (t: seq<seq<Byte>>)
    ensures t <= texts && |t| == Min(|texts|, 32)
  {
    if |texts| <= 32 then texts else texts[..32]
  }

  /** Where the stack pointer ends up, if the stack reaches down that far. */
  function FinalPointer(path: seq<Byte>, argv: seq<seq<Byte>>, envp: seq<seq<Byte>>): int {
    var argc, envc := First32(argv), First32(envp);
    Floor16(Floor16(STACK_TOP - |path| - 24) - Room(argc) - Room(envc) - 8 * (39 + |argc| + |envc|))
  }

  /**
   The stack part of `exec_program`: it fails exactly when the stack is too small, and else the pointer it
   answers with is 16-byte aligned, the words there are the vectors of the ABI in their order, and every pointer among
   them leads to a copy nothing has overwritten.
   */
  method BuildStack(path: seq<Byte>, argv: seq<seq<Byte>>, envp: seq<seq<Byte>>, aux: Aux, seed: seq<Byte>)
    returns (stack: StackBuilder, r: Option<nat>, ghost l: Layout)
    requires |seed| == 16 && |path| + 1 < U64_LIMIT
    requires (forall t :: t in argv ==> |t| + 1 < U64_LIMIT) && forall t :: t in envp ==> |t| + 1 < U64_LIMIT
    ensures stack.Valid() && fresh(stack)
    ensures r == if FinalPointer(path, argv, envp) < BOTTOM then None else Some(FinalPointer(path, argv, envp))
    ensures r.Some? ==>
              && |l.argv| == |First32(argv)| && |l.envp| == |First32(envp)|
              && var block := Vectors(l.argv, l.envp, AuxWords(aux, l.platform, l.random, l.execfn));
              && r.value % 16 == 0 && Intact(stack.memory[..], Placed(r.value, WordsToBytes(block)))
              && LaidOut(stack.memory[..], l, path, First32(argv), First32(envp), seed)
              && Above(l, r.value + 8 * |block|)
  {
    hide AllIntact, Intact, Room, PlacedAll, LaidOut, Above, AuxWords, First32, WordsToBytes, AllName;
    stack := new StackBuilder();
    l := Layout([], [], 0, 0, 0);
    var argc, envc := First32(argv), First32(envp);
    FirstAreSmall(argv);
    FirstAreSmall(envp);
    var strings := PutAllStrings(stack, path, argc, envc, seed);
    if strings.None? {
      return stack, None, l;
    }
    var s := strings.value;
    l := s;
    PlacedIsAbove(stack.memory[..], stack.placed, stack.sp, s, path, argc, envc, seed);
    ghost var placed, top := stack.placed, stack.sp;
    LayoutIsCounted(placed, s, path, argc, envc, seed);
    var entries := Vectors(s.argv, s.envp, AuxWords(aux, s.platform, s.random, s.execfn));
    r := stack.PushBlock(entries);
    if r.Some? {
      LayoutGrows(placed, stack.placed, s, path, argc, envc, seed);
      PlacedIsLaidOut(stack.memory[..], stack.placed, stack.sp, s, path, argc, envc, seed);
      AboveLower(s, top, r.value + 8 * |entries|);
    }
  }

  lemma FirstAreSmall(texts: seq<seq<Byte>>)
    requires forall t :: t in texts ==> |t| + 1 < U64_LIMIT
    ensures forall t :: t in First32(texts) ==> |t| + 1 < U64_LIMIT
  {
  }

  lemma LayoutIsCounted(placed: set<Placed>, l: Layout, path: seq<Byte>, argv: seq<seq<Byte>>, envp: seq<seq<Byte>>,
                        seed: seq<Byte>)
    requires LayoutPlaced(placed, l, path, argv, envp, seed)
    ensures |l.argv| == |argv| && |l.envp| == |envp|
  {
  }

  lemma LayoutGrows(placed: set<Placed>, more: set<Placed>, l: Layout, path: seq<Byte>, argv: seq<seq<Byte>>,
                    envp: seq<seq<Byte>>,
                    seed: seq<Byte>)
    requires placed <= more && LayoutPlaced(placed, l, path, argv, envp, seed)
    ensures LayoutPlaced(more, l, path, argv, envp, seed)
  {
    hide PlacedAll;
    PlacedAllGrows(placed, more, l.argv, argv);
    PlacedAllGrows(placed, more, l.envp, envp);
  }

  lemma AboveLower(l: Layout, low: nat, lower: nat)
    requires Above(l, low) && lower <= low
    ensures Above(l, lower)
  {
  }

  lemma {:induction false} RoomIsBounded(texts: seq<seq<Byte>>, longest: nat)
    requires forall t :: t in texts ==> |t| <= longest
    ensures Room(texts) <= |texts| * (longest + 1)
  {
    if texts != [] {
      RoomIsBounded(texts[..|texts| - 1], longest);
      assert texts[|texts| - 1] in texts;
    }
  }

  /**
   Whatever `execve` can have collected fits: fewer than 32 strings each way, of at most 254 bytes, and a path of
   158.
   */
  lemma ExecveFits(path: seq<Byte>, argv: seq<seq<Byte>>, envp: seq<seq<Byte>>)
    requires |path| <= 158 && |argv| <= 31 && |envp| <= 31
    requires (forall t :: t in argv ==> |t| <= 254) && forall t :: t in envp ==> |t| <= 254
    ensures First32(argv) == argv && First32(envp) == envp
    ensures FinalPointer(path, argv, envp) >= BOTTOM
  {
    RoomIsBounded(argv, 254);
    RoomIsBounded(envp, 254);
  }
}
