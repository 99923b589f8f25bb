/** ELF images (kernel/src/velf/format.rs): the header, the program headers, and which file byte an address names. */
module Elf {
  import opened Prelude
  import opened Bytes

  datatype ElfError =
    | Empty | TooSmall | BadMagic | NotElf64 | NotLittleEndian | BadIdentVersion | UnsupportedMachine | UnsupportedType
    | BadHeader | BadPhdrSize | PhdrOutOfBounds | SegmentOutOfBounds | FileszGreaterThanMemsz | BadAlignment
    | AddressOverflow | OutsideUserRange | TooManyLoadSegments | PageAlreadyMapped(page: U64) | OutOfMemory
    | MappingFailed

  const ET_EXEC: nat := 2
  const ET_DYN: nat := 3
  const EM_X86_64: nat := 0x3E
  const PT_LOAD: nat := 1

  datatype Header = Header(kind: nat, machine: nat, version: nat, entry: U64, phoff: U64, phnum: nat, phentsize: nat)

  datatype ProgramHeader = ProgramHeader(
    kind: nat, executable: bool, writable: bool, offset: U64, vaddr: U64, filesz: U64, memsz: U64, align: U64)

  datatype Image = Image(bytes: seq<Byte>, header: Header)

  function U64At(b: seq<Byte>, at: nat): U64
    requires at + 8 <= |b|
  {
    WordAt(b[at..at + 8])
  }

  function Parse(bytes: seq<Byte>): Result<Image, ElfError> {
    if |bytes| < 64 then Err(if bytes == [] then Empty else TooSmall)
    else if bytes[..4] != [0x7F, 0x45, 0x4C, 0x46] then Err(BadMagic)
    else if bytes[4] != 2 then Err(NotElf64)
    else if bytes[5] != 1 then Err(NotLittleEndian)
    else if bytes[6] != 1 then Err(BadIdentVersion)
    else
      var h := Header(LittleEndian(bytes[16..18]), LittleEndian(bytes[18..20]), LittleEndian(bytes[20..24]),
                      U64At(bytes, 24), U64At(bytes, 32), LittleEndian(bytes[56..58]), LittleEndian(bytes[54..56]));
      if h.machine != EM_X86_64 then Err(UnsupportedMachine)
      else if h.kind != ET_EXEC && h.kind != ET_DYN then Err(UnsupportedType)
      else if h.version != 1 then Err(BadHeader)
      else if h.phentsize != 56 then Err(BadPhdrSize)
      else if h.phoff + 56 * h.phnum >= U64_LIMIT || h.phoff + 56 * h.phnum > |bytes| then Err(PhdrOutOfBounds)
      else Ok(Image(bytes, h))
  }

  function Phdr(image: Image, index: nat): Result<ProgramHeader, ElfError> {
    var base, b := image.header.phoff + 56 * index, image.bytes;
    if index >= image.header.phnum || base + 56 >= U64_LIMIT || base + 56 > |b| then Err(PhdrOutOfBounds)
    else
      var flags := LittleEndian(b[base + 4..base + 8]);
      Ok(ProgramHeader(LittleEndian(b[base..base + 4]), flags % 2 == 1, flags / 2 % 2 == 1, U64At(b, base + 8),
                       U64At(b, base + 16), U64At(b, base + 32), U64At(b, base + 40), U64At(b, base + 48)))
  }

  // The layout of the headers in the file (System V ABI, ELF-64 object file format), written from the fields.

  /** The fields of a program header; its flags are PF_X in bit 0, PF_W in bit 1, and the others above. */
  datatype PhdrFields = PhdrFields(
    kind: nat, executable: bool, writable: bool, otherFlags: nat, offset: U64, vaddr: U64, paddr: U64, filesz: U64,
    memsz: U64, align: U64)

  function FlagWord(f: PhdrFields): nat {
    (if f.executable then 1 else 0) + (if f.writable then 2 else 0) + 4 * f.otherFlags
  }

  function PhdrBytes(f: PhdrFields): (b: seq<Byte>)
    ensures |b| == 56
  {
    PlaceBytes(f) + SizeBytes(f)
  }

  function PlaceBytes(f: PhdrFields): (b: seq<Byte>)
    ensures |b| == 24
  {
    LeBytes(f.kind, 4) + LeBytes(FlagWord(f), 4) + LeBytes(f.offset, 8) + LeBytes(f.vaddr, 8)
  }

  function SizeBytes(f: PhdrFields): (b: seq<Byte>)
    ensures |b| == 32
  {
    LeBytes(f.paddr, 8) + LeBytes(f.filesz, 8) + LeBytes(f.memsz, 8) + LeBytes(f.align, 8)
  }

  predicate FieldsFit(f: PhdrFields) {
    f.kind < 0x1_0000_0000 && f.otherFlags < 0x4000_0000
  }

  /** The file holds these fields as its `index`-th program header. */
  predicate HasPhdr(image: Image, index: nat, f: PhdrFields) {
    && FieldsFit(f) && index < image.header.phnum && |image.bytes| < U64_LIMIT
    && var base := image.header.phoff + 56 * index;
    base + 56 <= |image.bytes| && image.bytes[base..base + 56] == PhdrBytes(f)
  }

  /** A field that lies between what comes before and what comes after is read back. */
  lemma FieldReadBack(pre: seq<Byte>, value: nat, n: nat, post: seq<Byte>)
    requires value < PowerOf256(n)
    ensures LittleEndian((pre + LeBytes(value, n) + post)[|pre|..|pre| + n]) == value
  {
    assert (pre + LeBytes(value, n) + post)[|pre|..|pre| + n] == LeBytes(value, n);
    LeRoundTrip(value, n);
  }

  /** `phdr` gives back the fields a program header was written with. */
  lemma PhdrGivesBack(image: Image, index: nat, f: PhdrFields)
    requires HasPhdr(image, index, f)
    ensures Phdr(image, index) ==
              Ok(ProgramHeader(f.kind, f.executable, f.writable, f.offset, f.vaddr, f.filesz, f.memsz, f.align))
  {
    hide LittleEndian, LeBytes, PhdrBytes, PowerOf256, FlagWord;
    PhdrFieldsAt(f);
    FlagBits(f);
    var b, base, p := image.bytes, image.header.phoff + 56 * index, PhdrBytes(f);
    SliceOfSlice(b, base, p, 0, 4);
    SliceOfSlice(b, base, p, 4, 8);
    SliceOfSlice(b, base, p, 8, 16);
    SliceOfSlice(b, base, p, 16, 24);
    SliceOfSlice(b, base, p, 32, 40);
    SliceOfSlice(b, base, p, 40, 48);
    SliceOfSlice(b, base, p, 48, 56);
  }

  /** A field of a stretch of the file, read in the file or in the stretch. */
  lemma SliceOfSlice(b: seq<Byte>, base: nat, p: seq<Byte>, lo: nat, hi: nat)
    requires base + |p| <= |b| && p == b[base..base + |p|] && lo <= hi <= |p|
    ensures b[base + lo..base + hi] == p[lo..hi]
  {
    forall k | 0 <= k < hi - lo ensures b[base + lo..base + hi][k] == p[lo..hi][k] {
      assert p[lo + k] == b[base + (lo + k)];
    }
  }

  lemma FlagBits(f: PhdrFields)
    ensures (FlagWord(f) % 2 == 1 <==> f.executable) && (FlagWord(f) / 2 % 2 == 1 <==> f.writable)
  {
  }

  lemma PlaceFieldsAt(f: PhdrFields)
    requires FieldsFit(f)
    ensures var p := PlaceBytes(f);
            && LittleEndian(p[0..4]) == f.kind && LittleEndian(p[4..8]) == FlagWord(f)
            && LittleEndian(p[8..16]) == f.offset && LittleEndian(p[16..24]) == f.vaddr
  {
    hide LittleEndian, LeBytes, PowerOf256;
    EightBytes();
    var k, w, o, v := LeBytes(f.kind, 4), LeBytes(FlagWord(f), 4), LeBytes(f.offset, 8), LeBytes(f.vaddr, 8);
    var p := PlaceBytes(f);
    FieldReadBack([], f.kind, 4, w + o + v);
    assert p == [] + k + (w + o + v);
    FieldReadBack(k, FlagWord(f), 4, o + v);
    assert p == k + w + (o + v);
    FieldReadBack(k + w, f.offset, 8, v);
    assert p == (k + w) + o + v;
    FieldReadBack(k + w + o, f.vaddr, 8, []);
    assert p == (k + w + o) + v + [];
  }

  lemma SizeFieldsAt(f: PhdrFields)
    ensures var p := SizeBytes(f);
            && LittleEndian(p[8..16]) == f.filesz && LittleEndian(p[16..24]) == f.memsz
            && LittleEndian(p[24..32]) == f.align
  {
    hide LittleEndian, LeBytes, PowerOf256;
    EightBytes();
    var a, fs, ms, al := LeBytes(f.paddr, 8), LeBytes(f.filesz, 8), LeBytes(f.memsz, 8), LeBytes(f.align, 8);
    var p := SizeBytes(f);
    FieldReadBack(a, f.filesz, 8, ms + al);
    assert p == a + fs + (ms + al);
    FieldReadBack(a + fs, f.memsz, 8, al);
    assert p == (a + fs) + ms + al;
    FieldReadBack(a + fs + ms, f.align, 8, []);
    assert p == (a + fs + ms) + al + [];
  }

  lemma PhdrFieldsAt(f: PhdrFields)
    requires FieldsFit(f)
    ensures var p := PhdrBytes(f);
            && LittleEndian(p[0..4]) == f.kind && LittleEndian(p[4..8]) == FlagWord(f)
            && LittleEndian(p[8..16]) == f.offset && LittleEndian(p[16..24]) == f.vaddr
            && LittleEndian(p[32..40]) == f.filesz && LittleEndian(p[40..48]) == f.memsz
            && LittleEndian(p[48..56]) == f.align
  {
    hide LittleEndian, PlaceBytes, SizeBytes, FlagWord;
    PlaceFieldsAt(f);
    SizeFieldsAt(f);
    var p, a, b := PhdrBytes(f), PlaceBytes(f), SizeBytes(f);
    assert p[0..4] == a[0..4] && p[4..8] == a[4..8] && p[8..16] == a[8..16] && p[16..24] == a[16..24];
    assert p[32..40] == b[8..16] && p[40..48] == b[16..24] && p[48..56] == b[24..32];
  }

  /** The fields of the file header behind its identification. */
  datatype FileFields = FileFields(
    kind: nat, machine: nat, version: nat, entry: U64, phoff: U64, shoff: U64, flags: nat, ehsize: nat,
    phentsize: nat, phnum: nat, rest: seq<Byte>)

  predicate FileFieldsFit(f: FileFields) {
    && f.kind < 0x1_0000 && f.machine < 0x1_0000 && f.version < 0x1_0000_0000 && f.flags < 0x1_0000_0000
    && f.ehsize < 0x1_0000 && f.phentsize < 0x1_0000 && f.phnum < 0x1_0000 && |f.rest| == 6
  }

  /** A 64-bit little-endian file of version 1: 16 bytes of identification, 9 of them padding, and these fields. */
  function FileBytes(padding: seq<Byte>, f: FileFields): (b: seq<Byte>)
    requires |padding| == 9 && |f.rest| == 6
    ensures |b| == 64
  {
    FirstHalf(padding, f) + SecondHalf(f)
  }

  function FirstHalf(padding: seq<Byte>, f: FileFields): (b: seq<Byte>)
    requires |padding| == 9
    ensures |b| == 32
  {
    [0x7F, 0x45, 0x4C, 0x46, 2, 1, 1] + padding + LeBytes(f.kind, 2) + LeBytes(f.machine, 2) + LeBytes(f.version, 4)
    + LeBytes(f.entry, 8)
  }

  function SecondHalf(f: FileFields): (b: seq<Byte>)
    requires |f.rest| == 6
    ensures |b| == 32
  {
    LeBytes(f.phoff, 8) + LeBytes(f.shoff, 8) + LeBytes(f.flags, 4) + LeBytes(f.ehsize, 2) + LeBytes(f.phentsize, 2)
    + LeBytes(f.phnum, 2) + f.rest
  }

  lemma FirstFieldsAt(padding: seq<Byte>, f: FileFields)
    requires |padding| == 9 && FileFieldsFit(f)
    ensures var p := FirstHalf(padding, f);
            && p[..7] == [0x7F, 0x45, 0x4C, 0x46, 2, 1, 1]
            && LittleEndian(p[16..18]) == f.kind && LittleEndian(p[18..20]) == f.machine
            && LittleEndian(p[20..24]) == f.version && LittleEndian(p[24..32]) == f.entry
  {
    hide LittleEndian, LeBytes, PowerOf256;
    EightBytes();
    var id := [0x7F, 0x45, 0x4C, 0x46, 2, 1, 1] + padding;
    var k, m, v, e := LeBytes(f.kind, 2), LeBytes(f.machine, 2), LeBytes(f.version, 4), LeBytes(f.entry, 8);
    var p := FirstHalf(padding, f);
    FieldReadBack(id, f.kind, 2, m + v + e);
    assert p == id + k + (m + v + e);
    FieldReadBack(id + k, f.machine, 2, v + e);
    assert p == (id + k) + m + (v + e);
    FieldReadBack(id + k + m, f.version, 4, e);
    assert p == (id + k + m) + v + e;
    FieldReadBack(id + k + m + v, f.entry, 8, []);
    assert p == (id + k + m + v) + e + [];
  }

  lemma SecondFieldsAt(f: FileFields)
    requires FileFieldsFit(f)
    ensures var p := SecondHalf(f);
            && LittleEndian(p[0..8]) == f.phoff && LittleEndian(p[22..24]) == f.phentsize
            && LittleEndian(p[24..26]) == f.phnum
  {
    hide LittleEndian, LeBytes, PowerOf256;
    EightBytes();
    var ph, sh, fl := LeBytes(f.phoff, 8), LeBytes(f.shoff, 8), LeBytes(f.flags, 4);
    var eh, pe, pn := LeBytes(f.ehsize, 2), LeBytes(f.phentsize, 2), LeBytes(f.phnum, 2);
    var p := SecondHalf(f);
    FieldReadBack([], f.phoff, 8, sh + fl + eh + pe + pn + f.rest);
    assert p == [] + ph + (sh + fl + eh + pe + pn + f.rest);
    FieldReadBack(ph + sh + fl + eh, f.phentsize, 2, pn + f.rest);
    assert p == (ph + sh + fl + eh) + pe + (pn + f.rest);
    FieldReadBack(ph + sh + fl + eh + pe, f.phnum, 2, f.rest);
    assert p == (ph + sh + fl + eh + pe) + pn + f.rest;
  }

  lemma FileFieldsAt(padding: seq<Byte>, f: FileFields)
    requires |padding| == 9 && FileFieldsFit(f)
    ensures var p := FileBytes(padding, f);
            && p[..7] == [0x7F, 0x45, 0x4C, 0x46, 2, 1, 1]
            && LittleEndian(p[16..18]) == f.kind && LittleEndian(p[18..20]) == f.machine
            && LittleEndian(p[20..24]) == f.version && LittleEndian(p[24..32]) == f.entry
            && LittleEndian(p[32..40]) == f.phoff && LittleEndian(p[54..56]) == f.phentsize
            && LittleEndian(p[56..58]) == f.phnum
  {
    hide LittleEndian, FirstHalf, SecondHalf;
    FirstFieldsAt(padding, f);
    SecondFieldsAt(f);
    var p, a, b := FileBytes(padding, f), FirstHalf(padding, f), SecondHalf(f);
    assert p[..7] == a[..7] && p[16..18] == a[16..18] && p[18..20] == a[18..20] && p[20..24] == a[20..24];
    assert p[24..32] == a[24..32] && p[32..40] == b[0..8] && p[54..56] == b[22..24] && p[56..58] == b[24..26];
  }

  /** `parse` of a file with such a header: the checks, in their order, and the fields it keeps. */
  lemma ParseGivesBack(bytes: seq<Byte>, padding: seq<Byte>, f: FileFields)
    requires |padding| == 9 && FileFieldsFit(f) && 64 <= |bytes| < U64_LIMIT && bytes[..64] == FileBytes(padding, f)
    ensures Parse(bytes) ==
              if f.machine != EM_X86_64 then Err(UnsupportedMachine)
              else if f.kind != ET_EXEC && f.kind != ET_DYN then Err(UnsupportedType)
              else if f.version != 1 then Err(BadHeader)
              else if f.phentsize != 56 then Err(BadPhdrSize)
              else if f.phoff + 56 * f.phnum > |bytes| then Err(PhdrOutOfBounds)
              else Ok(Image(bytes, Header(f.kind, f.machine, f.version, f.entry, f.phoff, f.phnum, f.phentsize)))
  {
    hide LittleEndian, LeBytes, PowerOf256, FileBytes;
    FileFieldsAt(padding, f);
    var p := FileBytes(padding, f);
    assert bytes[..4] == p[..7][..4] && bytes[4] == p[..7][4] && bytes[5] == p[..7][5] && bytes[6] == p[..7][6];
    assert bytes[16..18] == p[16..18] && bytes[18..20] == p[18..20] && bytes[20..24] == p[20..24];
    assert bytes[24..32] == p[24..32] && bytes[32..40] == p[32..40];
    assert bytes[54..56] == p[54..56] && bytes[56..58] == p[56..58];
  }

  /** Only files with the identification are accepted. */
  lemma ParsedIsElf(bytes: seq<Byte>)
    requires Parse(bytes).Ok?
    ensures |bytes| >= 64 && bytes[..7] == [0x7F, 0x45, 0x4C, 0x46, 2, 1, 1] && Parse(bytes).value.bytes == bytes
  {
    assert bytes[..7] == bytes[..4] + [bytes[4], bytes[5], bytes[6]];
  }

  /** Parsing leaves no program header that cannot be read: `phdr` fails only past the last one. */
  lemma ParsedHeadersReadable(bytes: seq<Byte>, index: nat)
    requires Parse(bytes).Ok?
    ensures Parse(bytes).value.bytes == bytes
    ensures Phdr(Parse(bytes).value, index).Ok? <==> index < Parse(bytes).value.header.phnum
  {
    hide LittleEndian, PowerOf256;
  }

  function BytesAt(image: Image, offset: U64, length: U64): Result<seq<Byte>, ElfError> {
    if offset + length >= U64_LIMIT || offset + length > |image.bytes| then Err(SegmentOutOfBounds)
    else Ok(image.bytes[offset..offset + length])
  }

  /** The file offset of an address: its place in the first loadable segment whose file part covers it. */
  function AddressToFile(image: Image, address: U64, index: nat): Option<U64>
    decreases image.header.phnum - index
  {
    if index >= image.header.phnum then None
    else
      match Phdr(image, index)
      case Err(_) => None
      case Ok(ph) =>
        if ph.kind != PT_LOAD then AddressToFile(image, address, index + 1)
        else if ph.vaddr + ph.filesz >= U64_LIMIT then None
        else if ph.vaddr <= address < ph.vaddr + ph.filesz then CheckedAdd(ph.offset, address - ph.vaddr)
        else AddressToFile(image, address, index + 1)
  }

  /** An answer comes from a loadable segment that covers the address in the file. */
  lemma {:induction false} AddressToFileMeans(image: Image, address: U64, index: nat) returns (k: nat)
    requires AddressToFile(image, address, index).Some?
    ensures index <= k < image.header.phnum && Phdr(image, k).Ok?
    ensures var ph := Phdr(image, k).value;
            && ph.kind == PT_LOAD && ph.vaddr <= address < ph.vaddr + ph.filesz
            && AddressToFile(image, address, index) == Some(ph.offset + (address - ph.vaddr))
    decreases image.header.phnum - index
  {
    hide Phdr;
    var ph := Phdr(image, index).value;
    if ph.kind == PT_LOAD && ph.vaddr <= address < ph.vaddr + ph.filesz {
      k := index;
    } else {
      k := AddressToFileMeans(image, address, index + 1);
    }
  }

  /** The file part of a loadable segment covers the address. */
  predicate Covers(image: Image, k: nat, address: U64) {
    && Phdr(image, k).Ok?
    && var ph := Phdr(image, k).value;
    ph.kind == PT_LOAD && ph.vaddr <= address < ph.vaddr + ph.filesz
  }

  /** A header that can be read, and when it is a segment's ends within 64 bits, in memory and in the file. */
  predicate Bounded(image: Image, k: nat) {
    && Phdr(image, k).Ok?
    && var ph := Phdr(image, k).value;
    ph.kind == PT_LOAD ==> ph.vaddr + ph.filesz < U64_LIMIT && ph.offset + ph.filesz < U64_LIMIT
  }

  /** With headers in order there is an answer exactly for the addresses some segment covers. */
  lemma {:induction false} CoveredIff(image: Image, address: U64, index: nat)
    requires forall k :: index <= k < image.header.phnum ==> Bounded(image, k)
    ensures AddressToFile(image, address, index).Some? <==>
              exists k :: index <= k < image.header.phnum && Covers(image, k, address)
    decreases image.header.phnum - index
  {
    hide Phdr;
    if index < image.header.phnum {
      assert Bounded(image, index);
      if Covers(image, index, address) {
        assert AddressToFile(image, address, index).Some?;
      } else {
        CoveredIff(image, address, index + 1);
      }
    }
  }
}
