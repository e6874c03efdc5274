/** The ELF program loader (`kernel/program_loader.c`): the program headers are read into the same
    arena the segments are then copied to. */
module Loader {
  import opened Bits
  import opened Common

  const MAX_PROGRAM_SIZE := 0x10_0000
  const PAGE := 4096
  const ELF_HEADER_SIZE := 52
  const PHDR_SIZE := 32
  const ELF_MAGIC := 0x464C_457F
  const PT_LOAD := 1

  type Image = seq<Byte>

  type Half = x: int | 0 <= x < 0x1_0000

  // ----- Little-endian fields

  function U16(b: seq<Byte>, at: nat): Half
    requires at + 2 <= |b|
  {
    b[at] as int + 0x100 * b[at + 1] as int
  }

  function U32(b: seq<Byte>, at: nat): Word
    requires at + 4 <= |b|
  {
    b[at] as int + 0x100 * b[at + 1] as int + 0x1_0000 * b[at + 2] as int + 0x100_0000 * b[at + 3] as int
  }

  datatype Header = Header(magic: Word, elfClass: Byte, data: Byte, kind: Half, machine: Half,
                           entry: Word, phoff: Word, phentsize: Half, phnum: Half)

  function ParseHeader(b: seq<Byte>): Header
    requires |b| >= ELF_HEADER_SIZE
  {
    Header(U32(b, 0), b[4], b[5], U16(b, 16), U16(b, 18), U32(b, 24), U32(b, 28), U16(b, 42), U16(b, 44))
  }

  datatype Phdr = Phdr(kind: Word, offset: Word, vaddr: Word, filesz: Word, memsz: Word)

  function PhdrAt(b: seq<Byte>, at: nat): Phdr
    requires at + PHDR_SIZE <= |b|
  {
    Phdr(U32(b, at), U32(b, at + 4), U32(b, at + 8), U32(b, at + 16), U32(b, at + 20))
  }

  /** `program_validate_elf`: a 32-bit little-endian executable for the i386. */
  function ValidateElf(h: Header): (r: int)
    ensures r == 0 <==> h.magic == ELF_MAGIC && h.elfClass == 1 && h.data == 1 && h.kind == 2 && h.machine == 3
    ensures r == 0 || r == -1
  {
    if h.magic != ELF_MAGIC then -1
    else if h.elfClass != 1 then -1
    else if h.data != 1 then -1
    else if h.kind != 2 then -1
    else if h.machine != 3 then -1
    else 0
  }

  // ----- The program headers

  /** The header table: where it is in the file, its size in bytes, and the number of headers read from it. */
  datatype Table = Table(at: Word, size: Word, count: Half)

  function TableOf(h: Header): Table {
    ProductBound(h.phentsize, h.phnum);
    Table(h.phoff, h.phentsize * h.phnum, h.phnum)
  }

  function FileTable(file: Image): Table
    requires |file| >= ELF_HEADER_SIZE
  {
    TableOf(ParseHeader(file))
  }

  /** The product of two 16-bit values stays below 2^32. */
  lemma ProductBound(a: Half, b: Half)
    ensures 0 <= a * b <= 0xFFFF * 0xFFFF
  {
    AtMost(a, b, 0xFFFF);
    AtMost(b, 0xFFFF, 0xFFFF);
  }

  lemma AtMost(x: nat, y: nat, bound: nat)
    requires x <= bound
    ensures 0 <= x * y <= bound * y
  {
  }

  /** The file has the whole table it announces. */
  predicate HasPhdrs(file: Image, t: Table) {
    t.size == 0 || t.at + t.size <= |file|
  }

  /** The headers the loop reads, one every 32 bytes whatever `e_phentsize` says, lie in the table. */
  predicate TableHolds(t: Table) {
    PHDR_SIZE * t.count <= t.size
  }

  /** The program headers of a file, as the loop reads them. */
  function Phdrs(file: Image, t: Table): (ps: seq<Phdr>)
    requires HasPhdrs(file, t) && TableHolds(t)
    ensures |ps| == t.count
  {
    seq(t.count, i requires 0 <= i < t.count => PhdrAt(file, t.at + PHDR_SIZE * i))
  }

  /** They do exactly when there are none or entries have 32 bytes or more. */
  lemma TableHoldsExactly(h: Header)
    ensures TableHolds(TableOf(h)) <==> h.phnum == 0 || h.phentsize >= PHDR_SIZE
  {
    if h.phentsize >= PHDR_SIZE {
      AtMost(PHDR_SIZE, h.phnum, h.phentsize);
    } else {
      AtMost(h.phentsize, h.phnum, PHDR_SIZE - 1);
    }
  }

  /** Header `i` is read where the format places it, `e_phentsize` bytes behind the one before. */
  predicate HeaderInPlace(h: Header, i: nat) {
    PHDR_SIZE * i == h.phentsize * i
  }

  /** All are exactly when entries have 32 bytes or there is at most one. */
  lemma HeadersInPlaceExactly(h: Header)
    ensures (forall i: nat :: i < h.phnum ==> HeaderInPlace(h, i)) <==> h.phentsize == PHDR_SIZE || h.phnum <= 1
  {
    assert HeaderInPlace(h, 1) <==> h.phentsize == PHDR_SIZE;
  }

  predicate IsLoad(p: Phdr) {
    p.kind == PT_LOAD
  }

  // ----- Where the segments go

  function RoundUp(x: nat, a: nat): nat
    requires a > 0
  {
    (x + (a - 1)) / a * a
  }

  lemma AlignIsRoundUp(x: Word, a: Word, k: nat)
    requires a == Pow2(k) && x + a - 1 < TWO_TO_32
    ensures AlignUp(x, a) == RoundUp(x, a)
  {
    var y := x + a - 1;
    assert AlignUp(x, a) == y - And(y, a - 1) by { AlignUpIs(x, a); }
    LowBits(y, k, a);
    DivTimes(y, a);
  }

  lemma DivTimes(y: nat, a: nat)
    requires a > 0
    ensures y - y % a == y / a * a
  {
  }

  /** The bytes a segment's block takes: the loader copies it at its virtual address inside the block. */
  function BlockSize(p: Phdr): nat {
    p.vaddr + p.memsz
  }

  /** The end of the arena's used part after the segments `ps` were placed from `used` on. */
  function EndAfter(used: nat, ps: seq<Phdr>): (e: nat)
    ensures e >= used
  {
    if ps == [] then used
    else
      var e, p := EndAfter(used, ps[..|ps| - 1]), ps[|ps| - 1];
      RoundUpBounds(e);
      if IsLoad(p) then RoundUp(e, PAGE) + BlockSize(p) else e
  }

  function StartOf(used: nat, ps: seq<Phdr>, i: nat): nat
    requires i < |ps|
  {
    RoundUp(EndAfter(used, ps[..i]), PAGE)
  }

  lemma RoundUpBounds(x: nat)
    ensures x <= RoundUp(x, PAGE) <= x + PAGE - 1 && RoundUp(x, PAGE) % PAGE == 0
    ensures x <= RoundUp(x, 4) <= x + 3 && RoundUp(x, 4) % 4 == 0
  {
  }

  /** Segment `i` fits the arena and its bytes are in the file. */
  predicate SegmentFits(file: Image, used: nat, ps: seq<Phdr>, i: nat)
    requires i < |ps|
  {
    IsLoad(ps[i]) ==>
      && StartOf(used, ps, i) + BlockSize(ps[i]) <= MAX_PROGRAM_SIZE
      && (ps[i].filesz > 0 ==> ps[i].offset + ps[i].filesz <= |file|)
  }

  /** The arena holds segment `p` in the block at `start`: its file bytes, as many as it has memory for,
      then zeros. */
  ghost predicate Holds(arena: seq<Byte>, file: Image, start: nat, p: Phdr) {
    var at, n := start + p.vaddr, Min(p.filesz, p.memsz);
    && at + p.memsz <= |arena|
    && (n > 0 ==> p.offset + n <= |file| && arena[at..at + n] == file[p.offset..p.offset + n])
    && (forall k :: at + n <= k < at + p.memsz ==> arena[k] == 0)
  }

  // ----- What the loader asks of a file

  /** The bytes a read of `count` at `pos` delivers. */
  function Available(file: Image, pos: nat, count: nat): (n: nat)
    ensures n <= count && (n > 0 ==> pos + n <= |file|)
    ensures n == count <==> count == 0 || pos + count <= |file|
    ensures n < count ==> n == if pos < |file| then |file| - pos else 0
  {
    if pos >= |file| then 0 else Min(count, |file| - pos)
  }

  /** The arena gives out `size` bytes from `start` on: it decides by a sum taken in 32 bits. */
  predicate Granted(start: nat, size: Word) {
    Wrap(start + size) <= MAX_PROGRAM_SIZE
  }

  /** The loader writes a segment only inside the arena, and takes for it the block it needs. */
  predicate Contained(file: Image, p: Phdr, start: nat) {
    Granted(start, Wrap(BlockSize(p))) ==>
      && start + BlockSize(p) < TWO_TO_32
      && start + p.vaddr + Available(file, p.offset, p.filesz) <= MAX_PROGRAM_SIZE
  }

  /** So for every segment the loader gets to. */
  predicate AllContained(file: Image, top: nat, ps: seq<Phdr>) {
    forall i :: 0 <= i < |ps| && IsLoad(ps[i]) && (forall j :: 0 <= j < i ==> SegmentFits(file, top, ps, j)) ==>
      Contained(file, ps[i], StartOf(top, ps, i))
  }

  /** The table is granted the room it needs, and every header the loop reads from it is in it. */
  predicate TableContained(file: Image, t: Table, start: nat) {
    Granted(start, t.size) ==> start + t.size < TWO_TO_32 && (HasPhdrs(file, t) ==> TableHolds(t))
  }

  /** What `program_load` asks of a file, when `used` bytes of the arena are taken. */
  predicate GoodFile(file: Image, used: nat) {
    |file| >= ELF_HEADER_SIZE && ValidateElf(ParseHeader(file)) == 0 ==>
      GoodProgram(file, FileTable(file), RoundUp(used, 4))
  }

  predicate GoodProgram(file: Image, t: Table, start: nat) {
    && TableContained(file, t, start)
    && (Top(start, t) <= MAX_PROGRAM_SIZE && HasPhdrs(file, t) && TableHolds(t) ==>
         AllContained(file, Top(start, t), Phdrs(file, t)))
  }

  /** The end of the header table that starts at `start`; the segments come behind it. */
  function Top(start: nat, t: Table): nat {
    start + t.size
  }

  /** A segment granted a block lies in it exactly when it has no more file bytes than memory and the
      sums stay below 2^32. */
  lemma SegmentInBlockExactly(p: Phdr, start: nat)
    requires start <= MAX_PROGRAM_SIZE && Granted(start, Wrap(BlockSize(p)))
    ensures var end := Wrap(start + Wrap(BlockSize(p)));
      start + p.vaddr + Max(p.filesz, p.memsz) <= end <==> p.filesz <= p.memsz && start + BlockSize(p) < TWO_TO_32
  {
  }

  /** Two pages at 0xFFFFF000 are granted one page, and zeroed 4 GB behind it. */
  lemma WrappedSegment(file: Image)
    ensures var p := Phdr(PT_LOAD, 0, 0xFFFF_F000, 0, 0x2000);
      && Granted(0x1000, Wrap(BlockSize(p))) && Wrap(0x1000 + Wrap(BlockSize(p))) == 0x2000
      && !Contained(file, p, 0x1000)
  {
  }

  /** With twice as many file bytes as memory, the block ends in the middle of them. */
  lemma FileBytesOverrun()
    ensures var p := Phdr(PT_LOAD, 0, 0, 0x2000, 0x1000);
      Granted(0, Wrap(BlockSize(p))) && Wrap(0 + Wrap(BlockSize(p))) == 0x1000 && p.vaddr + p.filesz == 0x2000
  {
  }

  /** Four headers of 16 bytes take 64 bytes, of which the loop reads 128. */
  lemma ShortEntries()
    ensures var h := Header(ELF_MAGIC, 1, 1, 2, 3, 0, 52, 16, 4);
      TableOf(h).size == 64 && PHDR_SIZE * h.phnum == 128 && !TableHolds(TableOf(h))
  {
  }

  /** The second of two headers of 40 bytes is read 8 bytes early. */
  lemma LongEntries()
    ensures var h := Header(ELF_MAGIC, 1, 1, 2, 3, 0, 52, 40, 2);
      TableHolds(TableOf(h)) && !HeaderInPlace(h, 1)
  {
  }

  /** A segment of the format, with file bytes up to its memory size, needs only sums below 2^32. */
  lemma ContainedExactly(file: Image, p: Phdr, start: nat)
    requires start <= MAX_PROGRAM_SIZE && p.filesz <= p.memsz
    ensures Contained(file, p, start) <==> !Granted(start, Wrap(BlockSize(p))) || start + BlockSize(p) < TWO_TO_32
  {
    if start + BlockSize(p) < TWO_TO_32 {
      WrapSmall(BlockSize(p));
      WrapSmall(start + BlockSize(p));
    }
  }

  /** A header table granted its room holds every header the loop reads exactly when entries have 32
      bytes or more and the sum stays below 2^32. */
  lemma TableInBlockExactly(h: Header, start: nat)
    requires start <= MAX_PROGRAM_SIZE && Granted(start, TableOf(h).size)
    ensures start + Max(TableOf(h).size, PHDR_SIZE * h.phnum) <= Wrap(start + TableOf(h).size)
      <==> (h.phnum == 0 || h.phentsize >= PHDR_SIZE) && start + TableOf(h).size < TWO_TO_32
  {
    TableHoldsExactly(h);
    if start + TableOf(h).size < TWO_TO_32 {
      WrapSmall(start + TableOf(h).size);
    }
  }

  // ----- The span of the loaded addresses, as the loop updates it

  datatype Span = Span(base: Word, size: Word)

  const NO_SPAN := Span(0xFFFF_FFFF, 0)

  function Extend(s: Span, p: Phdr): Span {
    var base := if p.vaddr < s.base then p.vaddr else s.base;
    var end := Wrap(p.vaddr + p.memsz);
    Span(base, if end > Wrap(base + s.size) then Wrap(end - base) else s.size)
  }

  function SpanOf(ps: seq<Phdr>): Span {
    if ps == [] then NO_SPAN
    else
      var s, p := SpanOf(ps[..|ps| - 1]), ps[|ps| - 1];
      if IsLoad(p) then Extend(s, p) else s
  }

  // ----- The arena

  datatype Info = Info(entry: Word, base: Word, size: Word, stack: Word, loaded: bool)

  class ProgramLoader {
    const programMemory: array<Byte>
    var used: Word

    ghost predicate Valid()
      reads this
    {
      programMemory.Length == MAX_PROGRAM_SIZE && used <= MAX_PROGRAM_SIZE
    }

    /** `program_loader_init`. */
    constructor ()
      ensures Valid() && fresh(programMemory) && used == 0
    {
      programMemory := new Byte[MAX_PROGRAM_SIZE](_ => 0);
      used := 0;
    }

    /** An offset into the arena, or -1. */
    method AllocMemory(size: Word, alignment: Word) returns (ptr: int)
      modifies `used
      ensures var start := AlignUp(old(used), alignment);
        if Wrap(start + size) > MAX_PROGRAM_SIZE then ptr == -1 && used == old(used)
        else ptr == start && used == Wrap(start + size)
    {
      var alignedAddr := AlignUp(used, alignment);
      if Wrap(alignedAddr + size) > MAX_PROGRAM_SIZE {
        return -1;
      }
      ptr := alignedAddr;
      used := Wrap(alignedAddr + size);
    }

    /** Gives back the block only if it is the last one. */
    method FreeMemory(ptr: Word, size: Word)
      modifies `used
      ensures used == if Wrap(ptr + size) == old(used) then ptr else old(used)
    {
      if Wrap(ptr + size) == used {
        WrapBack(ptr, size);
        used := Wrap(used - size);
      }
    }

    /** `fs_seek` and `fs_read` into the arena: copies what the file has of the range. */
    method ReadFile(file: Image, pos: nat, at: nat, count: nat) returns (n: nat)
      requires at + Available(file, pos, count) <= programMemory.Length
      modifies programMemory
      ensures n == Available(file, pos, count)
      ensures n > 0 ==> pos + n <= |file| && programMemory[at..at + n] == file[pos..pos + n]
      ensures programMemory[..at] == old(programMemory[..at])
      ensures programMemory[at + n..] == old(programMemory[at + n..])
    {
      n := 0;
      while n < count && pos + n < |file|
        invariant n <= Available(file, pos, count)
        invariant forall k :: at <= k < at + n ==> programMemory[k] == file[pos + (k - at)]
        invariant programMemory[..at] == old(programMemory[..at])
        invariant programMemory[at + n..] == old(programMemory[at + n..])
      {
        programMemory[at + n] := file[pos + n];
        n := n + 1;
      }
      if n > 0 {
        var now, part := programMemory[at..at + n], file[pos..pos + n];
        assert forall k :: 0 <= k < n ==> now[k] == programMemory[at + k] == part[k];
        assert now == part;
      }
    }

    method Clear(from: nat, to: nat)
      requires from <= to <= programMemory.Length
      modifies programMemory
      ensures programMemory[..from] == old(programMemory[..from]) && programMemory[to..] == old(programMemory[to..])
      ensures forall k :: from <= k < to ==> programMemory[k] == 0
    {
      for n := from to to
        invariant programMemory[..from] == old(programMemory[..from])
        invariant programMemory[n..] == old(programMemory[n..])
        invariant forall k :: from <= k < n ==> programMemory[k] == 0
      {
        programMemory[n] := 0;
      }
    }

    /** The body of the segment loop once the span is updated. */
    method LoadSegment(file: Image, p: Phdr) returns (ok: bool)
      requires Valid() && Contained(file, p, RoundUp(used, PAGE))
      modifies `used, programMemory
      ensures Valid() && used >= old(used)
      ensures programMemory[..old(used)] == old(programMemory[..used])
      ensures var start := RoundUp(old(used), PAGE);
        && (ok <==> start + BlockSize(p) <= MAX_PROGRAM_SIZE && (p.filesz > 0 ==> p.offset + p.filesz <= |file|))
        && (ok ==> used == start + BlockSize(p) && Holds(programMemory[..], file, start, p))
    {
      ghost var below, top := programMemory[..used], used;
      BlockStart(file, used, p);
      var segment := AllocMemory(Wrap(p.vaddr + p.memsz), PAGE);
      if segment == -1 {
        return false;
      }
      ok := FillSegment(file, p, segment);
      PrefixKept(programMemory[..], segment, top, below);
    }

    /** Reads the segment's file bytes into its block and zeroes the rest of its memory. */
    method FillSegment(file: Image, p: Phdr, segment: nat) returns (ok: bool)
      requires segment + BlockSize(p) <= programMemory.Length
      requires segment + p.vaddr + Available(file, p.offset, p.filesz) <= programMemory.Length
      modifies programMemory
      ensures programMemory[..segment] == old(programMemory[..segment])
      ensures ok <==> (p.filesz > 0 ==> p.offset + p.filesz <= |file|)
      ensures ok ==> Holds(programMemory[..], file, segment, p)
    {
      ghost var below := programMemory[..segment];
      var at := segment + p.vaddr;
      if p.filesz > 0 {
        var n := ReadFile(file, p.offset, at, p.filesz);
        PrefixKept(programMemory[..], at, segment, below);
        if n != p.filesz {
          return false;
        }
        ReadPrefix(programMemory[..], file, at, p);
      }
      if p.memsz > p.filesz {
        ZeroRest(file, p, segment);
      } else {
        assert Holds(programMemory[..], file, segment, p);
      }
      return true;
    }

    /** Zeroes the memory behind the file bytes. */
    method ZeroRest(ghost file: Image, p: Phdr, segment: nat)
      requires segment + BlockSize(p) <= programMemory.Length && p.filesz < p.memsz
      requires var at := segment + p.vaddr;
        p.filesz > 0 ==> p.offset + p.filesz <= |file| && programMemory[at..at + p.filesz] == file[p.offset..p.offset + p.filesz]
      modifies programMemory
      ensures programMemory[..segment] == old(programMemory[..segment]) && Holds(programMemory[..], file, segment, p)
    {
      ghost var below := programMemory[..segment];
      var at := segment + p.vaddr;
      Clear(at + p.filesz, at + p.memsz);
      PrefixKept(programMemory[..], at + p.filesz, segment, below);
      assert programMemory[at..at + p.filesz] == programMemory[..at + p.filesz][at..];
      ClearedHolds(programMemory[..], file, segment, p);
    }

    /** Header `i` as the loop reads it from the arena. */
    method ReadHeader(ghost file: Image, ghost t: Table, phdrs: nat, i: nat, ghost below: seq<Byte>) returns (p: Phdr)
      requires Valid() && IsTable(file, t, below, phdrs) && i < t.count
      requires |below| <= MAX_PROGRAM_SIZE && programMemory[..|below|] == below
      ensures p == Phdrs(file, t)[i]
    {
      PhdrCopied(file, t, programMemory[..], below, phdrs, i);
      p := PhdrAt(programMemory[phdrs + PHDR_SIZE * i..phdrs + PHDR_SIZE * (i + 1)], 0);
    }

    /** One round of the segment loop, for a loadable header. */
    method NextSegment(file: Image, p: Phdr, span: Span, ghost top: nat, ghost ps: seq<Phdr>, ghost below: seq<Byte>, ghost i: nat)
      returns (ok: bool, u: Span)
      requires Valid() && i < |ps| && p == ps[i] && IsLoad(p) && AllContained(file, top, ps)
      requires Loaded(programMemory[..], used, span, file, top, ps, below, i)
      modifies `used, programMemory
      ensures Valid() && used >= top
      ensures ok ==> Loaded(programMemory[..], used, u, file, top, ps, below, i + 1)
      ensures !ok ==> programMemory[..top] == below && !SegmentFits(file, top, ps, i)
    {
      ghost var before, end := programMemory[..], used;
      assert Contained(file, p, RoundUp(used, PAGE));
      u := Extend(span, p);
      ok := LoadSegment(file, p);
      assert before[..end] == programMemory[..end];
      if ok {
        LoadedStep(before, programMemory[..], end, span, file, top, ps, below, i);
      } else {
        FailedAt(before, programMemory[..], end, span, file, top, ps, below, i);
      }
    }

    /** The segment loop: reads each program header from the arena and loads what it describes. */
    method LoadSegments(file: Image, t: Table, phdrs: nat) returns (ok: bool, span: Span)
      requires Valid()
      requires IsTable(file, t, programMemory[..used], phdrs)
      requires AllContained(file, used, Phdrs(file, t))
      modifies `used, programMemory
      ensures Valid() && used >= old(used) && programMemory[..old(used)] == old(programMemory[..used])
      ensures ok <==> forall i :: 0 <= i < t.count ==> SegmentFits(file, old(used), Phdrs(file, t), i)
      ensures ok ==> used == EndAfter(old(used), Phdrs(file, t)) && span == SpanOf(Phdrs(file, t))
      ensures ok ==> AllHold(programMemory[..], file, old(used), Phdrs(file, t), t.count)
    {
      ghost var ps, top, below := Phdrs(file, t), used, programMemory[..used];
      span := NO_SPAN;
      for i := 0 to t.count
        invariant Valid()
        invariant Loaded(programMemory[..], used, span, file, top, ps, below, i)
      {
        var p := ReadHeader(file, t, phdrs, i, below);
        if p.kind == PT_LOAD {
          ok, span := NextSegment(file, p, span, top, ps, below, i);
          if !ok {
            return false, span;
          }
        } else {
          SkippedStep(programMemory[..], used, span, file, top, ps, below, i);
        }
      }
      assert ps[..t.count] == ps;
      return true, span;
    }

    /** Makes room for `size` bytes of program headers at `start` and reads them; -1 when either fails. */
    method ReadHeaders(file: Image, phoff: Word, size: Word, ghost start: nat) returns (phdrs: int)
      requires Valid() && used <= start == AlignUp(used, 4) <= MAX_PROGRAM_SIZE + 3
      requires Granted(start, size) ==> start + size < TWO_TO_32
      modifies `used, programMemory
      ensures Valid() && used >= old(used) && programMemory[..old(used)] == old(programMemory[..used])
      ensures phdrs == -1 <==> !(start + size <= MAX_PROGRAM_SIZE && (size == 0 || phoff + size <= |file|))
      ensures phdrs != -1 ==> phdrs == start && used == start + size
      ensures phdrs != -1 && size > 0 ==> programMemory[phdrs..used] == file[phoff..phoff + size]
    {
      GrantedExactly(start, size);
      phdrs := AllocMemory(size, 4);
      if phdrs == -1 {
        return;
      }
      var bytesRead := ReadFile(file, phoff, phdrs, size);
      PrefixKept(programMemory[..], phdrs, old(used), old(programMemory[..used]));
      if bytesRead != size {
        FreeMemory(phdrs, size);
        phdrs := -1;
      }
    }

    /** The segment loop and the release of the header table, which gives it back only when no block
        follows it. */
    method LoadProgram(file: Image, t: Table, phdrs: nat) returns (ok: bool, span: Span)
      requires Valid()
      requires IsTable(file, t, programMemory[..used], phdrs) && GoodProgram(file, t, phdrs)
      modifies `used, programMemory
      ensures Valid() && used >= phdrs && programMemory[..old(used)] == old(programMemory[..used])
      ensures ok <==> ProgramFits(file, t, phdrs)
      ensures ok ==> IsPlaced(programMemory[..], used, span, file, t, phdrs)
    {
      ghost var top, ps := used, Phdrs(file, t);
      ok, span := LoadSegments(file, t, phdrs);
      FreeMemory(phdrs, t.size);
      assert ok ==> SegmentsPlaced(programMemory[..], used, span, file, ps, phdrs, top);
      assert top == Top(phdrs, t) && programMemory[..][..top] == programMemory[..top];
    }

    /** `program_load` behind a valid header. */
    method LoadImage(file: Image, entry: Word, t: Table, previous: Info, ghost start: nat) returns (r: int, info: Info)
      requires Valid() && GoodProgram(file, t, start)
      requires used <= start == AlignUp(used, 4) <= MAX_PROGRAM_SIZE + 3
      modifies `used, programMemory
      ensures Valid() && used >= old(used)
      ensures programMemory[..old(used)] == old(programMemory[..used])
      ensures r == 0 <==> ProgramFits(file, t, start)
      ensures r == 0 ==> IsLoaded(programMemory[..], used, info, file, t, entry, start)
      ensures r != 0 ==> r == -1 && (info == previous || !info.loaded)
    {
      info := previous;
      var phdrs := ReadHeaders(file, t.at, t.size, start);
      if phdrs == -1 {
        return -1, info;
      }
      ghost var top := used;
      info := Info(entry, 0xFFFF_FFFF, 0, 8192, false);
      var ok, span := LoadProgram(file, t, phdrs);
      PrefixKept(programMemory[..], top, old(used), old(programMemory[..used]));
      info := info.(base := span.base, size := span.size);
      if !ok {
        return -1, info;
      }
      info := info.(loaded := true);
      return 0, info;
    }

    /** `program_load`; `file` is `None` when it cannot be opened, `previous` what `prog_info` held before. */
    method Load(file: Option<Image>, previous: Info) returns (r: int, info: Info)
      requires Valid() && (file.Some? ==> GoodFile(file.value, used))
      modifies `used, programMemory
      ensures Valid() && used >= old(used)
      ensures programMemory[..old(used)] == old(programMemory[..used])
      ensures r == 0 <==> file.Some? && Loadable(file.value, old(used))
      ensures r == 0 ==>
        var entry := ParseHeader(file.value).entry;
        IsLoaded(programMemory[..], used, info, file.value, FileTable(file.value), entry, RoundUp(old(used), 4))
      ensures r != 0 ==> r == -1 && (info == previous || !info.loaded)
    {
      info := previous;
      if file.None? {
        return -1, info;
      }
      var image := file.value;
      if |image| < ELF_HEADER_SIZE {
        return -1, info;
      }
      var h := ParseHeader(image);
      if ValidateElf(h) != 0 {
        return -1, info;
      }
      AlignToWord(used);
      RoundUpBounds(used);
      r, info := LoadImage(image, h.entry, TableOf(h), previous, RoundUp(used, 4));
    }
  }

  /** The table and every loadable segment find room in the arena and their bytes in the file. */
  predicate ProgramFits(file: Image, t: Table, start: nat) {
    && Top(start, t) <= MAX_PROGRAM_SIZE
    && HasPhdrs(file, t) && TableHolds(t)
    && forall i :: 0 <= i < t.count ==> SegmentFits(file, Top(start, t), Phdrs(file, t), i)
  }

  /** What `program_load` needs to succeed: a valid header and a program that fits. */
  predicate Loadable(file: Image, used: nat) {
    && |file| >= ELF_HEADER_SIZE
    && ValidateElf(ParseHeader(file)) == 0
    && ProgramFits(file, FileTable(file), RoundUp(used, 4))
  }

  /** What a successful load leaves: the header table as the file has it, every segment in its block,
      the arena's end behind the last block, and the description of the program. */
  ghost predicate IsLoaded(arena: seq<Byte>, used: nat, info: Info, file: Image, t: Table, entry: Word, start: nat) {
    && IsPlaced(arena, used, Span(info.base, info.size), file, t, start)
    && info == Info(entry, info.base, info.size, 8192, true)
  }

  ghost predicate IsPlaced(arena: seq<Byte>, used: nat, span: Span, file: Image, t: Table, start: nat) {
    && HasPhdrs(file, t) && TableHolds(t)
    && Top(start, t) <= |arena|
    && IsTable(file, t, arena[..Top(start, t)], start)
    && SegmentsPlaced(arena, used, span, file, Phdrs(file, t), start, Top(start, t))
  }

  ghost predicate SegmentsPlaced(arena: seq<Byte>, used: nat, span: Span, file: Image, ps: seq<Phdr>, start: nat, top: nat) {
    && AllHold(arena, file, top, ps, |ps|)
    && used == (if EndAfter(top, ps) == top then start else EndAfter(top, ps))
    && span == SpanOf(ps)
  }

  lemma ClearedHolds(arena: seq<Byte>, file: Image, start: nat, p: Phdr)
    requires p.filesz < p.memsz && start + BlockSize(p) <= |arena|
    requires var at := start + p.vaddr;
      && (p.filesz > 0 ==> p.offset + p.filesz <= |file| && arena[at..at + p.filesz] == file[p.offset..p.offset + p.filesz])
      && forall k :: at + p.filesz <= k < at + p.memsz ==> arena[k] == 0
    ensures Holds(arena, file, start, p)
  {
  }

  lemma WrapBack(ptr: Word, size: Word)
    ensures Wrap(Wrap(ptr + size) - size) == ptr
  {
  }

  lemma GrantedExactly(start: nat, size: Word)
    requires Granted(start, size) ==> start + size < TWO_TO_32
    ensures Granted(start, size) <==> start + size <= MAX_PROGRAM_SIZE
    ensures start + size <= MAX_PROGRAM_SIZE ==> Wrap(start + size) == start + size
  {
    if start + size < TWO_TO_32 {
      WrapSmall(start + size);
    }
  }

  /** The arena's used part `below` ends with the file's header table, read to `phdrs`. */
  ghost predicate IsTable(file: Image, t: Table, below: seq<Byte>, phdrs: nat) {
    && HasPhdrs(file, t) && TableHolds(t)
    && |below| == phdrs + t.size
    && (t.size > 0 ==> below[phdrs..] == file[t.at..t.at + t.size])
  }

  /** The bytes a block keeps of what was read. */
  lemma ReadPrefix(arena: seq<Byte>, file: Image, at: nat, p: Phdr)
    requires at + p.filesz <= |arena| && p.offset + p.filesz <= |file|
    requires arena[at..at + p.filesz] == file[p.offset..p.offset + p.filesz]
    ensures var n := Min(p.filesz, p.memsz); arena[at..at + n] == file[p.offset..p.offset + n]
  {
    var n := Min(p.filesz, p.memsz);
    Subslice(arena, at, at + p.filesz, 0, n);
    Subslice(file, p.offset, p.offset + p.filesz, 0, n);
  }

  /** The first `i` headers are done: the state of the segment loop. */
  ghost predicate Loaded(arena: seq<Byte>, used: nat, span: Span, file: Image, top: nat, ps: seq<Phdr>, below: seq<Byte>, i: nat) {
    && i <= |ps| && top <= used <= |arena|
    && used == EndAfter(top, ps[..i]) && span == SpanOf(ps[..i])
    && arena[..top] == below
    && (forall j :: 0 <= j < i ==> SegmentFits(file, top, ps, j))
    && AllHold(arena, file, top, ps, i)
  }

  lemma SkippedStep(arena: seq<Byte>, used: nat, span: Span, file: Image, top: nat, ps: seq<Phdr>, below: seq<Byte>, i: nat)
    requires i < |ps| && Loaded(arena, used, span, file, top, ps, below, i) && !IsLoad(ps[i])
    ensures Loaded(arena, used, span, file, top, ps, below, i + 1)
  {
    assert ps[..i + 1][..i] == ps[..i];
  }

  lemma LoadedStep(before: seq<Byte>, after: seq<Byte>, used: nat, span: Span, file: Image, top: nat, ps: seq<Phdr>, below: seq<Byte>, i: nat)
    requires i < |ps| && Loaded(before, used, span, file, top, ps, below, i) && IsLoad(ps[i])
    requires |before| == |after| == MAX_PROGRAM_SIZE && before[..used] == after[..used]
    requires SegmentFits(file, top, ps, i) && Holds(after, file, RoundUp(used, PAGE), ps[i])
    ensures Loaded(after, RoundUp(used, PAGE) + BlockSize(ps[i]), Extend(span, ps[i]), file, top, ps, below, i + 1)
  {
    assert ps[..i + 1][..i] == ps[..i];
    assert after[..used][..top] == after[..top] && before[..used][..top] == before[..top];
    AllHoldKept(before, after, used, file, top, ps, i);
    RoundUpBounds(used);
  }

  lemma FailedAt(before: seq<Byte>, after: seq<Byte>, used: nat, span: Span, file: Image, top: nat, ps: seq<Phdr>, below: seq<Byte>, i: nat)
    requires i < |ps| && Loaded(before, used, span, file, top, ps, below, i) && IsLoad(ps[i])
    requires |before| == |after| && before[..used] == after[..used]
    requires RoundUp(used, PAGE) + BlockSize(ps[i]) > MAX_PROGRAM_SIZE || (ps[i].filesz > 0 && ps[i].offset + ps[i].filesz > |file|)
    ensures after[..top] == below && !SegmentFits(file, top, ps, i)
  {
    assert after[..used][..top] == after[..top] && before[..used][..top] == before[..top];
  }

  /** Every loadable segment before `n` stands in its block. */
  ghost predicate AllHold(arena: seq<Byte>, file: Image, used: nat, ps: seq<Phdr>, n: nat)
    requires n <= |ps|
  {
    forall j :: 0 <= j < n && IsLoad(ps[j]) ==> Holds(arena, file, StartOf(used, ps, j), ps[j])
  }

  /** The header read back from the arena is the file's. */
  lemma PhdrCopied(file: Image, t: Table, arena: seq<Byte>, below: seq<Byte>, phdrs: nat, i: nat)
    requires IsTable(file, t, below, phdrs) && i < t.count
    requires |below| <= |arena| && arena[..|below|] == below
    ensures phdrs + PHDR_SIZE * (i + 1) <= |below|
    ensures PhdrAt(arena[phdrs + PHDR_SIZE * i..phdrs + PHDR_SIZE * (i + 1)], 0) == Phdrs(file, t)[i]
  {
    var a, b, f := phdrs + PHDR_SIZE * i, arena[phdrs + PHDR_SIZE * i..phdrs + PHDR_SIZE * (i + 1)], t.at + PHDR_SIZE * i;
    forall k | 0 <= k < PHDR_SIZE ensures b[k] == file[f + k] {
      assert b[k] == below[a + k] == below[phdrs..][PHDR_SIZE * i + k];
    }
  }

  lemma EndMonotone(used: nat, ps: seq<Phdr>, i: nat, j: nat)
    requires i <= j <= |ps|
    ensures EndAfter(used, ps[..i]) <= EndAfter(used, ps[..j])
  {
    if i < j {
      EndMonotone(used, ps, i, j - 1);
      assert ps[..j][..j - 1] == ps[..j - 1];
      RoundUpBounds(EndAfter(used, ps[..j - 1]));
    }
  }

  lemma BlockEnds(used: nat, ps: seq<Phdr>, i: nat, n: nat)
    requires i < n <= |ps| && IsLoad(ps[i])
    ensures StartOf(used, ps, i) + BlockSize(ps[i]) <= EndAfter(used, ps[..n])
  {
    assert ps[..i + 1][..i] == ps[..i];
    EndMonotone(used, ps, i + 1, n);
  }

  lemma HoldsKept(before: seq<Byte>, after: seq<Byte>, end: nat, file: Image, start: nat, p: Phdr)
    requires Holds(before, file, start, p) && start + BlockSize(p) <= end <= |before| == |after|
    requires before[..end] == after[..end]
    ensures Holds(after, file, start, p)
  {
    assert forall k :: 0 <= k < end ==> before[..end][k] == before[k] && after[..end][k] == after[k];
  }

  lemma AllHoldKept(before: seq<Byte>, after: seq<Byte>, end: nat, file: Image, used: nat, ps: seq<Phdr>, n: nat)
    requires n <= |ps| && AllHold(before, file, used, ps, n) && EndAfter(used, ps[..n]) == end <= |before| == |after|
    requires before[..end] == after[..end]
    ensures AllHold(after, file, used, ps, n)
  {
    forall j | 0 <= j < n && IsLoad(ps[j]) ensures Holds(after, file, StartOf(used, ps, j), ps[j]) {
      BlockEnds(used, ps, j, n);
      HoldsKept(before, after, end, file, StartOf(used, ps, j), ps[j]);
    }
  }

  lemma PrefixKept(now: seq<Byte>, at: nat, top: nat, below: seq<Byte>)
    requires top <= at <= |now| && |below| == top && now[..at][..top] == below
    ensures now[..top] == below
  {
    assert now[..at][..top] == now[..top];
  }

  lemma BlockStart(file: Image, used: Word, p: Phdr)
    requires used <= MAX_PROGRAM_SIZE && Contained(file, p, RoundUp(used, PAGE))
    ensures AlignUp(used, PAGE) == RoundUp(used, PAGE) >= used
    ensures var start := RoundUp(used, PAGE);
      && (Granted(start, Wrap(BlockSize(p))) <==> start + BlockSize(p) <= MAX_PROGRAM_SIZE)
      && (start + BlockSize(p) <= MAX_PROGRAM_SIZE ==> Wrap(start + Wrap(BlockSize(p))) == start + BlockSize(p))
  {
    AlignToPage(used);
    var start := RoundUp(used, PAGE);
    assert used <= start by { RoundUpBounds(used); }
    if start + BlockSize(p) < TWO_TO_32 {
      WrapSmall(BlockSize(p));
      WrapSmall(start + BlockSize(p));
    }
  }

  lemma AlignToPage(x: Word)
    requires x <= MAX_PROGRAM_SIZE
    ensures AlignUp(x, PAGE) == RoundUp(x, PAGE)
  {
    Pow2At32();
    AlignIsRoundUp(x, PAGE, 12);
  }

  lemma AlignToWord(x: Word)
    requires x <= MAX_PROGRAM_SIZE
    ensures AlignUp(x, 4) == RoundUp(x, 4)
  {
    assert Pow2(2) == 4;
    AlignIsRoundUp(x, 4, 2);
  }

  // ----- The blocks

  /** The blocks of a program that fits are page aligned within the arena, lie behind the header table and
      before the arena's end, and follow one another without overlap. */
  lemma BlocksDisjoint(file: Image, t: Table, start: nat, i: nat, j: nat)
    requires ProgramFits(file, t, start) && i < j < t.count
    ensures var top, ps := Top(start, t), Phdrs(file, t);
      IsLoad(ps[i]) && IsLoad(ps[j]) ==>
        && StartOf(top, ps, i) % PAGE == 0 && StartOf(top, ps, j) % PAGE == 0
        && top <= StartOf(top, ps, i)
        && StartOf(top, ps, i) + BlockSize(ps[i]) <= StartOf(top, ps, j)
        && StartOf(top, ps, j) + BlockSize(ps[j]) <= MAX_PROGRAM_SIZE
  {
    var top, ps := Top(start, t), Phdrs(file, t);
    RoundUpBounds(EndAfter(top, ps[..i]));
    RoundUpBounds(EndAfter(top, ps[..j]));
    assert SegmentFits(file, top, ps, j);
    if IsLoad(ps[i]) {
      BlockEnds(top, ps, i, j);
    }
  }

  // ----- The span

  function EndOf(p: Phdr): int {
    p.vaddr + p.memsz
  }

  /** The end of the highest segment. */
  function MaxEnd(ls: seq<Phdr>): (m: int)
    requires ls != []
    ensures forall i :: 0 <= i < |ls| ==> EndOf(ls[i]) <= m
    ensures exists i :: 0 <= i < |ls| && EndOf(ls[i]) == m
  {
    var n := |ls| - 1;
    if n == 0 then EndOf(ls[0])
    else
      var m := MaxEnd(ls[..n]);
      assert forall i :: 0 <= i < n ==> ls[..n][i] == ls[i];
      if EndOf(ls[n]) > m then EndOf(ls[n]) else m
  }

  /** The index of the first segment with the lowest address. */
  function Lowest(ls: seq<Phdr>): (k: nat)
    requires ls != []
    ensures k < |ls|
    ensures forall i :: 0 <= i < |ls| ==> ls[k].vaddr <= ls[i].vaddr
    ensures forall i :: 0 <= i < k ==> ls[k].vaddr < ls[i].vaddr
  {
    var n := |ls| - 1;
    if n == 0 then 0
    else
      var k := Lowest(ls[..n]);
      assert forall i :: 0 <= i < n ==> ls[..n][i] == ls[i];
      if ls[n].vaddr < ls[k].vaddr then n else k
  }

  /** Loadable segments that end below 2^32, as those of a file that loads do. */
  predicate AllGoodLoads(ls: seq<Phdr>) {
    forall i :: 0 <= i < |ls| ==> IsLoad(ls[i]) && EndOf(ls[i]) < TWO_TO_32
  }

  /** The base is the lowest address; the end lies between the highest end from the lowest segment on
      and the highest end of all, and reaches the latter only when the former does. */
  ghost predicate SpanBetween(s: Span, ls: seq<Phdr>)
    requires ls != []
  {
    var k := Lowest(ls);
    && s.base == ls[k].vaddr
    && MaxEnd(ls[k..]) <= s.base + s.size <= MaxEnd(ls)
    && (s.base + s.size == MaxEnd(ls) ==> MaxEnd(ls[k..]) == MaxEnd(ls))
  }

  lemma {:induction false} SpanBounds(ls: seq<Phdr>)
    requires ls != [] && AllGoodLoads(ls)
    ensures SpanBetween(SpanOf(ls), ls)
  {
    var n := |ls| - 1;
    var before, p := ls[..n], ls[n];
    assert ls == before + [p];
    if n == 0 {
      assert ls == [p] && ls[0..] == ls && SpanOf(before) == NO_SPAN;
      ExtendMeaning(NO_SPAN, p);
    } else {
      SpanBounds(before);
      SpanStep(before, p);
    }
  }

  lemma MaxEndSnoc(ls: seq<Phdr>, p: Phdr)
    requires ls != []
    ensures MaxEnd(ls + [p]) == if EndOf(p) > MaxEnd(ls) then EndOf(p) else MaxEnd(ls)
  {
    assert (ls + [p])[..|ls|] == ls;
  }

  lemma LowestSnoc(ls: seq<Phdr>, p: Phdr)
    requires ls != []
    ensures Lowest(ls + [p]) == if p.vaddr < ls[Lowest(ls)].vaddr then |ls| else Lowest(ls)
  {
    assert (ls + [p])[..|ls|] == ls;
  }

  lemma SpanStep(ls: seq<Phdr>, p: Phdr)
    requires ls != [] && AllGoodLoads(ls) && IsLoad(p) && EndOf(p) < TWO_TO_32
    requires SpanBetween(SpanOf(ls), ls)
    ensures SpanBetween(SpanOf(ls + [p]), ls + [p])
  {
    var ms, s := ls + [p], SpanOf(ls);
    assert SpanOf(ms) == Extend(s, p) by { assert ms[..|ls|] == ls; }
    EndBelowWrap(ls);
    ExtendMeaning(s, p);
    if p.vaddr < s.base {
      SpanLowered(ls, s, p, Extend(s, p));
    } else {
      SpanKept(ls, s, p, Extend(s, p));
    }
  }

  lemma SpanLowered(ls: seq<Phdr>, s: Span, p: Phdr, u: Span)
    requires ls != [] && SpanBetween(s, ls) && p.vaddr < s.base && u.base == p.vaddr
    requires u.base + u.size == if EndOf(p) > u.base + s.size then EndOf(p) else u.base + s.size
    ensures SpanBetween(u, ls + [p])
  {
    MaxEndSnoc(ls, p);
    LowestSnoc(ls, p);
    assert (ls + [p])[|ls|..] == [p] && MaxEnd([p]) == EndOf(p);
  }

  lemma SpanKept(ls: seq<Phdr>, s: Span, p: Phdr, u: Span)
    requires ls != [] && SpanBetween(s, ls) && p.vaddr >= s.base && u.base == s.base
    requires u.base + u.size == if EndOf(p) > u.base + s.size then EndOf(p) else u.base + s.size
    ensures SpanBetween(u, ls + [p])
  {
    var k := Lowest(ls);
    LowestSnoc(ls, p);
    MaxEndSnoc(ls, p);
    MaxEndTail(ls, k, p);
  }

  lemma MaxEndTail(ls: seq<Phdr>, k: nat, p: Phdr)
    requires k < |ls|
    ensures (ls + [p])[k] == ls[k]
    ensures MaxEnd((ls + [p])[k..]) == if EndOf(p) > MaxEnd(ls[k..]) then EndOf(p) else MaxEnd(ls[k..])
  {
    assert (ls + [p])[k..] == ls[k..] + [p];
    MaxEndSnoc(ls[k..], p);
  }

  lemma ExtendMeaning(s: Span, p: Phdr)
    requires IsLoad(p) && EndOf(p) < TWO_TO_32 && s.base + s.size < TWO_TO_32
    ensures var u := Extend(s, p);
      && u.base == (if p.vaddr < s.base then p.vaddr else s.base)
      && u.base + u.size == (if EndOf(p) > u.base + s.size then EndOf(p) else u.base + s.size)
  {
    var base := if p.vaddr < s.base then p.vaddr else s.base;
    WrapSmall(p.vaddr + p.memsz);
    WrapSmall(base + s.size);
    if EndOf(p) > base + s.size {
      WrapSmall(EndOf(p) - base);
    }
  }

  lemma EndBelowWrap(ls: seq<Phdr>)
    requires ls != [] && AllGoodLoads(ls)
    ensures MaxEnd(ls) < TWO_TO_32
  {
  }

  /** The base and size the loader reports describe the smallest interval that covers all segments
      exactly when no segment before the first lowest one reaches further than all those from it on:
      lowering the base never extends the size again. */
  lemma SpanExactly(ls: seq<Phdr>)
    requires ls != [] && AllGoodLoads(ls)
    ensures var s, k := SpanOf(ls), Lowest(ls);
      (s.base == ls[k].vaddr && s.base + s.size == MaxEnd(ls))
        <==> forall i :: 0 <= i < k ==> EndOf(ls[i]) <= MaxEnd(ls[k..])
  {
    SpanBounds(ls);
    var k := Lowest(ls);
    MaxEndSplit(ls, k);
  }

  lemma MaxEndSplit(ls: seq<Phdr>, k: nat)
    requires k < |ls|
    ensures MaxEnd(ls[k..]) == MaxEnd(ls) <==> forall i :: 0 <= i < k ==> EndOf(ls[i]) <= MaxEnd(ls[k..])
  {
    assert forall j :: 0 <= j < |ls[k..]| ==> ls[k..][j] == ls[k + j];
    var i :| 0 <= i < |ls| && EndOf(ls[i]) == MaxEnd(ls);
    assert i >= k ==> ls[k..][i - k] == ls[i];
  }

  /** In particular when the addresses ascend, as the format prescribes. */
  lemma SpanOfAscending(ls: seq<Phdr>)
    requires ls != [] && AllGoodLoads(ls)
    requires forall i, j :: 0 <= i < j < |ls| ==> ls[i].vaddr <= ls[j].vaddr
    ensures SpanOf(ls).base == ls[0].vaddr && SpanOf(ls).base + SpanOf(ls).size == MaxEnd(ls)
  {
    assert Lowest(ls) == 0;
    SpanExactly(ls);
  }

  /** Headers that are not loadable leave the span alone. */
  function Loads(ps: seq<Phdr>): seq<Phdr> {
    if ps == [] then []
    else Loads(ps[..|ps| - 1]) + (if IsLoad(ps[|ps| - 1]) then [ps[|ps| - 1]] else [])
  }

  lemma {:induction false} SpanOfLoads(ps: seq<Phdr>)
    ensures SpanOf(ps) == SpanOf(Loads(ps))
    ensures (forall i :: 0 <= i < |ps| && IsLoad(ps[i]) ==> EndOf(ps[i]) < TWO_TO_32) ==> AllGoodLoads(Loads(ps))
  {
    if ps != [] {
      var n := |ps| - 1;
      SpanOfLoads(ps[..n]);
      if IsLoad(ps[n]) {
        assert Loads(ps)[..|Loads(ps)| - 1] == Loads(ps[..n]);
      } else {
        assert Loads(ps) == Loads(ps[..n]);
      }
    }
  }

  /** For every program that fits, the span reported describes its loadable segments under that very
      condition. */
  lemma LoadedSpanExactly(file: Image, t: Table, start: nat)
    requires ProgramFits(file, t, start)
    ensures var ps := Phdrs(file, t);
      var ls := Loads(ps);
      ls != [] ==>
        var k := Lowest(ls);
        (SpanOf(ps).base == ls[k].vaddr && SpanOf(ps).base + SpanOf(ps).size == MaxEnd(ls))
          <==> forall i :: 0 <= i < k ==> EndOf(ls[i]) <= MaxEnd(ls[k..])
  {
    var ps := Phdrs(file, t);
    forall i | 0 <= i < |ps| && IsLoad(ps[i]) ensures EndOf(ps[i]) < TWO_TO_32 {
      assert SegmentFits(file, Top(start, t), ps, i);
    }
    SpanOfLoads(ps);
    if Loads(ps) != [] {
      SpanExactly(Loads(ps));
    }
  }

  /** A segment below an earlier one that reaches further: the size is not extended again. */
  lemma SpanTooShort()
    ensures var high, low := Phdr(PT_LOAD, 0, 0x2000, 0x1000, 0x1000), Phdr(PT_LOAD, 0, 0x1000, 0x10, 0x10);
      SpanOf([high, low]) == Span(0x1000, 0x1000) && MaxEnd([high, low]) == 0x3000
  {
    var high, low := Phdr(PT_LOAD, 0, 0x2000, 0x1000, 0x1000), Phdr(PT_LOAD, 0, 0x1000, 0x10, 0x10);
    assert [high, low][..1] == [high] && [high][..0] == [];
    assert SpanOf([]) == NO_SPAN && SpanOf([high]) == Span(0x2000, 0x1000);
  }
}
