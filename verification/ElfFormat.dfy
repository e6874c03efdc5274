/** The ELF file format as the System V ABI lays it out, written without the loader's parser, and what
    the loader makes of files in that format. */
module ElfFormat {
  import opened Bits
  import opened Common
  import opened Loader

  // ----- Little-endian fields

  function HalfBytes(h: Half): (b: seq<Byte>)
    ensures |b| == 2
  {
    [h % 0x100, h / 0x100]
  }

  function WordBytes(w: Word): (b: seq<Byte>)
    ensures |b| == 4
  {
    [w % 0x100, w / 0x100 % 0x100, w / 0x1_0000 % 0x100, w / 0x100_0000]
  }

  function Halves(hs: seq<Half>): (b: seq<Byte>)
    ensures |b| == 2 * |hs|
  {
    if hs == [] then [] else HalfBytes(hs[0]) + Halves(hs[1..])
  }

  function Words(ws: seq<Word>): (b: seq<Byte>)
    ensures |b| == 4 * |ws|
  {
    if ws == [] then [] else WordBytes(ws[0]) + Words(ws[1..])
  }

  lemma {:induction false} HalfAt(hs: seq<Half>, i: nat)
    requires i < |hs|
    ensures Halves(hs)[2 * i..2 * i + 2] == HalfBytes(hs[i])
  {
    if i > 0 {
      HalfAt(hs[1..], i - 1);
      assert Halves(hs)[2 * i..2 * i + 2] == Halves(hs[1..])[2 * (i - 1)..2 * (i - 1) + 2];
    }
  }

  lemma {:induction false} WordAt(ws: seq<Word>, i: nat)
    requires i < |ws|
    ensures Words(ws)[4 * i..4 * i + 4] == WordBytes(ws[i])
  {
    if i > 0 {
      WordAt(ws[1..], i - 1);
      assert Words(ws)[4 * i..4 * i + 4] == Words(ws[1..])[4 * (i - 1)..4 * (i - 1) + 4];
    }
  }

  /** Reading a field back gives the value written. */
  lemma HalfRead(b: seq<Byte>, at: nat, h: Half)
    requires at + 2 <= |b| && b[at..at + 2] == HalfBytes(h)
    ensures U16(b, at) == h
  {
    assert b[at] == b[at..at + 2][0] && b[at + 1] == b[at..at + 2][1];
  }

  lemma WordRead(b: seq<Byte>, at: nat, w: Word)
    requires at + 4 <= |b| && b[at..at + 4] == WordBytes(w)
    ensures U32(b, at) == w
  {
    var s := b[at..at + 4];
    assert b[at] == s[0] && b[at + 1] == s[1] && b[at + 2] == s[2] && b[at + 3] == s[3];
    FourBytes(w);
  }

  lemma FourBytes(w: Word)
    ensures w % 0x100 + 0x100 * (w / 0x100 % 0x100) + 0x1_0000 * (w / 0x1_0000 % 0x100) + 0x100_0000 * (w / 0x100_0000) == w
  {
    var a, b, c := w / 0x100, w / 0x1_0000, w / 0x100_0000;
    assert w == w % 0x100 + 0x100 * a;
    assert b == a / 0x100 && a == a % 0x100 + 0x100 * b;
    assert c == b / 0x100 && b == b % 0x100 + 0x100 * c;
  }

  // ----- The two headers

  type Padding = p: seq<Byte> | |p| == 7 witness seq(7, _ => 0)

  datatype ElfHeader = ElfHeader(
    magic: Word, elfClass: Byte, data: Byte, version: Byte, osabi: Byte, abiversion: Byte, pad: Padding,
    kind: Half, machine: Half, version2: Word, entry: Word, phoff: Word, shoff: Word, flags: Word,
    ehsize: Half, phentsize: Half, phnum: Half, shentsize: Half, shnum: Half, shstrndx: Half)

  datatype ProgramHeader = ProgramHeader(
    kind: Word, offset: Word, vaddr: Word, paddr: Word, filesz: Word, memsz: Word, flags: Word, align: Word)

  /** The 52 bytes of the file header, in the order of `elf32_header_t`. */
  function EncodeHeader(e: ElfHeader): (b: seq<Byte>)
    ensures |b| == 52
  {
    (WordBytes(e.magic) + [e.elfClass, e.data, e.version, e.osabi, e.abiversion] + e.pad)
    + (Halves([e.kind, e.machine])
    + (Words([e.version2, e.entry, e.phoff, e.shoff, e.flags])
    + Halves([e.ehsize, e.phentsize, e.phnum, e.shentsize, e.shnum, e.shstrndx])))
  }

  /** The 32 bytes of a program header, in the order of `elf32_phdr_t`. */
  function EncodePhdr(p: ProgramHeader): (b: seq<Byte>)
    ensures |b| == 32
  {
    Words([p.kind, p.offset, p.vaddr, p.paddr, p.filesz, p.memsz, p.flags, p.align])
  }

  predicate PhdrIn(file: Image, at: nat, p: ProgramHeader) {
    at + 32 <= |file| && file[at..at + 32] == EncodePhdr(p)
  }

  /** The file starts with that header, and the program headers stand one behind the other where it says. */
  ghost predicate IsElf(file: Image, e: ElfHeader, ps: seq<ProgramHeader>) {
    && |file| >= 52 && file[..52] == EncodeHeader(e)
    && |ps| == e.phnum && forall i :: 0 <= i < |ps| ==> PhdrIn(file, e.phoff + 32 * i, ps[i])
  }

  /** A field of a slice is that field of the file. */
  lemma Inside(file: Image, at: nat, b: seq<Byte>, from: nat, to: nat)
    requires at + |b| <= |file| && file[at..at + |b|] == b && from <= to <= |b|
    ensures file[at + from..at + to] == b[from..to]
  {
    Subslice(file, at, at + |b|, from, to);
  }

  /** Parsing an encoded program header, wherever it stands, gives the five fields the loader uses. */
  lemma PhdrParses(file: Image, at: nat, p: ProgramHeader)
    requires PhdrIn(file, at, p)
    ensures PhdrAt(file, at) == Phdr(p.kind, p.offset, p.vaddr, p.filesz, p.memsz)
  {
    PhdrField(file, at, p, 0, 0);
    PhdrField(file, at, p, 1, 4);
    PhdrField(file, at, p, 2, 8);
    PhdrField(file, at, p, 4, 16);
    PhdrField(file, at, p, 5, 20);
  }

  lemma PhdrField(file: Image, at: nat, p: ProgramHeader, i: nat, from: nat)
    requires PhdrIn(file, at, p) && i < 8 && from == 4 * i
    ensures U32(file, at + from) == [p.kind, p.offset, p.vaddr, p.paddr, p.filesz, p.memsz, p.flags, p.align][i]
  {
    var ws := [p.kind, p.offset, p.vaddr, p.paddr, p.filesz, p.memsz, p.flags, p.align];
    var b := EncodePhdr(p);
    assert b[from..from + 4] == WordBytes(ws[i]) by { WordAt(ws, i); }
    WordInFile(file, at, b, from, ws[i]);
  }

  function KeptHeader(e: ElfHeader): Header {
    Header(e.magic, e.elfClass, e.data, e.kind, e.machine, e.entry, e.phoff, e.phentsize, e.phnum)
  }

  /** Parsing an encoded file header gives the nine fields the loader uses. */
  lemma HeaderParses(file: Image, e: ElfHeader)
    requires |file| >= 52 && file[..52] == EncodeHeader(e)
    ensures ParseHeader(file) == KeptHeader(e)
  {
    var ident := WordBytes(e.magic) + [e.elfClass, e.data, e.version, e.osabi, e.abiversion] + e.pad;
    var words := [e.version2, e.entry, e.phoff, e.shoff, e.flags];
    var counts := [e.ehsize, e.phentsize, e.phnum, e.shentsize, e.shnum, e.shstrndx];
    var types := [e.kind, e.machine];
    HeaderParts(file, ident, Halves(types), Words(words), Halves(counts));
    assert ident[0..4] == WordBytes(e.magic);
    Inside(file, 0, ident, 0, 4);
    WordRead(file, 0, e.magic);
    assert file[4] == file[0..16][4] && file[5] == file[0..16][5];
    HalfField(file, 16, types, 0);
    HalfField(file, 16, types, 1);
    assert IsAt(file, 20, Words(words));
    WordAt(words, 1);
    WordInFile(file, 20, Words(words), 4, e.entry);
    WordAt(words, 2);
    WordInFile(file, 20, Words(words), 8, e.phoff);
    HalfField(file, 40, counts, 1);
    HalfField(file, 40, counts, 2);
  }

  lemma HeaderParts(file: Image, a: seq<Byte>, b: seq<Byte>, c: seq<Byte>, d: seq<Byte>)
    requires |a| == 16 && |b| == 4 && |c| == 20 && |d| == 12
    requires |file| >= 52 && file[..52] == a + (b + (c + d))
    ensures file[0..16] == a && file[16..20] == b && file[20..40] == c && file[40..52] == d
  {
    var h := file[..52];
    assert h[0..16] == a && h[16..20] == b && h[20..40] == c && h[40..52] == d;
    assert file[0..16] == h[0..16] && file[16..20] == h[16..20] && file[20..40] == h[20..40] && file[40..52] == h[40..52];
  }

  lemma HalfField(file: Image, at: nat, hs: seq<Half>, i: nat)
    requires i < |hs| && at + 2 * |hs| <= |file| && file[at..at + 2 * |hs|] == Halves(hs)
    ensures U16(file, at + 2 * i) == hs[i]
  {
    HalfAt(hs, i);
    Inside(file, at, Halves(hs), 2 * i, 2 * i + 2);
    HalfRead(file, at + 2 * i, hs[i]);
  }

  ghost predicate IsAt(file: Image, at: nat, b: seq<Byte>) {
    at + |b| <= |file| && file[at..at + |b|] == b
  }

  /** A word encoded inside `b` is read where `b` stands in the file. */
  lemma WordInFile(file: Image, at: nat, b: seq<Byte>, from: nat, w: Word)
    requires IsAt(file, at, b) && from + 4 <= |b| && b[from..from + 4] == WordBytes(w)
    ensures at + from + 4 <= |file| && U32(file, at + from) == w
  {
    Inside(file, at, b, from, from + 4);
    WordRead(file, at + from, w);
  }

  // ----- What the loader reads of such a file

  /** The fields the loader keeps of a program header. */
  function Kept(p: ProgramHeader): Phdr {
    Phdr(p.kind, p.offset, p.vaddr, p.filesz, p.memsz)
  }

  function AllKept(ps: seq<ProgramHeader>): (qs: seq<Phdr>)
    ensures |qs| == |ps| && forall i :: 0 <= i < |ps| ==> qs[i] == Kept(ps[i])
  {
    seq(|ps|, i requires 0 <= i < |ps| => Kept(ps[i]))
  }

  lemma PhdrsParse(file: Image, t: Table, ps: seq<ProgramHeader>)
    requires t.count == |ps| && TableHolds(t) && forall i :: 0 <= i < |ps| ==> PhdrIn(file, t.at + 32 * i, ps[i])
    ensures HasPhdrs(file, t) ==> Phdrs(file, t) == AllKept(ps)
  {
    if HasPhdrs(file, t) {
      forall i | 0 <= i < |ps| ensures Phdrs(file, t)[i] == AllKept(ps)[i] {
        PhdrParses(file, t.at + 32 * i, ps[i]);
      }
      assert Phdrs(file, t) == AllKept(ps);
    }
  }

  lemma TableParses(file: Image, e: ElfHeader, ps: seq<ProgramHeader>)
    requires IsElf(file, e, ps)
    ensures FileTable(file).at == e.phoff && FileTable(file).size == e.phentsize * e.phnum && FileTable(file).count == e.phnum
    ensures HasPhdrs(file, FileTable(file)) && TableHolds(FileTable(file)) ==> Phdrs(file, FileTable(file)) == AllKept(ps)
  {
    HeaderParses(file, e);
    var t := FileTable(file);
    assert t == TableOf(KeptHeader(e));
    if TableHolds(t) {
      PhdrsParse(file, t, ps);
    }
  }

  predicate IsLoadable(p: ProgramHeader) {
    p.kind == 1
  }

  /** The end of the blocks: each starts on the next page and takes its address and its memory size. */
  function BlocksEnd(top: nat, ps: seq<ProgramHeader>): nat {
    if ps == [] then top
    else
      var end, p := BlocksEnd(top, ps[..|ps| - 1]), ps[|ps| - 1];
      if IsLoadable(p) then (end + 4095) / 4096 * 4096 + p.vaddr + p.memsz else end
  }

  lemma {:induction false} BlocksEndIs(top: nat, ps: seq<ProgramHeader>)
    ensures EndAfter(top, AllKept(ps)) == BlocksEnd(top, ps)
  {
    if ps != [] {
      var n := |ps| - 1;
      BlocksEndIs(top, ps[..n]);
      assert AllKept(ps)[..n] == AllKept(ps[..n]);
    }
  }

  /** The bytes of every loadable segment are in the file. */
  ghost predicate BytesInFile(file: Image, ps: seq<ProgramHeader>) {
    forall i :: 0 <= i < |ps| && IsLoadable(ps[i]) && ps[i].filesz > 0 ==> ps[i].offset + ps[i].filesz <= |file|
  }

  /** A 32-bit little-endian executable for the i386 with its header table of `size` bytes and its
      segments' bytes in the file, and room for table and blocks behind `start`. */
  ghost predicate HasRoom(file: Image, e: ElfHeader, ps: seq<ProgramHeader>, start: nat, size: Word) {
    && e.magic == 0x464C_457F && e.elfClass == 1 && e.data == 1 && e.kind == 2 && e.machine == 3
    && (size == 0 || e.phoff + size <= |file|) && BytesInFile(file, ps)
    && BlocksEnd(start + size, ps) <= 0x10_0000
  }

  /** That is exactly when such a file loads, behind what the arena already holds. */
  lemma LoadsExactly(file: Image, e: ElfHeader, ps: seq<ProgramHeader>, used: nat, start: nat, size: Word)
    requires IsElf(file, e, ps) && (e.phnum == 0 || e.phentsize >= 32)
    requires start == (used + 3) / 4 * 4 && size == e.phentsize * e.phnum
    ensures Loadable(file, used) <==> HasRoom(file, e, ps, start, size)
  {
    var h, t := KeptHeader(e), Table(e.phoff, size, e.phnum);
    HeaderParses(file, e);
    TableHoldsExactly(h);
    LoadableIs(file, h, t, used, start);
    HasRoomIs(file, e, t, ps, start);
  }

  lemma LoadableIs(file: Image, h: Header, t: Table, used: nat, start: nat)
    requires |file| >= 52 && ParseHeader(file) == h && TableOf(h) == t && start == (used + 3) / 4 * 4
    ensures Loadable(file, used) <==> ValidateElf(h) == 0 && ProgramFits(file, t, start)
  {
  }

  lemma HasRoomIs(file: Image, e: ElfHeader, t: Table, ps: seq<ProgramHeader>, start: nat)
    requires t.at == e.phoff && t.count == |ps| && TableHolds(t)
    requires forall i :: 0 <= i < |ps| ==> PhdrIn(file, e.phoff + 32 * i, ps[i])
    ensures HasRoom(file, e, ps, start, t.size) <==> ValidateElf(KeptHeader(e)) == 0 && ProgramFits(file, t, start)
  {
    PhdrsParse(file, t, ps);
    ProgramFitsExactly(file, t, ps, start);
  }

  lemma ProgramFitsExactly(file: Image, t: Table, ps: seq<ProgramHeader>, start: nat)
    requires TableHolds(t) && t.count == |ps| && (HasPhdrs(file, t) ==> Phdrs(file, t) == AllKept(ps))
    ensures ProgramFits(file, t, start) <==>
      (t.size == 0 || t.at + t.size <= |file|) && BytesInFile(file, ps) && BlocksEnd(start + t.size, ps) <= 0x10_0000
  {
    BlocksFitExactly(file, Top(start, t), ps);
  }

  lemma BlocksFitExactly(file: Image, top: nat, ps: seq<ProgramHeader>)
    ensures top <= BlocksEnd(top, ps)
    ensures (top <= 0x10_0000 && forall i :: 0 <= i < |ps| ==> SegmentFits(file, top, AllKept(ps), i))
      <==> (BytesInFile(file, ps) && BlocksEnd(top, ps) <= 0x10_0000)
  {
    var qs := AllKept(ps);
    BlocksEndIs(top, ps);
    assert qs[..|ps|] == qs;
    forall i | 0 <= i < |ps| && IsLoad(qs[i]) ensures StartOf(top, qs, i) + BlockSize(qs[i]) <= EndAfter(top, qs) {
      BlockEnds(top, qs, i, |ps|);
    }
    if top <= 0x10_0000 && forall i :: 0 <= i < |ps| ==> SegmentFits(file, top, qs, i) {
      LastBlock(file, top, qs);
      forall i | 0 <= i < |ps| && IsLoadable(ps[i]) && ps[i].filesz > 0 ensures ps[i].offset + ps[i].filesz <= |file| {
        assert SegmentFits(file, top, qs, i);
      }
    }
    if BytesInFile(file, ps) && BlocksEnd(top, ps) <= 0x10_0000 {
      forall i | 0 <= i < |ps| ensures SegmentFits(file, top, qs, i) {
        assert qs[i] == Kept(ps[i]);
      }
    }
  }

  lemma {:induction false} LastBlock(file: Image, top: nat, qs: seq<Phdr>)
    requires top <= MAX_PROGRAM_SIZE && forall i :: 0 <= i < |qs| ==> SegmentFits(file, top, qs, i)
    ensures EndAfter(top, qs) <= MAX_PROGRAM_SIZE
  {
    if qs != [] {
      var n := |qs| - 1;
      forall i | 0 <= i < n ensures SegmentFits(file, top, qs[..n], i) {
        assert SegmentFits(file, top, qs, i) && qs[..n][..i] == qs[..i];
      }
      LastBlock(file, top, qs[..n]);
      assert SegmentFits(file, top, qs, n);
    }
  }

  // ----- What a load leaves

  /** Every byte of the segment's memory: the file's bytes, then zeros. */
  ghost predicate ImageAt(arena: seq<Byte>, file: Image, start: nat, p: ProgramHeader) {
    var at := start + p.vaddr;
    && at + p.memsz <= |arena|
    && (p.filesz > 0 ==> p.offset + p.filesz <= |file|)
    && forall a :: at <= a < at + p.memsz ==> arena[a] == if a < at + p.filesz then file[p.offset + (a - at)] else 0
  }

  lemma HeldImage(arena: seq<Byte>, file: Image, start: nat, p: ProgramHeader)
    requires Holds(arena, file, start, Kept(p)) && (p.filesz > 0 ==> p.offset + p.filesz <= |file|)
    ensures ImageAt(arena, file, start, p)
  {
    var at, n := start + p.vaddr, Min(p.filesz, p.memsz);
    forall a | at <= a < at + p.memsz ensures arena[a] == if a < at + p.filesz then file[p.offset + (a - at)] else 0 {
      if a < at + n {
        assert arena[a] == arena[at..at + n][a - at] == file[p.offset..p.offset + n][a - at];
      }
    }
  }

  /** After a load the arena holds the program headers as the file encodes them, and behind them every
      loadable segment in a block of its own that starts on a page: its bytes of the file, then zeros. The
      blocks do not overlap, and the entry point is the header's. */
  lemma LoadedProgram(arena: seq<Byte>, used: nat, info: Info, file: Image, e: ElfHeader, ps: seq<ProgramHeader>, start: nat)
    returns (starts: seq<nat>)
    requires IsElf(file, e, ps) && ProgramFits(file, FileTable(file), start)
    requires IsLoaded(arena, used, info, file, FileTable(file), ParseHeader(file).entry, start)
    ensures info.entry == e.entry && info.loaded
    ensures forall i :: 0 <= i < |ps| ==> PhdrIn(arena, start + 32 * i, ps[i])
    ensures |starts| == |ps|
    ensures forall i :: 0 <= i < |ps| && IsLoadable(ps[i]) ==>
      && starts[i] % 4096 == 0 && start + e.phentsize * e.phnum <= starts[i]
      && starts[i] + ps[i].vaddr + ps[i].memsz <= 0x10_0000
      && ImageAt(arena, file, starts[i], ps[i])
    ensures forall i, j :: 0 <= i < j < |ps| && IsLoadable(ps[i]) && IsLoadable(ps[j]) ==>
      starts[i] + ps[i].vaddr + ps[i].memsz <= starts[j]
  {
    HeaderParses(file, e);
    TableParses(file, e, ps);
    var t := FileTable(file);
    forall i | 0 <= i < |ps| ensures PhdrIn(arena, start + 32 * i, ps[i]) {
      HeaderKept(arena, file, t, start, i);
      assert PhdrIn(file, e.phoff + 32 * i, ps[i]);
    }
    starts := PlacedImages(arena, file, t, ps, start);
  }

  lemma PlacedImages(arena: seq<Byte>, file: Image, t: Table, ps: seq<ProgramHeader>, start: nat) returns (starts: seq<nat>)
    requires ProgramFits(file, t, start) && Phdrs(file, t) == AllKept(ps)
    requires AllHold(arena, file, Top(start, t), AllKept(ps), |ps|)
    ensures |starts| == |ps|
    ensures forall i :: 0 <= i < |ps| && IsLoadable(ps[i]) ==>
      && starts[i] % 4096 == 0 && Top(start, t) <= starts[i]
      && starts[i] + ps[i].vaddr + ps[i].memsz <= 0x10_0000
      && ImageAt(arena, file, starts[i], ps[i])
    ensures forall i, j :: 0 <= i < j < |ps| && IsLoadable(ps[i]) && IsLoadable(ps[j]) ==>
      starts[i] + ps[i].vaddr + ps[i].memsz <= starts[j]
  {
    var top, qs := Top(start, t), AllKept(ps);
    starts := seq(|ps|, i requires 0 <= i < |ps| => StartOf(top, qs, i));
    assert forall i :: 0 <= i < |ps| ==> starts[i] == StartOf(top, qs, i);
    forall i | 0 <= i < |ps| && IsLoadable(ps[i])
      ensures starts[i] % 4096 == 0 && top <= starts[i] && starts[i] + ps[i].vaddr + ps[i].memsz <= 0x10_0000
      ensures ImageAt(arena, file, starts[i], ps[i])
    {
      PlacedImage(arena, file, t, ps, start, i);
    }
    forall i, j | 0 <= i < j < |ps| && IsLoadable(ps[i]) && IsLoadable(ps[j])
      ensures starts[i] + ps[i].vaddr + ps[i].memsz <= starts[j]
    {
      BlocksDisjoint(file, t, start, i, j);
    }
  }

  lemma PlacedImage(arena: seq<Byte>, file: Image, t: Table, ps: seq<ProgramHeader>, start: nat, i: nat)
    requires ProgramFits(file, t, start) && Phdrs(file, t) == AllKept(ps) && i < |ps| && IsLoadable(ps[i])
    requires AllHold(arena, file, Top(start, t), AllKept(ps), |ps|)
    ensures var at := StartOf(Top(start, t), AllKept(ps), i);
      && at % 4096 == 0 && Top(start, t) <= at && at + ps[i].vaddr + ps[i].memsz <= 0x10_0000
      && ImageAt(arena, file, at, ps[i])
  {
    var top, qs := Top(start, t), AllKept(ps);
    RoundUpBounds(EndAfter(top, qs[..i]));
    assert SegmentFits(file, top, qs, i);
    HeldImage(arena, file, StartOf(top, qs, i), ps[i]);
  }

  lemma HeaderKept(arena: seq<Byte>, file: Image, t: Table, start: nat, i: nat)
    requires HasPhdrs(file, t) && TableHolds(t) && i < t.count
    requires Top(start, t) <= |arena| && IsTable(file, t, arena[..Top(start, t)], start)
    ensures t.at + 32 * (i + 1) <= |file| && start + 32 * (i + 1) <= |arena|
    ensures arena[start + 32 * i..start + 32 * (i + 1)] == file[t.at + 32 * i..t.at + 32 * (i + 1)]
  {
    var top := Top(start, t);
    assert arena[start..top] == arena[..top][start..];
    Subslice(arena, start, top, 32 * i, 32 * (i + 1));
    Subslice(file, t.at, t.at + t.size, 32 * i, 32 * (i + 1));
  }

  /** Loadable segments in ascending order of their addresses, as the format prescribes. */
  predicate Ascending(ps: seq<ProgramHeader>) {
    forall i, j :: 0 <= i < j < |ps| && IsLoadable(ps[i]) && IsLoadable(ps[j]) ==> ps[i].vaddr <= ps[j].vaddr
  }

  /** The smallest interval with every loadable segment in it. */
  ghost predicate IsHull(base: nat, size: nat, ps: seq<ProgramHeader>) {
    && (forall i :: 0 <= i < |ps| && IsLoadable(ps[i]) ==> base <= ps[i].vaddr && ps[i].vaddr + ps[i].memsz <= base + size)
    && (exists i :: 0 <= i < |ps| && IsLoadable(ps[i]) && base == ps[i].vaddr)
    && (exists i :: 0 <= i < |ps| && IsLoadable(ps[i]) && base + size == ps[i].vaddr + ps[i].memsz)
  }

  /** That is the interval the base and size reported of such a program describe. */
  lemma ReportedSpan(arena: seq<Byte>, used: nat, info: Info, file: Image, e: ElfHeader, ps: seq<ProgramHeader>, start: nat, i: nat)
    requires IsElf(file, e, ps) && ProgramFits(file, FileTable(file), start) && Ascending(ps)
    requires IsLoaded(arena, used, info, file, FileTable(file), ParseHeader(file).entry, start)
    requires i < |ps| && IsLoadable(ps[i])
    ensures IsHull(info.base, info.size, ps)
  {
    TableParses(file, e, ps);
    var qs := AllKept(ps);
    forall i | 0 <= i < |ps| && IsLoadable(ps[i]) ensures ps[i].vaddr + ps[i].memsz < TWO_TO_32 {
      assert SegmentFits(file, Top(start, FileTable(file)), qs, i);
    }
    SpanOfHeaders(Span(info.base, info.size), ps, i);
  }

  lemma SpanOfHeaders(s: Span, ps: seq<ProgramHeader>, i: nat)
    requires s == SpanOf(AllKept(ps)) && Ascending(ps) && i < |ps| && IsLoadable(ps[i])
    requires forall i :: 0 <= i < |ps| && IsLoadable(ps[i]) ==> ps[i].vaddr + ps[i].memsz < TWO_TO_32
    ensures IsHull(s.base, s.size, ps)
  {
    var qs := AllKept(ps);
    assert forall i :: 0 <= i < |ps| ==> qs[i] == Kept(ps[i]);
    SpanOfLoads(qs);
    var k := LoadsHave(qs, i);
    LoadsAscend(qs);
    SpanOfAscending(Loads(qs));
    var a, b := SpanCovers(s, qs);
    assert IsLoadable(ps[a]) && s.base == ps[a].vaddr;
    assert IsLoadable(ps[b]) && s.base + s.size == ps[b].vaddr + ps[b].memsz;
  }

  /** The interval of the span, over the headers themselves. */
  lemma SpanCovers(s: Span, qs: seq<Phdr>) returns (a: nat, b: nat)
    requires Loads(qs) != [] && AllGoodLoads(Loads(qs))
    requires forall j, k :: 0 <= j < k < |Loads(qs)| ==> Loads(qs)[j].vaddr <= Loads(qs)[k].vaddr
    requires s.base == Loads(qs)[0].vaddr && s.base + s.size == MaxEnd(Loads(qs))
    ensures forall i :: 0 <= i < |qs| && IsLoad(qs[i]) ==> s.base <= qs[i].vaddr && EndOf(qs[i]) <= s.base + s.size
    ensures a < |qs| && IsLoad(qs[a]) && s.base == qs[a].vaddr
    ensures b < |qs| && IsLoad(qs[b]) && s.base + s.size == EndOf(qs[b])
  {
    var ls := Loads(qs);
    forall i | 0 <= i < |qs| && IsLoad(qs[i])
      ensures s.base <= qs[i].vaddr && EndOf(qs[i]) <= s.base + s.size
    {
      var k := LoadsHave(qs, i);
      assert EndOf(ls[k]) <= MaxEnd(ls);
    }
    a := LoadsFrom(qs, 0);
    var last :| 0 <= last < |ls| && EndOf(ls[last]) == MaxEnd(ls);
    b := LoadsFrom(qs, last);
  }

  /** The loadable headers are kept, in their order. */
  lemma {:induction false} LoadsHave(qs: seq<Phdr>, i: nat) returns (k: nat)
    requires i < |qs| && IsLoad(qs[i])
    ensures k < |Loads(qs)| && Loads(qs)[k] == qs[i]
  {
    var n := |qs| - 1;
    if i < n {
      k := LoadsHave(qs[..n], i);
    } else {
      k := |Loads(qs[..n])|;
    }
  }

  lemma {:induction false} LoadsFrom(qs: seq<Phdr>, k: nat) returns (i: nat)
    requires k < |Loads(qs)|
    ensures i < |qs| && IsLoad(qs[i]) && qs[i] == Loads(qs)[k]
  {
    var n := |qs| - 1;
    if k < |Loads(qs[..n])| {
      i := LoadsFrom(qs[..n], k);
    } else {
      i := n;
    }
  }

  lemma {:induction false} LoadsAscend(qs: seq<Phdr>)
    requires forall i, j :: 0 <= i < j < |qs| && IsLoad(qs[i]) && IsLoad(qs[j]) ==> qs[i].vaddr <= qs[j].vaddr
    ensures forall j, k :: 0 <= j < k < |Loads(qs)| ==> Loads(qs)[j].vaddr <= Loads(qs)[k].vaddr
  {
    if qs != [] {
      var n := |qs| - 1;
      var ms := Loads(qs[..n]);
      LoadsAscend(qs[..n]);
      forall j | 0 <= j < |ms| && IsLoad(qs[n]) ensures ms[j].vaddr <= qs[n].vaddr {
        var i := LoadsFrom(qs[..n], j);
        assert qs[i] == ms[j];
      }
    }
  }
}
