/** The kernel's page table behind its two directory windows (`kernel/memory.c`). */
module Paging {
  import opened Bits

  const PAGE_SIZE := 4096
  const ENTRIES := 1024
  const PRESENT := 1
  const WRITE := 2
  const LOW_WINDOW := 0
  const HIGH_WINDOW := 768
  const KERNEL_BASE := 0xC000_0000
  const OFFSET_MASK: Word := 0xFFF

  function DirIndex(virt: Word): nat {
    virt / 0x40_0000
  }

  function TableIndex(virt: Word): nat {
    And(virt / PAGE_SIZE, 0x3FF)
  }

  function Frame(entry: Word): nat {
    And(entry, Not(OFFSET_MASK))
  }

  /** Addresses of the two windows: the only directory entries that are not zero. */
  predicate Mapped(virt: Word) {
    DirIndex(virt) == LOW_WINDOW || DirIndex(virt) == HIGH_WINDOW
  }

  /** The page of the table an address falls in, the same in both windows. */
  function PageOf(virt: Word): nat {
    virt / PAGE_SIZE % ENTRIES
  }

  lemma FieldsMeaning(virt: Word)
    ensures TableIndex(virt) == PageOf(virt)
    ensures And(virt, OFFSET_MASK) == virt % PAGE_SIZE
  {
    Pow2At10And12();
    LowBits(virt / PAGE_SIZE, 10, 1024);
    LowBits(virt, 12, 4096);
  }

  lemma Pow2At10And12()
    ensures Pow2(10) == 1024 && Pow2(12) == 4096
  {
    assert Pow2(5) == 32;
  }

  lemma FrameMeaning(entry: Word)
    ensures Frame(entry) == entry - entry % PAGE_SIZE
  {
    Pow2At10And12();
    ClearMask(entry, OFFSET_MASK);
    LowBits(entry, 12, 4096);
  }

  /** An entry built from an aligned address and flags below the page size keeps the two apart. */
  lemma EntryParts(phys: Word, flags: Word)
    requires phys % PAGE_SIZE == 0 && flags < PAGE_SIZE
    ensures Or(phys, flags) == phys + flags
    ensures phys + flags < TWO_TO_32 && Frame(phys + flags) == phys
  {
    assert Or(phys, flags) == phys + flags by {
      Pow2At10And12();
      OrDisjoint(phys, flags, 12);
    }
    LowPart(phys, flags);
    FrameMeaning(phys + flags);
  }

  lemma LowPart(phys: Word, flags: Word)
    requires phys % PAGE_SIZE == 0 && flags < PAGE_SIZE
    ensures phys + flags < TWO_TO_32 && (phys + flags) % PAGE_SIZE == flags
  {
  }

  lemma OrIsWord(x: Word, y: Word)
    ensures Or(x, y) < TWO_TO_32
  {
    Pow2At32();
    OrBound(32, x, y);
  }

  // ----- The table as a value

  /** `get_phys_addr`, once the directory has been followed. */
  function Translate(entries: seq<Word>, virt: Word): nat
    requires |entries| == ENTRIES
  {
    Frame(entries[PageOf(virt)]) + virt % PAGE_SIZE
  }

  function Initial(): seq<Word> {
    seq(ENTRIES, i requires 0 <= i < ENTRIES => i * PAGE_SIZE + PRESENT + WRITE)
  }

  function Map(entries: seq<Word>, virt: Word, phys: Word, flags: Word): seq<Word>
    requires |entries| == ENTRIES
  {
    OrIsWord(phys, flags);
    entries[PageOf(virt) := Or(phys, flags)]
  }

  function Unmap(entries: seq<Word>, virt: Word): seq<Word>
    requires |entries| == ENTRIES
  {
    entries[PageOf(virt) := 0]
  }

  class PageTables {
    const directory: array<Word>
    const table: array<Word>
    const tableAddr: Word  // where `kernel_page_table` lies

    ghost predicate Valid()
      reads directory
    {
      && directory.Length == ENTRIES && table.Length == ENTRIES && directory != table
      && tableAddr % PAGE_SIZE == 0
      && forall i :: 0 <= i < ENTRIES ==>
           directory[i] == if i == LOW_WINDOW || i == HIGH_WINDOW then tableAddr + PRESENT + WRITE else 0
    }

    /** `paging_init`; the linker places the table at `tableAddr`. */
    constructor (tableAddr: Word)
      requires tableAddr % PAGE_SIZE == 0
      ensures Valid() && fresh(directory) && fresh(table) && this.tableAddr == tableAddr
      ensures table[..] == Initial()
    {
      this.tableAddr := tableAddr;
      directory := new Word[ENTRIES](_ => 0);
      table := new Word[ENTRIES](_ => 0);
      new;
      for i := 0 to ENTRIES
        invariant forall k :: 0 <= k < i ==> table[k] == k * PAGE_SIZE + PRESENT + WRITE
        invariant forall k :: 0 <= k < ENTRIES ==> directory[k] == 0
      {
        PresentAndWrite(i * PAGE_SIZE);
        table[i] := Or(Or(i * PAGE_SIZE, PRESENT), WRITE);
      }
      PresentAndWrite(tableAddr);
      directory[LOW_WINDOW] := Or(Or(tableAddr, PRESENT), WRITE);
      directory[HIGH_WINDOW] := Or(Or(tableAddr, PRESENT), WRITE);
    }

    /** The page table a directory entry points at: the kernel's for every address of a window. */
    method Follow(virt: Word) returns (addr: Word)
      requires Valid() && Mapped(virt)
      ensures addr == tableAddr
    {
      FrameMeaning(directory[DirIndex(virt)]);
      addr := Frame(directory[DirIndex(virt)]);
    }

    method MapPage(virt: Word, phys: Word, flags: Word)
      requires Valid() && Mapped(virt)
      modifies table
      ensures Valid() && table[..] == Map(old(table[..]), virt, phys, flags)
    {
      FieldsMeaning(virt);
      OrIsWord(phys, flags);
      var pageTable := Follow(virt);
      assert pageTable == tableAddr;
      table[TableIndex(virt)] := Or(phys, flags);
    }

    method UnmapPage(virt: Word)
      requires Valid() && Mapped(virt)
      modifies table
      ensures Valid() && table[..] == Unmap(old(table[..]), virt)
    {
      FieldsMeaning(virt);
      var pageTable := Follow(virt);
      assert pageTable == tableAddr;
      table[TableIndex(virt)] := 0;
    }

    method GetPhysAddr(virt: Word) returns (phys: Word)
      requires Valid() && Mapped(virt)
      ensures phys == Translate(table[..], virt)
    {
      FieldsMeaning(virt);
      var pageTable := Follow(virt);
      assert pageTable == tableAddr;
      FrameMeaning(table[TableIndex(virt)]);
      phys := Frame(table[TableIndex(virt)]) + And(virt, OFFSET_MASK);
    }
  }

  lemma PresentAndWrite(base: Word)
    requires base % PAGE_SIZE == 0
    ensures 0 <= Or(base, PRESENT) < TWO_TO_32
    ensures Or(Or(base, PRESENT), WRITE) == base + PRESENT + WRITE < TWO_TO_32
  {
    EntryParts(base, PRESENT);
    OrStep(base + 1, 2);
    OrStep((base + 1) / 2, 1);
    assert Or(base / 4, 0) == base / 4;
  }

  // ----- Translation

  /** After `paging_init` the low 4 MB are identity mapped and the high window maps onto them. */
  lemma InitialTranslation(virt: Word)
    requires Mapped(virt)
    ensures Translate(Initial(), virt) == if DirIndex(virt) == LOW_WINDOW then virt else virt - KERNEL_BASE
  {
    FrameMeaning(Initial()[PageOf(virt)]);
  }

  /** Mapping an aligned page redirects exactly that page, in both windows. */
  lemma MapTranslates(entries: seq<Word>, virt: Word, phys: Word, flags: Word, w: Word)
    requires |entries| == ENTRIES && phys % PAGE_SIZE == 0 && flags < PAGE_SIZE
    ensures Translate(Map(entries, virt, phys, flags), w)
      == if PageOf(w) == PageOf(virt) then phys + w % PAGE_SIZE else Translate(entries, w)
  {
    EntryParts(phys, flags);
  }

  /** The windows: the low 4 MB and the 4 MB from 0xC0000000 on. */
  lemma MappedExactly(virt: Word)
    ensures Mapped(virt) <==> virt < 0x40_0000 || 0xC000_0000 <= virt < 0xC040_0000
  {
  }

  /** Entry `i` of the first table: page `i`, present and writable. */
  lemma InitialEntries(i: nat)
    requires i < ENTRIES
    ensures Initial()[i] / 4096 == i && Initial()[i] % 4096 == 3
  {
  }

  /** Mapping sets in the entry of the address's page just the bits of the frame and of the flags, and
      leaves the other entries; so the low bits of an aligned frame's entry are the flags. */
  lemma MapEntry(entries: seq<Word>, virt: Word, phys: Word, flags: Word)
    requires |entries| == ENTRIES
    ensures var i, u := virt / 4096 % 1024, Map(entries, virt, phys, flags);
      && |u| == ENTRIES && (forall j :: 0 <= j < ENTRIES && j != i ==> u[j] == entries[j])
      && (forall b: nat :: Bit(u[i], b) <==> Bit(phys, b) || Bit(flags, b))
      && (phys % 4096 == 0 && flags < 4096 ==> u[i] % 4096 == flags && u[i] - u[i] % 4096 == phys)
  {
    OrIsWord(phys, flags);
    forall b: nat ensures Bit(Or(phys, flags), b) <==> Bit(phys, b) || Bit(flags, b) {
      BitOfOr(phys, flags, b);
    }
    if phys % 4096 == 0 && flags < 4096 {
      EntryParts(phys, flags);
      LowPart(phys, flags);
    }
  }

  /** Unmapping clears the entry, the present bit included. */
  lemma UnmapEntry(entries: seq<Word>, virt: Word)
    requires |entries| == ENTRIES
    ensures var i, u := virt / 4096 % 1024, Unmap(entries, virt);
      |u| == ENTRIES && u[i] == 0 && forall j :: 0 <= j < ENTRIES && j != i ==> u[j] == entries[j]
  {
  }

  /** The frame asked for is the frame used exactly when it is aligned and the flags carry no address
      bit that it lacks. */
  lemma MapHonouredExactly(entries: seq<Word>, virt: Word, phys: Word, flags: Word)
    requires |entries| == ENTRIES
    ensures Translate(Map(entries, virt, phys, flags), virt) == phys + virt % PAGE_SIZE
      <==> phys % PAGE_SIZE == 0 && Or(phys, Frame(flags)) == phys
  {
    OrIsWord(phys, flags);
    var frame := Frame(Or(phys, flags));
    assert frame == Or(Frame(phys), Frame(flags)) by { AndOverOr(phys, flags, Not(OFFSET_MASK)); }
    assert Frame(phys) == phys - phys % PAGE_SIZE by { FrameMeaning(phys); }
    assert frame % PAGE_SIZE == 0 by { FrameMeaning(Or(phys, flags)); }
  }

  /** An unaligned frame is rounded down, and flags above the offset bits move it. */
  lemma FrameMoved(entries: seq<Word>)
    requires |entries| == ENTRIES
    ensures Translate(Map(entries, 0, 0x1800, 3), 0) == 0x1000
    ensures Translate(Map(entries, 0, 0x2000, 0x1000), 0) == 0x3000
  {
    assert Pow2(2) == 4;
    OrDisjoint(0x1800, 3, 2);
    FrameMeaning(0x1803);
    Pow2At10And12();
    assert Pow2(13) == 0x2000;
    OrDisjoint(0x2000, 0x1000, 13);
    FrameMeaning(0x3000);
  }

  /** Two addresses of the windows are the same page at the same offset. */
  predicate Alias(low: Word, high: Word) {
    DirIndex(low) == LOW_WINDOW && high == low + KERNEL_BASE
  }

  lemma AliasesAgree(entries: seq<Word>, low: Word, high: Word)
    requires |entries| == ENTRIES && Alias(low, high)
    ensures Mapped(low) && Mapped(high) && PageOf(low) == PageOf(high)
    ensures Translate(entries, low) == Translate(entries, high)
  {
  }

  // ----- Runs

  datatype Event = Mapping(virt: Word, phys: Word, flags: Word) | Unmapping(virt: Word)

  predicate Legal(e: Event) {
    Mapped(e.virt) && (e.Mapping? ==> e.phys % PAGE_SIZE == 0 && e.flags < PAGE_SIZE)
  }

  function Run(es: seq<Event>): (entries: seq<Word>)
    ensures |entries| == ENTRIES
  {
    if es == [] then Initial()
    else
      var before, e := Run(es[..|es| - 1]), es[|es| - 1];
      match e
      case Mapping(virt, phys, flags) => Map(before, virt, phys, flags)
      case Unmapping(virt) => Unmap(before, virt)
  }

  /** Where an address leads by the history alone: what the last event on its page, through either
      window, asked for; untouched pages lead to themselves and unmapped ones to page 0. */
  function LastWord(es: seq<Event>, w: Word): int {
    if es == [] then PageOf(w) * PAGE_SIZE + w % PAGE_SIZE
    else
      var e := es[|es| - 1];
      if PageOf(e.virt) != PageOf(w) then LastWord(es[..|es| - 1], w)
      else (if e.Mapping? then e.phys else 0) + w % PAGE_SIZE
  }

  lemma {:induction false} RunTranslates(es: seq<Event>, low: Word, high: Word)
    requires (forall e :: e in es ==> Legal(e)) && Alias(low, high)
    ensures Translate(Run(es), low) == Translate(Run(es), high) == LastWord(es, low)
  {
    AliasesAgree(Run(es), low, high);
    if es == [] {
      InitialTranslation(low);
    } else {
      var before, e := es[..|es| - 1], es[|es| - 1];
      RunTranslates(before, low, high);
      assert Legal(e);
      match e
      case Mapping(virt, phys, flags) => MapTranslates(Run(before), virt, phys, flags, low);
      case Unmapping(virt) => FrameMeaning(0);
    }
  }
}
