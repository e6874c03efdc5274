/** The kernel's bump heap (`kernel/memory.c`), with the wrap-around of its 32-bit sums. */
module Heap {
  import opened Bits

  const HEAP_SIZE := 0x8000
  const NULL := -1  // addresses are offsets into the heap

  datatype Request = Plain(size: Word) | Aligned(size: Word, alignment: Word)

  /** What `kcalloc` asks `kmalloc` for: the product taken in 32 bits. */
  function Zeroed(num: Word, size: Word): Request {
    Plain(Product(num, size))
  }

  function Product(num: Word, size: Word): Word {
    Wrap(num * size)
  }

  /** Where a block would start. */
  function Start(pos: Word, q: Request): Word {
    if q.Aligned? then AlignUp(pos, q.alignment) else pos
  }

  predicate Refused(pos: Word, q: Request) {
    Wrap(Start(pos, q) + q.size) > HEAP_SIZE
  }

  function Answer(pos: Word, q: Request): int {
    if Refused(pos, q) then NULL else Start(pos, q)
  }

  function NextPos(pos: Word, q: Request): Word {
    if Refused(pos, q) then pos
    else if q.Aligned? then Wrap(Start(pos, q) + q.size)
    else Wrap(pos + RoundUp4(q.size))
  }

  /** `(size + 3) & ~3`. */
  function RoundUp4(size: Word): Word {
    ClearMask(Wrap(size + 3), 3);
    And(Wrap(size + 3), Not(3))
  }

  lemma RoundUp4Meaning(size: Word)
    requires size + 3 < TWO_TO_32
    ensures size <= RoundUp4(size) <= size + 3 && RoundUp4(size) % 4 == 0
  {
    var y, r := size + 3, RoundUp4(size);
    assert r == y - And(y, 3) by { WrapSmall(y); ClearMask(y, 3); }
    assert And(y, 3) == y % 4 by { assert Pow2(2) == 4; LowBits(y, 2, 4); }
    AlignedDown(y, 4, r);
  }

  lemma AnswerFits(pos: Word, bytes: Word)
    requires pos + bytes < TWO_TO_32 && Answer(pos, Plain(bytes)) != NULL
    ensures Answer(pos, Plain(bytes)) == pos && pos + bytes <= HEAP_SIZE
  {
    WrapSmall(pos + bytes);
  }

  class KernelHeap {
    const heap: array<Byte>
    var heapPos: Word

    constructor ()
      ensures heap.Length == HEAP_SIZE && fresh(heap) && heapPos == 0
    {
      heap := new Byte[HEAP_SIZE](_ => 0);
      heapPos := 0;
    }

    method Kmalloc(size: Word) returns (ptr: int)
      modifies `heapPos
      ensures ptr == Answer(old(heapPos), Plain(size)) && heapPos == NextPos(old(heapPos), Plain(size))
    {
      if Wrap(heapPos + size) > HEAP_SIZE {
        return NULL;
      }
      ptr := heapPos;
      heapPos := Wrap(heapPos + RoundUp4(size));
    }

    method KmallocAligned(size: Word, alignment: Word) returns (ptr: int)
      modifies `heapPos
      ensures ptr == Answer(old(heapPos), Aligned(size, alignment))
      ensures heapPos == NextPos(old(heapPos), Aligned(size, alignment))
    {
      var alignedPos := AlignUp(heapPos, alignment);
      if Wrap(alignedPos + size) > HEAP_SIZE {
        return NULL;
      }
      ptr := alignedPos;
      heapPos := Wrap(alignedPos + size);
    }

    method Kcalloc(num: Word, size: Word) returns (ptr: int)
      requires heap.Length == HEAP_SIZE
      requires Refused(heapPos, Zeroed(num, size)) || heapPos + Product(num, size) < TWO_TO_32
      modifies `heapPos, heap
      ensures ptr == Answer(old(heapPos), Zeroed(num, size)) && heapPos == NextPos(old(heapPos), Zeroed(num, size))
      ensures ptr == NULL ==> heap[..] == old(heap[..])
      ensures ptr != NULL ==>
        forall k :: 0 <= k < HEAP_SIZE ==>
          heap[k] == if ptr <= k < ptr + Product(num, size) then 0 else old(heap[k])
    {
      var totalSize := Product(num, size);
      ptr := Kmalloc(totalSize);
      if ptr != NULL {
        AnswerFits(old(heapPos), totalSize);
        Clear(ptr, totalSize);
      }
    }

    /** `memset` with zero. */
    method Clear(from: nat, count: nat)
      requires from + count <= heap.Length
      modifies heap
      ensures forall k :: 0 <= k < heap.Length ==> heap[k] == if from <= k < from + count then 0 else old(heap[k])
    {
      for n := 0 to count
        invariant forall k :: 0 <= k < heap.Length ==> heap[k] == if from <= k < from + n then 0 else old(heap[k])
      {
        heap[from + n] := 0;
      }
    }
  }

  // ----- When an answer can be trusted

  /** No 32-bit sum of the call wraps. */
  predicate NoWrap(pos: Word, q: Request) {
    && (q.Aligned? ==> q.alignment > 0 && pos + q.alignment - 1 < TWO_TO_32)
    && Start(pos, q) + q.size < TWO_TO_32
  }

  /** A request is refused just when its block does not fit behind its start, exactly when the 32-bit
      sum does not wrap (or wraps past the end of the heap, which only a start beyond it allows). */
  lemma RefusesExactly(pos: Word, q: Request)
    ensures (Refused(pos, q) <==> Start(pos, q) + q.size > HEAP_SIZE)
      <==> Start(pos, q) + q.size < TWO_TO_32 || Start(pos, q) + q.size - TWO_TO_32 > HEAP_SIZE
  {
  }

  /** What a request whose sums do not wrap gets: the next bytes for `kmalloc`, the first multiple for
      `kmalloc_aligned`, and nothing exactly when that does not fit. */
  lemma RequestMeaning(pos: Word, q: Request)
    requires pos <= HEAP_SIZE + 3 && NoWrap(pos, q)
    ensures var start, next := Start(pos, q), NextPos(pos, q);
      && (Answer(pos, q) == NULL <==> start + q.size > 0x8000)
      && (Answer(pos, q) == NULL ==> next == pos)
      && (Answer(pos, q) != NULL ==> Answer(pos, q) == start)
      && (q.Plain? ==> start == pos)
      && (q.Aligned? ==> pos <= start <= pos + q.alignment - 1)
      && (q.Plain? && Answer(pos, q) != NULL ==> pos + q.size <= next <= pos + q.size + 3 && (next - pos) % 4 == 0)
      && (q.Aligned? && Answer(pos, q) != NULL ==> next == start + q.size)
  {
    WrapSmall(Start(pos, q) + q.size);
    if q.Aligned? {
      AlignUpBounds(pos, q.alignment);
    } else if !Refused(pos, q) {
      PlainStep(pos, q.size);
      RoundUp4Meaning(q.size);
    }
  }

  /** The rounded start of `kmalloc_aligned` does not fall back into blocks already given out exactly
      when rounding does not wrap, which alignment 0 always does. */
  lemma StartsBehindExactly(pos: Word, size: Word, alignment: Word)
    ensures Start(pos, Aligned(size, alignment)) >= pos <==> pos == 0 || (alignment > 0 && pos + alignment - 1 < TWO_TO_32)
  {
    var y, m := Wrap(pos + alignment - 1), Wrap(alignment - 1);
    AndBound(y, Not(m));
    if alignment > 0 && pos + alignment - 1 < TWO_TO_32 {
      AlignUpBounds(pos, alignment);
    } else if alignment > 0 {
      assert y == pos + alignment - 1 - TWO_TO_32 < pos;
    } else {
      assert Not(m) == 0;
    }
  }

  /** With alignment 0 the block starts over at the heap's base. */
  lemma AlignmentZero(pos: Word, size: Word)
    requires size <= HEAP_SIZE
    ensures Answer(pos, Aligned(size, 0)) == 0
  {
  }

  /** What `kcalloc` clears lies in the heap exactly when the sum does not wrap. */
  lemma ClearedExactly(pos: Word, num: Word, size: Word)
    requires Answer(pos, Zeroed(num, size)) != NULL
    ensures Answer(pos, Zeroed(num, size)) + Product(num, size) <= HEAP_SIZE <==> pos + Product(num, size) < TWO_TO_32
  {
    if pos + Product(num, size) < TWO_TO_32 {
      AnswerFits(pos, Product(num, size));
    }
  }

  /** The block `kcalloc` gives has the `num * size` bytes its caller counts on exactly when the product
      is below 2^32; the next block starts inside them otherwise. */
  lemma ProductExactly(pos: Word, num: Word, size: Word)
    requires Answer(pos, Zeroed(num, size)) != NULL && pos + Product(num, size) < TWO_TO_32
    ensures Answer(pos, Zeroed(num, size)) + num * size <= NextPos(pos, Zeroed(num, size)) <==> num * size < TWO_TO_32
  {
    var wanted := num * size;
    assert wanted >= 0;
    BlockSuffices(pos, Wrap(wanted), wanted);
  }

  lemma BlockSuffices(pos: Word, bytes: Word, wanted: nat)
    requires bytes == Wrap(wanted) && Answer(pos, Plain(bytes)) != NULL && pos + bytes < TWO_TO_32
    ensures Answer(pos, Plain(bytes)) + wanted <= NextPos(pos, Plain(bytes)) <==> wanted < TWO_TO_32
  {
    AnswerFits(pos, bytes);
    PlainStep(pos, bytes);
    if wanted < TWO_TO_32 {
      WrapSmall(wanted);
    }
  }

  /** 65536 objects of 65536 bytes get an empty block. */
  lemma ProductLost(pos: Word)
    requires pos <= HEAP_SIZE
    ensures Answer(pos, Zeroed(0x1_0000, 0x1_0000)) == NextPos(pos, Zeroed(0x1_0000, 0x1_0000)) == pos
  {
    assert Product(0x1_0000, 0x1_0000) == 0;
    RoundUp4Meaning(0);
  }

  // ----- Runs

  datatype Block = Block(start: nat, size: nat)

  /** The heap position and the blocks given out so far. */
  datatype State = State(pos: Word, blocks: seq<Block>)

  function Step(s: State, q: Request): State {
    var p := Answer(s.pos, q);
    State(NextPos(s.pos, q), if p == NULL then s.blocks else s.blocks + [Block(p, q.size)])
  }

  function Run(s: State, qs: seq<Request>): State
    decreases qs
  {
    if qs == [] then s else Run(Step(s, qs[0]), qs[1..])
  }

  predicate NoWrapRun(s: State, qs: seq<Request>)
    decreases qs
  {
    qs == [] || (NoWrap(s.pos, qs[0]) && NoWrapRun(Step(s, qs[0]), qs[1..]))
  }

  /** Every block lies in the heap, before the position and behind all earlier blocks. */
  ghost predicate Packed(s: State) {
    && s.pos <= HEAP_SIZE + 3
    && (forall i :: 0 <= i < |s.blocks| ==> s.blocks[i].start + s.blocks[i].size <= s.pos)
    && (forall i :: 0 <= i < |s.blocks| ==> s.blocks[i].start + s.blocks[i].size <= HEAP_SIZE)
    && (forall i, j :: 0 <= i < j < |s.blocks| ==> s.blocks[i].start + s.blocks[i].size <= s.blocks[j].start)
  }

  lemma PlainAdvance(pos: Word, bytes: Word)
    requires pos + bytes <= HEAP_SIZE
    ensures pos + bytes <= pos + RoundUp4(bytes) <= pos + bytes + 3
    ensures Wrap(pos + RoundUp4(bytes)) == pos + RoundUp4(bytes)
  {
    RoundUp4Meaning(bytes);
    WrapSmall(pos + RoundUp4(bytes));
  }

  lemma AlignedBelow(x: nat, y: nat, z: nat)
    requires x % 4 == 0 && y % 4 == 0 && z == x + y && z <= HEAP_SIZE + 3
    ensures z % 4 == 0 && z <= HEAP_SIZE
  {
  }

  lemma PlainStep(pos: Word, size: Word)
    requires pos <= HEAP_SIZE + 3 && pos + size < TWO_TO_32 && !Refused(pos, Plain(size))
    ensures pos + size <= HEAP_SIZE
    ensures NextPos(pos, Plain(size)) == pos + RoundUp4(size) && size <= RoundUp4(size) <= size + 3
  {
    assert pos + size <= HEAP_SIZE by { WrapSmall(pos + size); }
    var r := RoundUp4(size);
    assert size <= r <= size + 3 && Wrap(pos + r) == pos + r by { PlainAdvance(pos, size); }
    assert NextPos(pos, Plain(size)) == Wrap(pos + r);
  }

  lemma AlignedStep(pos: Word, size: Word, alignment: Word)
    requires NoWrap(pos, Aligned(size, alignment)) && !Refused(pos, Aligned(size, alignment))
    ensures var start := AlignUp(pos, alignment);
      pos <= start && start + size == NextPos(pos, Aligned(size, alignment)) <= HEAP_SIZE
  {
    AlignUpBounds(pos, alignment);
    WrapSmall(AlignUp(pos, alignment) + size);
  }

  lemma StepAdvances(pos: Word, q: Request)
    requires pos <= HEAP_SIZE + 3 && NoWrap(pos, q) && !Refused(pos, q)
    ensures pos <= Start(pos, q) && Start(pos, q) + q.size <= HEAP_SIZE
    ensures Start(pos, q) + q.size <= NextPos(pos, q) <= HEAP_SIZE + 3
  {
    match q
    case Plain(size) => PlainStep(pos, size);
    case Aligned(size, alignment) => AlignedStep(pos, size, alignment);
  }

  lemma PlainStaysAligned(pos: Word, size: Word)
    requires pos <= HEAP_SIZE && pos % 4 == 0 && pos + size < TWO_TO_32 && !Refused(pos, Plain(size))
    ensures NextPos(pos, Plain(size)) % 4 == 0 && NextPos(pos, Plain(size)) <= HEAP_SIZE
  {
    PlainStep(pos, size);
    assert RoundUp4(size) % 4 == 0 by { RoundUp4Meaning(size); }
    AlignedBelow(pos, RoundUp4(size), NextPos(pos, Plain(size)));
  }

  lemma StepKeepsPacked(s: State, q: Request)
    requires Packed(s) && NoWrap(s.pos, q)
    ensures Packed(Step(s, q))
  {
    if !Refused(s.pos, q) {
      StepAdvances(s.pos, q);
    }
  }

  /** Over any mix of requests whose sums do not wrap the blocks are disjoint and inside the heap. */
  lemma {:induction false} HeapRuns(s: State, qs: seq<Request>)
    requires Packed(s) && NoWrapRun(s, qs)
    ensures Packed(Run(s, qs)) && s.blocks <= Run(s, qs).blocks
    decreases qs
  {
    if qs != [] {
      StepKeepsPacked(s, qs[0]);
      HeapRuns(Step(s, qs[0]), qs[1..]);
    }
  }

  /** Without aligned requests the position stays word aligned and inside the heap. */
  lemma {:induction false} PlainRuns(s: State, qs: seq<Request>)
    requires Packed(s) && NoWrapRun(s, qs) && s.pos % 4 == 0 && s.pos <= HEAP_SIZE
    requires forall q :: q in qs ==> !q.Aligned?
    ensures Run(s, qs).pos % 4 == 0 && Run(s, qs).pos <= HEAP_SIZE
    decreases qs
  {
    if qs != [] {
      StepKeepsPacked(s, qs[0]);
      if !Refused(s.pos, qs[0]) {
        PlainStaysAligned(s.pos, qs[0].size);
      }
      PlainRuns(Step(s, qs[0]), qs[1..]);
    }
  }

  /** Three stray bytes are reached: the bound of `Packed` is tight. */
  lemma BoundIsTight()
    ensures var qs := [Aligned(0x7FFF, 1), Plain(1)];
      NoWrapRun(State(0, []), qs) && Run(State(0, []), qs).pos == HEAP_SIZE + 3
  {
    var s := State(0, []);
    var qs := [Aligned(0x7FFF, 1), Plain(1)];
    assert Start(0, qs[0]) == 0 by { AlignUpBounds(0, 1); }
    var t := Step(s, qs[0]);
    assert t.pos == 0x7FFF;
    assert qs[1..] == [Plain(1)] && qs[1..][1..] == [];
    assert RoundUp4(1) == 4 by { RoundUp4Meaning(1); }
    assert NextPos(0x7FFF, Plain(1)) == 0x8003;
  }

  /** `kmalloc_aligned` starts at a multiple of the alignment, wherever the heap stands, exactly when
      the alignment has one bit. */
  lemma StartsAlignedExactly(size: Word, alignment: Word)
    requires alignment > 0
    ensures (forall pos: Word :: NoWrap(pos, Aligned(0, alignment)) ==> Start(pos, Aligned(size, alignment)) % alignment == 0)
      <==> And(alignment, alignment - 1) == 0
  {
    AlignsExactly(alignment);
    if And(alignment, alignment - 1) != 0 {
      AlignUpBounds(1, alignment);
      NotAlignedFromOne(alignment);
      assert NoWrap(1, Aligned(0, alignment));
    }
  }

  lemma NotAlignedFromOne(a: Word)
    requires a > 0 && And(a, a - 1) != 0
    ensures AlignUp(1, a) % a != 0
  {
    AlignUpIs(1, a);
    AndBound(a, a - 1);
    RemainderIs(AlignUp(1, a), a, 0, AlignUp(1, a));
  }

  /** Asked for a multiple of 12 behind position 1 it answers 4. */
  lemma TwelveIsFour(size: Word)
    ensures Start(1, Aligned(size, 12)) == 4
  {
    AlignUpIs(1, 12);
    assert And(3, 2) == 2;
    assert And(12, 11) == 8;
  }

  /** An aligned block is aligned relative to the heap's base. */
  lemma AlignedBlocks(pos: Word, size: Word, alignment: Word)
    requires alignment > 0 && And(alignment, alignment - 1) == 0 && pos + alignment - 1 < TWO_TO_32
    requires Answer(pos, Aligned(size, alignment)) != NULL
    ensures Answer(pos, Aligned(size, alignment)) % alignment == 0
  {
    AlignsExactly(alignment);
  }

  /** As a machine address such a block is aligned exactly when the heap array itself is: the code aligns
      the offset, not the address. */
  lemma AddressAlignedExactly(base: nat, pos: Word, size: Word, alignment: Word)
    requires alignment > 0 && And(alignment, alignment - 1) == 0 && pos + alignment - 1 < TWO_TO_32
    requires Answer(pos, Aligned(size, alignment)) != NULL
    ensures (base + Answer(pos, Aligned(size, alignment))) % alignment == 0 <==> base % alignment == 0
  {
    AlignedBlocks(pos, size, alignment);
    MultipleAdded(base, Answer(pos, Aligned(size, alignment)), alignment);
  }

  lemma MultipleAdded(x: nat, y: nat, d: nat)
    requires d > 0 && y % d == 0
    ensures (x + y) % d == x % d
  {
    var q, p := x / d, y / d;
    assert x + y == d * (q + p) + x % d;
    RemainderIs(x + y, d, q + p, x % d);
  }
}
