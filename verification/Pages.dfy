/** The physical page allocator (`kernel/memory.c`): a bitmap of 1024 pages and a counter beside it. */
module Pages {
  import opened Bits

  const PAGE_SIZE := 4096
  const MAX_PAGES := 1024
  const RESERVED := 256  // the first megabyte, never handed out

  /** Page `i` is marked in a bitmap of 32-bit words. */
  predicate Marked(bitmap: seq<Word>, i: nat)
    requires |bitmap| == MAX_PAGES / 32 && i < MAX_PAGES
  {
    Bit(bitmap[i / 32], i % 32)
  }

  ghost function Held(bitmap: seq<Word>): set<nat>
    requires |bitmap| == MAX_PAGES / 32
  {
    set i: nat | i < MAX_PAGES && Marked(bitmap, i)
  }

  predicate IsBelow(i: nat, n: nat) {
    i < n
  }

  /** The pages `0..n`. */
  ghost function Below(n: nat): set<nat> {
    set i: nat | i < n && IsBelow(i, n)
  }

  lemma {:induction false} BelowSize(n: nat)
    ensures |Below(n)| == n
  {
    if n > 0 {
      BelowSize(n - 1);
      assert Below(n) == Below(n - 1) + {n - 1};
    }
  }

  /** The allocator as a value. */
  datatype Pool = Pool(held: set<nat>, used: Word)

  function LowestFree(held: set<nat>, i: nat): (r: nat)
    requires i <= MAX_PAGES
    ensures i <= r <= MAX_PAGES
    ensures r < MAX_PAGES ==> r !in held
    ensures forall k :: i <= k < r ==> k in held
    decreases MAX_PAGES - i
  {
    if i == MAX_PAGES || i !in held then i else LowestFree(held, i + 1)
  }

  function Take(p: Pool, page: nat): Pool {
    Pool(p.held + {page}, Wrap(p.used + 1))
  }

  function Release(p: Pool, page: nat): Pool {
    if page < MAX_PAGES then Pool(p.held - {page}, Wrap(p.used - 1)) else p
  }

  /** The address `alloc_page` answers. */
  function Answer(p: Pool): Word {
    var i := LowestFree(p.held, 0);
    if i == MAX_PAGES then 0 else i * PAGE_SIZE
  }

  lemma MarkPage(bitmap: seq<Word>, i: nat)
    requires |bitmap| == MAX_PAGES / 32 && i < MAX_PAGES
    ensures 0 <= Or(bitmap[i / 32], Pow2(i % 32)) < TWO_TO_32
    ensures Held(bitmap[i / 32 := Or(bitmap[i / 32], Pow2(i % 32))]) == Held(bitmap) + {i}
  {
    var w := bitmap[i / 32];
    SetBit(w, i % 32, 0);
    forall j: nat | j < MAX_PAGES
      ensures Marked(bitmap[i / 32 := Or(w, Pow2(i % 32))], j) <==> j == i || Marked(bitmap, j)
    {
      SetBit(w, i % 32, j % 32);
    }
  }

  lemma UnmarkPage(bitmap: seq<Word>, i: nat)
    requires |bitmap| == MAX_PAGES / 32 && i < MAX_PAGES
    ensures Pow2(i % 32) < TWO_TO_32 && And(bitmap[i / 32], Not(Pow2(i % 32))) < TWO_TO_32
    ensures Held(bitmap[i / 32 := And(bitmap[i / 32], Not(Pow2(i % 32)))]) == Held(bitmap) - {i}
  {
    var w := bitmap[i / 32];
    ClearBit(w, i % 32, 0);
    forall j: nat | j < MAX_PAGES
      ensures Marked(bitmap[i / 32 := And(w, Not(Pow2(i % 32)))], j) <==> j != i && Marked(bitmap, j)
    {
      ClearBit(w, i % 32, j % 32);
    }
  }

  class Allocator {
    const pageBitmap: array<Word>
    var usedPages: Word

    ghost predicate Valid() {
      pageBitmap.Length == MAX_PAGES / 32
    }

    ghost function View(): Pool
      reads this, pageBitmap
      requires Valid()
    {
      Pool(Held(pageBitmap[..]), usedPages)
    }

    /** `memory_init`. */
    constructor ()
      ensures Valid() && fresh(pageBitmap)
      ensures View() == Pool(Below(RESERVED), RESERVED)
    {
      pageBitmap := new Word[MAX_PAGES / 32](_ => 0);
      usedPages := 0;
      new;
      forall i: nat ensures !Bit(0, i) { BitOfZero(i); }
      for i := 0 to RESERVED
        invariant Held(pageBitmap[..]) == Below(i)
      {
        Mark(i);
      }
      usedPages := RESERVED;
    }

    method AllocPage() returns (addr: Word)
      requires Valid()
      modifies this, pageBitmap
      ensures addr == Answer(old(View()))
      ensures var i := LowestFree(old(View()).held, 0);
        View() == if i == MAX_PAGES then old(View()) else Take(old(View()), i)
    {
      ghost var before := pageBitmap[..];
      for i := 0 to MAX_PAGES
        invariant pageBitmap[..] == before && usedPages == old(usedPages)
        invariant LowestFree(Held(before), 0) == LowestFree(Held(before), i)
      {
        AndPow2(pageBitmap[i / 32], i % 32);
        if And(pageBitmap[i / 32], Pow2(i % 32)) == 0 {
          Mark(i);
          usedPages := Wrap(usedPages + 1);
          return i * PAGE_SIZE;
        }
      }
      return 0;
    }

    /** Sets the bit of page `i`. */
    method Mark(i: nat)
      requires Valid() && i < MAX_PAGES
      modifies pageBitmap
      ensures Held(pageBitmap[..]) == Held(old(pageBitmap[..])) + {i}
    {
      ghost var before := pageBitmap[..];
      MarkPage(before, i);
      pageBitmap[i / 32] := Or(pageBitmap[i / 32], Pow2(i % 32));
      assert pageBitmap[..] == before[i / 32 := Or(before[i / 32], Pow2(i % 32))];
    }

    method FreePage(addr: Word)
      requires Valid()
      modifies this, pageBitmap
      ensures View() == Release(old(View()), addr / PAGE_SIZE)
    {
      var n := addr / PAGE_SIZE;
      if n < MAX_PAGES {
        ghost var before := pageBitmap[..];
        UnmarkPage(before, n);
        pageBitmap[n / 32] := And(pageBitmap[n / 32], Not(Pow2(n % 32)));
        assert pageBitmap[..] == before[n / 32 := And(before[n / 32], Not(Pow2(n % 32)))];
        usedPages := Wrap(usedPages - 1);
      }
    }
  }

  // ----- Runs of clients that free only what they hold

  datatype Event = Alloc | Free(addr: Word)

  /** The pool and the pages its clients hold. */
  datatype Clients = Clients(pool: Pool, owned: set<nat>)

  ghost const Boot := Clients(Pool(Below(RESERVED), RESERVED), {})

  predicate Legal(c: Clients, e: Event) {
    e.Free? ==> e.addr / PAGE_SIZE in c.owned
  }

  function Step(c: Clients, e: Event): Clients {
    match e
    case Alloc =>
      var i := LowestFree(c.pool.held, 0);
      if i == MAX_PAGES then c else Clients(Take(c.pool, i), c.owned + {i})
    case Free(addr) => Clients(Release(c.pool, addr / PAGE_SIZE), c.owned - {addr / PAGE_SIZE})
  }

  predicate LegalRun(c: Clients, es: seq<Event>)
    decreases es
  {
    es == [] || (Legal(c, es[0]) && LegalRun(Step(c, es[0]), es[1..]))
  }

  function Run(c: Clients, es: seq<Event>): Clients
    decreases es
  {
    if es == [] then c else Run(Step(c, es[0]), es[1..])
  }

  /** The counter counts the marked pages; the first megabyte is marked. */
  ghost predicate Counted(p: Pool) {
    Below(RESERVED) <= p.held <= Below(MAX_PAGES) && p.used == |p.held|
  }

  /** The marked pages are the reserved ones and the owned ones. */
  ghost predicate Inv(c: Clients) {
    && Counted(c.pool)
    && c.pool.held == Below(RESERVED) + c.owned
    && (forall i :: i in c.owned ==> RESERVED <= i < MAX_PAGES)
  }

  lemma SubsetSize(small: set<nat>, large: set<nat>)
    requires small <= large
    ensures |small| <= |large| && (|small| == |large| <==> small == large)
  {
    assert |large| == |small| + |large - small| by {
      assert large == small + (large - small);
    }
  }

  lemma HeldBound(held: set<nat>)
    requires held <= Below(MAX_PAGES)
    ensures |held| <= MAX_PAGES
    ensures |held| == MAX_PAGES <==> held == Below(MAX_PAGES)
    ensures held == Below(MAX_PAGES) <==> LowestFree(held, 0) == MAX_PAGES
  {
    BelowSize(MAX_PAGES);
    SubsetSize(held, Below(MAX_PAGES));
    FullExactly(held);
  }

  lemma FullExactly(held: set<nat>)
    requires held <= Below(MAX_PAGES)
    ensures held == Below(MAX_PAGES) <==> LowestFree(held, 0) == MAX_PAGES
  {
    var i := LowestFree(held, 0);
    if i == MAX_PAGES {
      assert Below(MAX_PAGES) <= held;
    } else {
      assert IsBelow(i, MAX_PAGES) && i in Below(MAX_PAGES);
    }
  }

  lemma TakeCounted(p: Pool)
    requires Counted(p) && LowestFree(p.held, 0) < MAX_PAGES
    ensures Counted(Take(p, LowestFree(p.held, 0))) && LowestFree(p.held, 0) >= RESERVED
  {
    var i := LowestFree(p.held, 0);
    HeldBound(p.held);
    assert i !in Below(RESERVED);
    assert |p.held + {i}| == |p.held| + 1;
  }

  lemma ReleaseCounted(p: Pool, page: nat)
    requires Counted(p) && page in p.held && page >= RESERVED
    ensures Counted(Release(p, page))
  {
    HeldBound(p.held);
    assert page in Below(MAX_PAGES);
    assert |p.held - {page}| == |p.held| - 1;
  }

  lemma StepKeepsInv(c: Clients, e: Event)
    requires Inv(c) && Legal(c, e)
    ensures Inv(Step(c, e))
  {
    match e
    case Alloc =>
      if LowestFree(c.pool.held, 0) < MAX_PAGES {
        AllocKeepsInv(c, LowestFree(c.pool.held, 0));
      }
    case Free(addr) => FreeKeepsInv(c, addr / PAGE_SIZE);
  }

  lemma AllocKeepsInv(c: Clients, i: nat)
    requires Inv(c) && i == LowestFree(c.pool.held, 0) < MAX_PAGES
    ensures Inv(Clients(Take(c.pool, i), c.owned + {i}))
  {
    TakeCounted(c.pool);
    assert (Below(RESERVED) + c.owned) + {i} == Below(RESERVED) + (c.owned + {i});
  }

  lemma FreeKeepsInv(c: Clients, n: nat)
    requires Inv(c) && n in c.owned
    ensures Inv(Clients(Release(c.pool, n), c.owned - {n}))
  {
    ReleaseCounted(c.pool, n);
    assert n !in Below(RESERVED);
    assert (Below(RESERVED) + c.owned) - {n} == Below(RESERVED) + (c.owned - {n});
  }

  lemma {:induction false} RunKeepsInv(c: Clients, es: seq<Event>)
    requires Inv(c) && LegalRun(c, es)
    ensures Inv(Run(c, es))
    decreases es
  {
    if es != [] {
      StepKeepsInv(c, es[0]);
      RunKeepsInv(Step(c, es[0]), es[1..]);
    }
  }

  lemma BootInv()
    ensures Inv(Boot)
  {
    BelowSize(RESERVED);
  }

  /** After any run from boot whose frees are of held pages, `used_pages` is the population count; the
      next page given out is the lowest free one, new to every client and above the first megabyte, and
      a zero answer means that the bitmap is full. */
  lemma AllocatorRuns(es: seq<Event>)
    requires LegalRun(Boot, es)
    ensures var c := Run(Boot, es);
      var i := LowestFree(c.pool.held, 0);
      && c.pool.used == |c.pool.held|
      && c.pool.held == Below(RESERVED) + c.owned
      && (i == MAX_PAGES <==> c.pool.held == Below(MAX_PAGES))
      && (i == MAX_PAGES <==> c.pool.used == MAX_PAGES)
      && (i < MAX_PAGES ==> i >= RESERVED && i !in c.owned && (forall k :: 0 <= k < i ==> k in c.pool.held))
  {
    BootInv();
    RunKeepsInv(Boot, es);
    HeldBound(Run(Boot, es).pool.held);
  }

  /** `free_page` trusts its caller: the counter keeps agreeing with the bitmap exactly when the freed
      page was marked (or lies beyond the managed memory and is ignored). */
  lemma CounterAgreesExactly(p: Pool, addr: Word)
    requires p.held <= Below(MAX_PAGES) && p.used == |p.held|
    ensures var q := Release(p, addr / PAGE_SIZE);
      q.used == |q.held| <==> addr / PAGE_SIZE >= MAX_PAGES || addr / PAGE_SIZE in p.held
  {
    var n := addr / PAGE_SIZE;
    HeldBound(p.held);
    if n in p.held {
      assert |p.held - {n}| == |p.held| - 1;
    } else {
      assert p.held - {n} == p.held;
    }
  }

  /** Freeing page 300 at boot leaves the counter at 255 over 256 marked pages. */
  lemma CounterAfterStrayFree()
    ensures var p := Release(Boot.pool, 300);
      p.used == 255 && |p.held| == 256
  {
    BelowSize(RESERVED);
    assert 300 !in Below(RESERVED) && Below(RESERVED) - {300} == Below(RESERVED);
  }

  /** The address answered is that of the lowest page not marked. */
  lemma AnswerIsLowest(p: Pool)
    requires LowestFree(p.held, 0) < MAX_PAGES
    ensures var n := Answer(p) / 4096;
      Answer(p) == n * 4096 && n < 1024 && n !in p.held && forall k :: 0 <= k < n ==> k in p.held
  {
  }

  /** Giving the address back undoes the allocation. */
  lemma TakeReleaseAddress(p: Pool)
    requires LowestFree(p.held, 0) < MAX_PAGES
    ensures Release(Take(p, LowestFree(p.held, 0)), Answer(p) / 4096) == p
  {
    AnswerIsLowest(p);
    TakeRelease(p);
  }

  /** An answer of 0 means that every page is marked exactly as long as page 0 is. */
  lemma ZeroMeansFullExactly(p: Pool)
    ensures (Answer(p) == 0 ==> LowestFree(p.held, 0) == MAX_PAGES) <==> 0 in p.held
  {
  }

  /** Freeing page 0 at boot keeps counter and bitmap in agreement, and the next allocation then answers
      0, as if there were no page. */
  lemma ZeroAfterFreeingPageZero()
    ensures var p := Release(Boot.pool, 0);
      p.used == |p.held| == 255 && Answer(p) == 0 && LowestFree(p.held, 0) == 0
  {
    BelowSize(RESERVED);
    assert IsBelow(0, RESERVED) && 0 in Below(RESERVED);
    assert |Below(RESERVED) - {0}| == |Below(RESERVED)| - 1;
  }

  /** A page given out and given back leaves the allocator as it was. */
  lemma TakeRelease(p: Pool)
    requires LowestFree(p.held, 0) < MAX_PAGES
    ensures Release(Take(p, LowestFree(p.held, 0)), LowestFree(p.held, 0)) == p
  {
    var i := LowestFree(p.held, 0);
    assert (p.held + {i}) - {i} == p.held;
  }
}
