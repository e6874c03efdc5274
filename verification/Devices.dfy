/** The device list (`kernel/device.c`): nodes carved out of pages, linked by their addresses. */
module Devices {
  import opened Bits
  import opened Common
  import opened CStrings
  import opened Pages

  const NAME_LIMIT := 31
  const NULL: Word := 0

  /** What a registration says; `ops` stands for the operation table's address. */
  datatype Info = Info(name: CString, kind: Word, major: Word, minor: Word, ops: Word)

  /** A page read as a `device_t`. */
  datatype Node = Node(info: Info, next: Word)

  // ----- The list as a value

  /** The page pool, the pages of the list in order, and what is registered on each. */
  datatype Registry = Registry(pool: Pool, chain: seq<nat>, infos: seq<Info>)

  /** The first registration under a name, or -1. */
  function IndexOf(infos: seq<Info>, name: CString): (r: int)
    ensures -1 <= r < |infos|
    ensures r == -1 <==> forall i :: 0 <= i < |infos| ==> infos[i].name != name
    ensures r >= 0 ==> infos[r].name == name && forall i :: 0 <= i < r ==> infos[i].name != name
  {
    First(infos, (d: Info) => d.name == name)
  }

  /** The address `device_find` answers: the most recent registration, 0 for none. */
  function Find(g: Registry, name: CString): int
    requires |g.chain| == |g.infos|
  {
    var k := IndexOf(g.infos, name);
    if k == -1 then NULL else g.chain[k] * PAGE_SIZE
  }

  /** The first registration with both numbers, or -1. */
  function NumberIndex(infos: seq<Info>, major: Word, minor: Word): (r: int)
    ensures -1 <= r < |infos|
    ensures r == -1 <==> forall i :: 0 <= i < |infos| ==> infos[i].major != major || infos[i].minor != minor
    ensures r >= 0 ==> infos[r].major == major && infos[r].minor == minor
    ensures r >= 0 ==> forall i :: 0 <= i < r ==> infos[i].major != major || infos[i].minor != minor
  {
    First(infos, (d: Info) => d.major == major && d.minor == minor)
  }

  function FindNumber(g: Registry, major: Word, minor: Word): int
    requires |g.chain| == |g.infos|
  {
    var k := NumberIndex(g.infos, major, minor);
    if k == -1 then NULL else g.chain[k] * PAGE_SIZE
  }

  function Register(g: Registry, info: Info): Registry {
    var i := LowestFree(g.pool.held, 0);
    if i == MAX_PAGES then g
    else Registry(Take(g.pool, i), [i] + g.chain, [info.(name := Truncate(info.name, NAME_LIMIT))] + g.infos)
  }

  function Unregister(g: Registry, name: CString): Registry
    requires |g.chain| == |g.infos|
  {
    var k := IndexOf(g.infos, name);
    if k == -1 then g
    else Registry(Release(g.pool, g.chain[k]), Without(g.chain, k), Without(g.infos, k))
  }

  ghost predicate Distinct(s: seq<nat>) {
    forall i, j :: 0 <= i < j < |s| ==> s[i] != s[j]
  }

  /** Nodes lie on pairwise distinct allocated pages above the first megabyte. */
  ghost predicate Sound(g: Registry) {
    && |g.chain| == |g.infos|
    && Distinct(g.chain)
    && (forall i :: 0 <= i < |g.chain| ==> g.chain[i] in g.pool.held && RESERVED <= g.chain[i] < MAX_PAGES)
    && (forall i :: 0 <= i < |g.infos| ==> |g.infos[i].name| <= NAME_LIMIT)
    && Counted(g.pool)
  }

  // ----- The list in memory

  /** The nodes reached from `head` are on the pages `chain`, and the last one ends the list. */
  ghost predicate Linked(frames: seq<Node>, head: Word, chain: seq<nat>)
    requires |frames| == MAX_PAGES
    decreases chain
  {
    if chain == [] then head == NULL
    else 0 < chain[0] < MAX_PAGES && head == chain[0] * PAGE_SIZE && Linked(frames, frames[chain[0]].next, chain[1..])
  }

  lemma {:induction false} LinkedElsewhere(frames: seq<Node>, head: Word, chain: seq<nat>, page: nat, n: Node)
    requires |frames| == MAX_PAGES && page < MAX_PAGES && page !in chain
    requires Linked(frames, head, chain)
    ensures Linked(frames[page := n], head, chain)
    decreases chain
  {
    if chain != [] {
      LinkedElsewhere(frames, frames[chain[0]].next, chain[1..], page, n);
    }
  }

  lemma {:induction false} LinkedFrom(frames: seq<Node>, head: Word, chain: seq<nat>, k: nat)
    requires |frames| == MAX_PAGES && k < |chain| && Linked(frames, head, chain)
    ensures 0 < chain[k] < MAX_PAGES && Linked(frames, frames[chain[k]].next, chain[k + 1..])
    decreases chain
  {
    if k > 0 {
      LinkedFrom(frames, frames[chain[0]].next, chain[1..], k - 1);
      assert chain[1..][k..] == chain[k + 1..];
    }
  }

  /** Redirecting node `k - 1` to the successor of node `k` unlinks node `k`. */
  lemma {:induction false} LinkedWithout(frames: seq<Node>, head: Word, chain: seq<nat>, k: nat)
    requires |frames| == MAX_PAGES && 0 < k < |chain| && Linked(frames, head, chain) && Distinct(chain)
    requires chain[k] < MAX_PAGES && chain[k - 1] < MAX_PAGES
    ensures var n := frames[chain[k - 1]].(next := frames[chain[k]].next);
      Linked(frames[chain[k - 1] := n], head, Without(chain, k))
    decreases chain
  {
    var p, n := chain[k - 1], frames[chain[k - 1]].(next := frames[chain[k]].next);
    if k == 1 {
      LinkedFrom(frames, head, chain, 1);
      LinkedElsewhere(frames, n.next, chain[2..], p, n);
      assert Without(chain, 1)[1..] == chain[2..];
    } else {
      LinkedWithout(frames, frames[chain[0]].next, chain[1..], k - 1);
      assert Without(chain, k)[1..] == Without(chain[1..], k - 1);
    }
  }

  ghost function Infos(frames: seq<Node>, chain: seq<nat>): seq<Info>
    requires |frames| == MAX_PAGES && forall i :: 0 <= i < |chain| ==> chain[i] < MAX_PAGES
  {
    seq(|chain|, i requires 0 <= i < |chain| => frames[chain[i]].info)
  }

  lemma PushNode(frames: seq<Node>, head: Word, chain: seq<nat>, page: nat, n: Node)
    requires |frames| == MAX_PAGES && forall i :: 0 <= i < |chain| ==> chain[i] < MAX_PAGES
    requires Linked(frames, head, chain) && page !in chain && 0 < page < MAX_PAGES && n.next == head
    ensures Linked(frames[page := n], page * PAGE_SIZE, [page] + chain)
    ensures Infos(frames[page := n], [page] + chain) == [n.info] + Infos(frames, chain)
  {
    LinkedElsewhere(frames, head, chain, page, n);
    assert ([page] + chain)[1..] == chain;
  }

  lemma InfosWithout(frames: seq<Node>, after: seq<Node>, chain: seq<nat>, k: nat)
    requires |frames| == |after| == MAX_PAGES && k < |chain| && forall i :: 0 <= i < |chain| ==> chain[i] < MAX_PAGES
    requires forall i :: 0 <= i < MAX_PAGES ==> after[i].info == frames[i].info
    ensures Infos(after, Without(chain, k)) == Without(Infos(frames, chain), k)
  {
    var w := Without(chain, k);
    assert forall i :: 0 <= i < |w| ==> w[i] == chain[if i < k then i else i + 1];
  }

  /** Both ways `device_unregister` unlinks node `k`. */
  lemma UnlinkFirst(frames: seq<Node>, head: Word, chain: seq<nat>)
    requires |frames| == MAX_PAGES && chain != [] && forall i :: 0 <= i < |chain| ==> chain[i] < MAX_PAGES
    requires Linked(frames, head, chain)
    ensures Linked(frames, frames[chain[0]].next, Without(chain, 0))
    ensures Infos(frames, Without(chain, 0)) == Without(Infos(frames, chain), 0)
  {
    assert Without(chain, 0) == chain[1..];
    InfosWithout(frames, frames, chain, 0);
  }

  lemma UnlinkLater(frames: seq<Node>, head: Word, chain: seq<nat>, k: nat)
    requires |frames| == MAX_PAGES && 0 < k < |chain| && forall i :: 0 <= i < |chain| ==> chain[i] < MAX_PAGES
    requires Linked(frames, head, chain) && Distinct(chain)
    ensures var after := frames[chain[k - 1] := frames[chain[k - 1]].(next := frames[chain[k]].next)];
      Linked(after, head, Without(chain, k)) && Infos(after, Without(chain, k)) == Without(Infos(frames, chain), k)
  {
    var after := frames[chain[k - 1] := frames[chain[k - 1]].(next := frames[chain[k]].next)];
    LinkedWithout(frames, head, chain, k);
    InfosWithout(frames, after, chain, k);
  }

  /** The address of the node before node `k`, NULL for the head. */
  function AddressBefore(chain: seq<nat>, k: nat): int
    requires k <= |chain|
  {
    if k == 0 then NULL else chain[k - 1] * PAGE_SIZE
  }

  class DeviceList {
    const pages: Allocator
    const frames: array<Node>
    var deviceList: Word
    ghost var chain: seq<nat>

    /** The memory part: the chain is the list that `device_list` starts. */
    ghost predicate Shape()
      reads this, frames
    {
      && frames.Length == MAX_PAGES
      && (forall i :: 0 <= i < |chain| ==> chain[i] < MAX_PAGES)
      && Linked(frames[..], deviceList, chain)
    }

    ghost function Registered(): seq<Info>
      reads this, frames
      requires Shape()
    {
      Infos(frames[..], chain)
    }

    ghost predicate Valid()
      reads this, frames, pages, pages.pageBitmap
    {
      pages.Valid() && Shape() && Sound(View())
    }

    ghost function View(): Registry
      reads this, frames, pages, pages.pageBitmap
      requires pages.Valid() && Shape()
    {
      Registry(pages.View(), chain, Registered())
    }

    /** `device_init` over a freshly initialised allocator. */
    constructor (pages: Allocator)
      requires pages.Valid() && pages.View() == Boot.pool
      ensures Valid() && this.pages == pages && fresh(frames)
      ensures View() == Registry(Boot.pool, [], [])
    {
      this.pages := pages;
      frames := new Node[MAX_PAGES](_ => Node(Info("", 0, 0, 0, 0), NULL));
      deviceList := NULL;
      chain := [];
      new;
      BootInv();
    }

    method DeviceRegister(info: Info) returns (r: int)
      requires Valid()
      modifies this, frames, pages, pages.pageBitmap
      ensures Valid() && View() == Register(old(View()), info)
      ensures r == if LowestFree(old(View()).pool.held, 0) == MAX_PAGES then -1 else 0
    {
      ghost var g := View();
      RegisterKeepsSound(g, info);
      FreshPage(g);
      var addr := pages.AllocPage();
      if addr == NULL {
        return -1;
      }
      assert addr / PAGE_SIZE == LowestFree(g.pool.held, 0);
      Prepend(addr, info.(name := Truncate(info.name, NAME_LIMIT)));
      assert View() == Register(g, info);
      return 0;
    }

    /** Fills the new node and makes it the head of the list. */
    method Prepend(addr: Word, info: Info)
      requires Shape() && 0 < addr / PAGE_SIZE < MAX_PAGES && addr % PAGE_SIZE == 0
      requires addr / PAGE_SIZE !in chain
      modifies this, frames
      ensures Shape() && chain == [addr / PAGE_SIZE] + old(chain) && Registered() == [info] + old(Registered())
    {
      var page := addr / PAGE_SIZE;
      var node := Node(info, deviceList);
      PushNode(frames[..], deviceList, chain, page, node);
      ghost var before := frames[..];
      frames[page] := node;
      deviceList := addr;
      chain := [page] + chain;
      assert frames[..] == before[page := node];
    }

    method DeviceUnregister(name: CString) returns (r: int)
      requires Valid()
      modifies this, frames, pages, pages.pageBitmap
      ensures Valid() && View() == Unregister(old(View()), name)
      ensures r == if IndexOf(old(View()).infos, name) == -1 then -1 else 0
    {
      ghost var g := View();
      ghost var k := IndexOf(g.infos, name);
      UnregisterKeepsSound(g, name);
      var current, prev := Search(name);
      if current == NULL {
        return -1;
      }
      TakeOut(current, prev, k);
      assert pages.View() == g.pool && current / PAGE_SIZE == g.chain[k];
      pages.FreePage(current);
      assert pages.View() == Release(g.pool, g.chain[k]);
      assert Shape() && chain == Without(g.chain, k) && Registered() == Without(g.infos, k);
      assert View() == Unregister(g, name);
      return 0;
    }

    /** Walks the list to the first node of that name, remembering the node before it. */
    method Search(name: CString) returns (current: Word, prev: Word)
      requires Shape()
      ensures var k := IndexOf(Registered(), name);
        && current == (if k == -1 then NULL else chain[k] * PAGE_SIZE)
        && (k != -1 ==> current != NULL && prev == AddressBefore(chain, k))
    {
      ghost var infos := Registered();
      current, prev := deviceList, NULL;
      ghost var k := 0;
      while current != NULL
        invariant k <= |chain| && Linked(frames[..], current, chain[k..])
        invariant prev == AddressBefore(chain, k)
        invariant forall i :: 0 <= i < k ==> infos[i].name != name
        decreases |chain| - k
      {
        var page := current / PAGE_SIZE;
        assert chain[k..][0] == chain[k] == page;
        assert infos[k] == frames[page].info;
        if frames[page].info.name == name {
          assert IndexOf(infos, name) == k;
          return;
        }
        prev := current;
        current := frames[page].next;
        assert chain[k..][1..] == chain[k + 1..];
        k := k + 1;
      }
    }

    /** Unlinks the node `current`, which follows `prev` or heads the list. */
    method TakeOut(current: Word, prev: Word, ghost k: nat)
      requires Shape() && Distinct(chain) && k < |chain|
      requires current == chain[k] * PAGE_SIZE && prev == AddressBefore(chain, k)
      modifies this, frames
      ensures Shape() && chain == Without(old(chain), k) && Registered() == Without(old(Registered()), k)
    {
      ghost var fs, ps := frames[..], chain;
      var page := current / PAGE_SIZE;
      assert page == ps[k];
      LinkedFrom(fs, deviceList, ps, k);
      if prev != NULL {
        UnlinkLater(fs, deviceList, ps, k);
        frames[prev / PAGE_SIZE] := frames[prev / PAGE_SIZE].(next := frames[page].next);
        assert frames[..] == fs[ps[k - 1] := fs[ps[k - 1]].(next := fs[page].next)];
      } else {
        if k > 0 {
          LinkedFrom(fs, deviceList, ps, k - 1);
        }
        UnlinkFirst(fs, deviceList, ps);
        deviceList := frames[page].next;
      }
      chain := Without(ps, k);
    }

    method DeviceFind(name: CString) returns (addr: Word)
      requires Valid()
      ensures addr == Find(View(), name)
    {
      addr := deviceList;
      ghost var k := 0;
      while addr != NULL
        invariant k <= |chain| && Linked(frames[..], addr, chain[k..])
        invariant forall i :: 0 <= i < k ==> View().infos[i].name != name
        decreases |chain| - k
      {
        var page := addr / PAGE_SIZE;
        assert chain[k..][0] == chain[k] == page;
        assert View().infos[k] == frames[page].info;
        if frames[page].info.name == name {
          assert IndexOf(View().infos, name) == k;
          return;
        }
        addr := frames[page].next;
        assert chain[k..][1..] == chain[k + 1..];
        k := k + 1;
      }
    }

    method DeviceFindByNumber(major: Word, minor: Word) returns (addr: Word)
      requires Valid()
      ensures addr == FindNumber(View(), major, minor)
    {
      addr := deviceList;
      ghost var k := 0;
      while addr != NULL
        invariant k <= |chain| && Linked(frames[..], addr, chain[k..])
        invariant forall i :: 0 <= i < k ==> View().infos[i].major != major || View().infos[i].minor != minor
        decreases |chain| - k
      {
        var page := addr / PAGE_SIZE;
        assert chain[k..][0] == chain[k] == page;
        assert View().infos[k] == frames[page].info;
        if frames[page].info.major == major && frames[page].info.minor == minor {
          assert NumberIndex(View().infos, major, minor) == k;
          return;
        }
        addr := frames[page].next;
        assert chain[k..][1..] == chain[k + 1..];
        k := k + 1;
      }
    }
  }

  // ----- Properties of the list

  lemma FreshPage(g: Registry)
    requires Sound(g)
    ensures var i := LowestFree(g.pool.held, 0); i !in g.chain && RESERVED <= i
  {
    if LowestFree(g.pool.held, 0) < MAX_PAGES {
      TakeCounted(g.pool);
    }
  }

  lemma RegisterKeepsSound(g: Registry, info: Info)
    requires Sound(g)
    ensures Sound(Register(g, info))
  {
    if LowestFree(g.pool.held, 0) < MAX_PAGES {
      TakeCounted(g.pool);
      FreshPage(g);
    }
  }

  lemma UnregisterKeepsSound(g: Registry, name: CString)
    requires Sound(g)
    ensures Sound(Unregister(g, name))
  {
    var k := IndexOf(g.infos, name);
    if k != -1 {
      ReleaseCounted(g.pool, g.chain[k]);
      var w := Without(g.chain, k);
      assert forall i :: 0 <= i < |w| ==> w[i] == g.chain[if i < k then i else i + 1];
    }
  }

  /** Registering makes the new node the answer for its name exactly when the name fits its buffer. */
  lemma FindsMostRecent(g: Registry, info: Info)
    requires Sound(g) && LowestFree(g.pool.held, 0) < MAX_PAGES
    ensures Find(Register(g, info), info.name) == LowestFree(g.pool.held, 0) * PAGE_SIZE <==> |info.name| <= NAME_LIMIT
    ensures forall other: CString :: other != Truncate(info.name, NAME_LIMIT) ==> Find(Register(g, info), other) == Find(g, other)
  {
    var i, cut := LowestFree(g.pool.held, 0), info.(name := Truncate(info.name, NAME_LIMIT));
    HeldBound(g.pool.held);
    IndexOfPush(g.infos, cut, info.name);
    if |info.name| <= NAME_LIMIT {
      assert Find(Register(g, info), info.name) == i * PAGE_SIZE;
    } else {
      assert IndexOf(g.infos, info.name) == -1;
    }
    forall other: CString | other != cut.name ensures Find(Register(g, info), other) == Find(g, other) {
      IndexOfPush(g.infos, cut, other);
    }
  }

  lemma IndexOfPush(infos: seq<Info>, d: Info, name: CString)
    ensures IndexOf([d] + infos, name) ==
      if d.name == name then 0 else (var r := IndexOf(infos, name); if r == -1 then -1 else r + 1)
  {
    assert forall i :: 0 <= i < |infos| ==> ([d] + infos)[i + 1] == infos[i];
  }

  /** What a registration stores, field by field, at the head of the list and on the lowest free page. */
  lemma RegisteredFields(g: Registry, info: Info)
    requires |g.chain| == |g.infos| && LowestFree(g.pool.held, 0) < MAX_PAGES
    ensures var h := Register(g, info);
      && |h.infos| == |g.infos| + 1 && h.infos[1..] == g.infos && h.chain[1..] == g.chain
      && h.infos[0].kind == info.kind && h.infos[0].major == info.major && h.infos[0].minor == info.minor
      && h.infos[0].ops == info.ops
      && h.infos[0].name <= info.name && (|info.name| <= 31 ==> h.infos[0].name == info.name)
      && h.chain[0] !in g.pool.held && (forall p :: 0 <= p < h.chain[0] ==> p in g.pool.held)
      && h.pool.held == g.pool.held + {h.chain[0]}
  {
  }

  /** The new device is the answer for its numbers, whatever its name; other numbers keep theirs. */
  lemma FindsNumber(g: Registry, info: Info, major: Word, minor: Word)
    requires |g.chain| == |g.infos| && LowestFree(g.pool.held, 0) < MAX_PAGES
    ensures FindNumber(Register(g, info), major, minor) ==
      if major == info.major && minor == info.minor then LowestFree(g.pool.held, 0) * PAGE_SIZE
      else FindNumber(g, major, minor)
  {
    NumberIndexPush(g.infos, info.(name := Truncate(info.name, NAME_LIMIT)), major, minor);
  }

  lemma NumberIndexPush(infos: seq<Info>, d: Info, major: Word, minor: Word)
    ensures NumberIndex([d] + infos, major, minor) ==
      if d.major == major && d.minor == minor then 0
      else (var r := NumberIndex(infos, major, minor); if r == -1 then -1 else r + 1)
  {
    assert forall i :: 0 <= i < |infos| ==> ([d] + infos)[i + 1] == infos[i];
  }

  /** Unregistering gives back just the page of the device it removes. */
  lemma UnregisterFrees(g: Registry, name: CString)
    requires Sound(g) && IndexOf(g.infos, name) != -1
    ensures var k, h := IndexOf(g.infos, name), Unregister(g, name);
      && h.pool.held == g.pool.held - {g.chain[k]} && h.pool.used == g.pool.used - 1
      && |h.chain| == |g.chain| - 1
      && forall i :: 0 <= i < |h.chain| ==>
           var j := if i < k then i else i + 1; h.chain[i] == g.chain[j] && h.infos[i] == g.infos[j]
  {
    var k, h := IndexOf(g.infos, name), Unregister(g, name);
    HeldBound(g.pool.held);
    assert g.chain[k] in g.pool.held && |g.pool.held| > 0;
    forall i | 0 <= i < |h.chain|
      ensures var j := if i < k then i else i + 1; h.chain[i] == g.chain[j] && h.infos[i] == g.infos[j]
    {
      WithoutAt(g.chain, k, i);
      WithoutAt(g.infos, k, i);
    }
  }

  /** Unregistering the answer for a name reveals the registration it shadowed. */
  lemma UnregisterRevealsOlder(g: Registry, name: CString)
    requires |g.chain| == |g.infos| && IndexOf(g.infos, name) != -1
    ensures var k := IndexOf(g.infos, name);
      var older := Registry(g.pool, g.chain[k + 1..], g.infos[k + 1..]);
      Find(Unregister(g, name), name) == Find(older, name)
  {
    AnswerWithout(g.chain, g.infos, name, IndexOf(g.infos, name));
  }

  lemma AnswerWithout(chain: seq<nat>, infos: seq<Info>, name: CString, k: nat)
    requires |chain| == |infos| && k < |infos| && IndexOf(infos, name) == k
    ensures var a, b := IndexOf(Without(infos, k), name), IndexOf(infos[k + 1..], name);
      && (a == -1 <==> b == -1)
      && (a != -1 ==> a < |Without(chain, k)| && Without(chain, k)[a] == chain[k + 1..][b])
  {
    IndexOfWithout(infos, name, k);
    var r := IndexOf(infos[k + 1..], name);
    if r != -1 {
      WithoutTail(chain, k, r);
    }
  }

  lemma WithoutTail(chain: seq<nat>, k: nat, r: nat)
    requires k + 1 + r < |chain|
    ensures Without(chain, k)[k + r] == chain[k + 1..][r]
  {
  }

  /** ... and changes the answer for no other name. */
  lemma UnregisterKeepsOthers(g: Registry, name: CString, other: CString)
    requires |g.chain| == |g.infos| && other != name
    ensures Find(Unregister(g, name), other) == Find(g, other)
  {
    var k, i, h := IndexOf(g.infos, name), IndexOf(g.infos, other), Unregister(g, name);
    if k != -1 {
      IndexOfOther(g.infos, other, k);
      if i != -1 {
        assert i != k && h.chain[if i < k then i else i - 1] == g.chain[i];
      }
    }
  }

  lemma IndexOfWithout(infos: seq<Info>, name: CString, k: nat)
    requires k < |infos| && IndexOf(infos, name) == k
    ensures IndexOf(Without(infos, k), name) == (var r := IndexOf(infos[k + 1..], name); if r == -1 then -1 else k + r)
  {
    var w, rest := Without(infos, k), infos[k + 1..];
    assert w == infos[..k] + rest;
    assert forall i :: 0 <= i < k ==> w[i].name == infos[i].name != name;
    assert forall i :: 0 <= i < |rest| ==> w[k + i] == rest[i];
    var r, s := IndexOf(rest, name), IndexOf(w, name);
    assert s != -1 ==> s >= k && w[s] == rest[s - k];
  }

  lemma IndexOfOther(infos: seq<Info>, other: CString, k: nat)
    requires k < |infos| && infos[k].name != other
    ensures IndexOf(Without(infos, k), other) == (var r := IndexOf(infos, other); if r < k then r else r - 1)
  {
    var w, r := Without(infos, k), IndexOf(infos, other);
    forall i | 0 <= i < |w| ensures w[i] == infos[if i < k then i else i + 1] {
      WithoutAt(infos, k, i);
    }
    var s := IndexOf(w, other);
    assert s != -1 ==> w[s] == infos[if s < k then s else s + 1];
    assert r != -1 ==> w[if r < k then r else r - 1] == infos[r];
  }

  /** Register then unregister restores the list, the bitmap and the counter exactly when the name
      fits its buffer; a longer name is stored cut and never found again. */
  lemma RegisterUnregister(g: Registry, info: Info)
    requires Sound(g) && LowestFree(g.pool.held, 0) < MAX_PAGES
    ensures Unregister(Register(g, info), info.name) == g <==> |info.name| <= NAME_LIMIT
  {
    var h := Register(g, info);
    TakeRelease(g.pool);
    if |info.name| <= NAME_LIMIT {
      assert Without(h.chain, 0) == g.chain && Without(h.infos, 0) == g.infos;
    } else {
      assert IndexOf(h.infos, info.name) == -1 by {
        assert h.infos[1..] == g.infos;
      }
      assert |h.chain| == |g.chain| + 1;
    }
  }

  // ----- Runs, beside other users of the allocator

  datatype Event = Registered(info: Info) | Unregistered(name: CString) | OtherAlloc | OtherFree(addr: Word)

  /** Other users free only pages they hold: marked, not reserved, not a node. */
  ghost predicate Legal(g: Registry, e: Event) {
    e.OtherFree? ==>
      var n := e.addr / PAGE_SIZE;
      RESERVED <= n && n in g.pool.held && n !in g.chain
  }

  function Step(g: Registry, e: Event): Registry
    requires |g.chain| == |g.infos|
  {
    match e
    case Registered(info) => Register(g, info)
    case Unregistered(name) => Unregister(g, name)
    case OtherAlloc =>
      var i := LowestFree(g.pool.held, 0);
      if i == MAX_PAGES then g else g.(pool := Take(g.pool, i))
    case OtherFree(addr) => g.(pool := Release(g.pool, addr / PAGE_SIZE))
  }

  lemma StepKeepsSound(g: Registry, e: Event)
    requires Sound(g) && Legal(g, e)
    ensures Sound(Step(g, e))
  {
    match e
    case Registered(info) => RegisterKeepsSound(g, info);
    case Unregistered(name) => UnregisterKeepsSound(g, name);
    case OtherAlloc =>
      if LowestFree(g.pool.held, 0) < MAX_PAGES {
        TakeCounted(g.pool);
      }
    case OtherFree(addr) => ReleaseCounted(g.pool, addr / PAGE_SIZE);
  }

  /** The states along a run in which every event is legal. */
  ghost predicate IsRun(gs: seq<Registry>, es: seq<Event>) {
    && |gs| == |es| + 1
    && gs[0] == Registry(Boot.pool, [], [])
    && forall i :: 0 <= i < |es| ==> |gs[i].chain| == |gs[i].infos| && Legal(gs[i], es[i]) && gs[i + 1] == Step(gs[i], es[i])
  }

  lemma {:induction false} RunSound(gs: seq<Registry>, es: seq<Event>, k: nat)
    requires IsRun(gs, es) && k <= |es|
    ensures Sound(gs[k])
  {
    if k == 0 {
      BootInv();
    } else {
      RunSound(gs, es, k - 1);
      StepKeepsSound(gs[k - 1], es[k - 1]);
      assert gs[k] == Step(gs[k - 1], es[k - 1]);
    }
  }

  // ----- What `device_find` answers, from the history alone

  /** The pages registered under a name, most recent first. */
  function PagesOf(chain: seq<nat>, infos: seq<Info>, name: CString): seq<nat>
    requires |chain| == |infos|
  {
    if infos == [] then []
    else (if infos[0].name == name then [chain[0]] else []) + PagesOf(chain[1..], infos[1..], name)
  }

  /** The registrations of a name that no unregister has undone yet, most recent first: a successful
      registration pushes the page it was given, an unregister of the name pops. */
  ghost function Pending(gs: seq<Registry>, es: seq<Event>, name: CString, k: nat): seq<nat>
    requires IsRun(gs, es) && k <= |es|
  {
    if k == 0 then []
    else
      var stack, page := Pending(gs, es, name, k - 1), LowestFree(gs[k - 1].pool.held, 0);
      match es[k - 1]
      case Registered(info) =>
        if Truncate(info.name, NAME_LIMIT) == name && page < MAX_PAGES then [page] + stack else stack
      case Unregistered(n) => if n == name && stack != [] then stack[1..] else stack
      case _ => stack
  }

  /** A name's answer is the first of its pages. */
  lemma {:induction false} FirstPage(chain: seq<nat>, infos: seq<Info>, name: CString)
    requires |chain| == |infos|
    ensures var k := IndexOf(infos, name);
      if k == -1 then PagesOf(chain, infos, name) == []
      else PagesOf(chain, infos, name) != [] && PagesOf(chain, infos, name)[0] == chain[k]
  {
    if infos != [] {
      FirstPage(chain[1..], infos[1..], name);
      assert [infos[0]] + infos[1..] == infos;
      IndexOfPush(infos[1..], infos[0], name);
    }
  }

  /** Taking out the first registration of a name pops its stack; no other stack changes. */
  lemma {:induction false} PagesWithout(chain: seq<nat>, infos: seq<Info>, k: nat, name: CString)
    requires |chain| == |infos| && k < |infos|
    requires forall i :: 0 <= i < k ==> infos[i].name != infos[k].name
    ensures var ps := PagesOf(chain, infos, name);
      if infos[k].name == name then ps != [] && PagesOf(Without(chain, k), Without(infos, k), name) == ps[1..]
      else PagesOf(Without(chain, k), Without(infos, k), name) == ps
  {
    if k == 0 {
      assert Without(chain, 0) == chain[1..] && Without(infos, 0) == infos[1..];
    } else {
      var c, d := Without(chain, k), Without(infos, k);
      assert c[0] == chain[0] && c[1..] == Without(chain[1..], k - 1);
      assert d[0] == infos[0] && d[1..] == Without(infos[1..], k - 1);
      PagesWithout(chain[1..], infos[1..], k - 1, name);
    }
  }

  /** One event does to a name's pages what it does to the stack. */
  lemma PendingStep(gs: seq<Registry>, es: seq<Event>, name: CString, k: nat)
    requires IsRun(gs, es) && 0 < k <= |es|
    requires Pending(gs, es, name, k - 1) == PagesOf(gs[k - 1].chain, gs[k - 1].infos, name)
    ensures |gs[k].chain| == |gs[k].infos|
    ensures Pending(gs, es, name, k) == PagesOf(gs[k].chain, gs[k].infos, name)
  {
    var g, h, e := gs[k - 1], gs[k], es[k - 1];
    assert h == Step(g, e);
    match e
    case Registered(info) =>
      if LowestFree(g.pool.held, 0) < MAX_PAGES {
        assert h.chain[1..] == g.chain && h.infos[1..] == g.infos;
      }
    case Unregistered(n) =>
      var i := IndexOf(g.infos, n);
      FirstPage(g.chain, g.infos, name);
      if i != -1 {
        PagesWithout(g.chain, g.infos, i, name);
      }
    case OtherAlloc =>
    case OtherFree(_) =>
  }

  lemma {:induction false} PendingPages(gs: seq<Registry>, es: seq<Event>, name: CString, k: nat)
    requires IsRun(gs, es) && k <= |es|
    ensures |gs[k].chain| == |gs[k].infos|
    ensures Pending(gs, es, name, k) == PagesOf(gs[k].chain, gs[k].infos, name)
  {
    if k > 0 {
      PendingPages(gs, es, name, k - 1);
      PendingStep(gs, es, name, k);
    }
  }

  /** After every run `device_find` answers the page of the last registration of the name that no
      unregister has undone, and 0 when there is none. */
  lemma FindFollowsHistory(gs: seq<Registry>, es: seq<Event>, name: CString, k: nat)
    requires IsRun(gs, es) && k <= |es|
    ensures |gs[k].chain| == |gs[k].infos|
    ensures var stack := Pending(gs, es, name, k);
      Find(gs[k], name) == if stack == [] then NULL else stack[0] * PAGE_SIZE
  {
    PendingPages(gs, es, name, k);
    FirstPage(gs[k].chain, gs[k].infos, name);
  }
}
