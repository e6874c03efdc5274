/** The character device (`drivers/char_device.c`): a byte stream through a ring of 1024 bytes. */
module CharDevice {
  import opened Bits
  import opened Common

  const CHAR_BUFFER_SIZE := 1024

  /** The window of `count` bytes from `readPos` on, round the ring. */
  ghost function Window(buf: seq<Byte>, readPos: nat, count: nat): seq<Byte>
    requires |buf| == CHAR_BUFFER_SIZE
  {
    seq(count, i requires 0 <= i => buf[(readPos + i) % CHAR_BUFFER_SIZE])
  }

  lemma WindowPush(buf: seq<Byte>, readPos: nat, count: nat, b: Byte)
    requires |buf| == CHAR_BUFFER_SIZE && readPos < CHAR_BUFFER_SIZE && count < CHAR_BUFFER_SIZE
    ensures var w := (readPos + count) % CHAR_BUFFER_SIZE;
      Window(buf[w := b], readPos, count + 1) == Window(buf, readPos, count) + [b]
    ensures ((readPos + count) % CHAR_BUFFER_SIZE + 1) % CHAR_BUFFER_SIZE == (readPos + (count + 1)) % CHAR_BUFFER_SIZE
  {
  }

  lemma WindowPop(buf: seq<Byte>, readPos: nat, count: nat)
    requires |buf| == CHAR_BUFFER_SIZE && readPos < CHAR_BUFFER_SIZE && 0 < count <= CHAR_BUFFER_SIZE
    ensures Window(buf, readPos, count) == [buf[readPos]] + Window(buf, (readPos + 1) % CHAR_BUFFER_SIZE, count - 1)
    ensures ((readPos + 1) % CHAR_BUFFER_SIZE + (count - 1)) % CHAR_BUFFER_SIZE == (readPos + count) % CHAR_BUFFER_SIZE
  {
    var rest := Window(buf, (readPos + 1) % CHAR_BUFFER_SIZE, count - 1);
    forall i | 0 <= i < count - 1 ensures rest[i] == buf[(readPos + (i + 1)) % CHAR_BUFFER_SIZE] {
      Around(readPos, i);
    }
  }

  lemma Around(r: nat, i: nat)
    ensures ((r + 1) % CHAR_BUFFER_SIZE + i) % CHAR_BUFFER_SIZE == (r + (i + 1)) % CHAR_BUFFER_SIZE
  {
  }

  lemma Regroup(head: seq<Byte>, b: Byte, rest: seq<Byte>)
    ensures head + ([b] + rest) == (head + [b]) + rest
  {
  }

  // ----- The stream

  /** The buffered bytes, and those accepted and delivered since the last reset. */
  datatype Stream = Stream(contents: seq<Byte>, accepted: seq<Byte>, delivered: seq<Byte>)

  const EMPTY := Stream([], [], [])

  /** A write: as many bytes as there is room for are accepted. */
  function Put(s: Stream, data: seq<Byte>): (u: Stream)
    requires |s.contents| <= CHAR_BUFFER_SIZE
    ensures |u.contents| <= CHAR_BUFFER_SIZE
  {
    var n := Min(|data|, CHAR_BUFFER_SIZE - |s.contents|);
    Stream(s.contents + data[..n], s.accepted + data[..n], s.delivered)
  }

  /** A read: the oldest bytes are delivered. */
  function Take(s: Stream, size: nat): Stream {
    var n := Min(size, |s.contents|);
    Stream(s.contents[n..], s.accepted, s.delivered + s.contents[..n])
  }

  /** What a write leaves, byte by byte: the first bytes of the data that find room stand behind those
      that waited, and count as accepted. */
  lemma PutMeaning(s: Stream, data: seq<Byte>)
    requires |s.contents| <= CHAR_BUFFER_SIZE
    ensures var u, w := Put(s, data), |s.contents|;
      var n := if w + |data| <= CHAR_BUFFER_SIZE then |data| else CHAR_BUFFER_SIZE - w;
      && |u.contents| == w + n && (forall k :: 0 <= k < w ==> u.contents[k] == s.contents[k])
      && (forall k :: 0 <= k < n ==> u.contents[w + k] == data[k])
      && |u.accepted| == |s.accepted| + n && s.accepted <= u.accepted
      && (forall k :: 0 <= k < n ==> u.accepted[|s.accepted| + k] == data[k])
      && u.delivered == s.delivered
  {
  }

  /** What a read leaves: the oldest bytes are delivered, the others wait. */
  lemma TakeMeaning(s: Stream, size: nat)
    ensures var u, w := Take(s, size), |s.contents|;
      var n := if size <= w then size else w;
      && |u.contents| == w - n && (forall k :: 0 <= k < w - n ==> u.contents[k] == s.contents[n + k])
      && |u.delivered| == |s.delivered| + n && s.delivered <= u.delivered
      && (forall k :: 0 <= k < n ==> u.delivered[|s.delivered| + k] == s.contents[k])
      && u.accepted == s.accepted
  {
  }

  /** Nothing was lost, repeated or reordered. */
  ghost predicate Conserved(s: Stream) {
    s.accepted == s.delivered + s.contents
  }

  lemma PutConserves(s: Stream, data: seq<Byte>)
    requires |s.contents| <= CHAR_BUFFER_SIZE && Conserved(s)
    ensures Conserved(Put(s, data))
  {
    var taken := data[..Min(|data|, CHAR_BUFFER_SIZE - |s.contents|)];
    assert (s.delivered + s.contents) + taken == s.delivered + (s.contents + taken);
  }

  lemma TakeConserves(s: Stream, size: nat)
    requires Conserved(s)
    ensures Conserved(Take(s, size))
  {
    var n := Min(size, |s.contents|);
    assert s.delivered + s.contents == (s.delivered + s.contents[..n]) + s.contents[n..];
  }

  lemma Parts(head: seq<Byte>, rest: seq<Byte>, whole: seq<Byte>)
    requires head + rest == whole
    ensures whole[..|head|] == head && whole[|head|..] == rest
  {
  }

  datatype Command = Clear | GetCount | GetSize | Other

  class Device {
    const buffer: array<Byte>
    var readPos: nat
    var writePos: nat
    var count: nat
    ghost var accepted: seq<Byte>
    ghost var delivered: seq<Byte>

    ghost predicate Shape()
      reads `readPos, `writePos, `count
    {
      && buffer.Length == CHAR_BUFFER_SIZE
      && readPos < CHAR_BUFFER_SIZE && count <= CHAR_BUFFER_SIZE
      && writePos == (readPos + count) % CHAR_BUFFER_SIZE
    }

    ghost function Contents(): (c: seq<Byte>)
      reads `readPos, `writePos, `count, buffer
      requires Shape()
      ensures |c| == count
    {
      Window(buffer[..], readPos, count)
    }

    ghost function View(): Stream
      reads this, buffer
      requires Shape()
    {
      Stream(Contents(), accepted, delivered)
    }

    /** The ring is well formed, and what was accepted is what was delivered and what waits. */
    ghost predicate Valid()
      reads this, buffer
    {
      Shape() && Conserved(View())
    }

    constructor ()
      ensures Valid() && fresh(buffer) && View() == EMPTY
    {
      buffer := new Byte[CHAR_BUFFER_SIZE](_ => 0);
      readPos, writePos, count := 0, 0, 0;
      accepted, delivered := [], [];
    }

    method Open() returns (r: int)
      requires Valid()
      modifies this
      ensures Valid() && View() == EMPTY && r == 0
    {
      Reset();
      return 0;
    }

    method Reset()
      requires Valid()
      modifies this
      ensures Valid() && View() == EMPTY
    {
      readPos, writePos, count := 0, 0, 0;
      accepted, delivered := [], [];
    }

    /** `char_read`; the caller's buffer has room for what is delivered. */
    method Read(buf: array?<Byte>, size: Word) returns (r: int)
      requires Valid() && (buf != null ==> buf != buffer && Min(size, count) <= buf.Length)
      modifies `readPos, `count, `delivered, buf
      ensures Valid()
      ensures buf == null ==> r == -1 && View() == old(View())
      ensures buf != null ==>
        && r == Min(size, old(count)) && View() == Take(old(View()), size)
        && buf[..r] + Contents() == old(Contents()) && delivered == old(delivered) + buf[..r]
        && buf[r..] == old(buf[r..])
    {
      if buf == null {
        return -1;
      }
      ghost var s := View();
      r := TakeOut(buf, size);
      delivered := delivered + buf[..r];
      Parts(buf[..r], Contents(), s.contents);
      TakeConserves(s, size);
    }

    method TakeOut(buf: array<Byte>, size: Word) returns (n: nat)
      requires Shape() && buf != buffer && Min(size, count) <= buf.Length
      modifies `readPos, `count, buf
      ensures Shape() && n == Min(size, old(count))
      ensures buf[..n] + Contents() == old(Contents())
      ensures buf[n..] == old(buf[n..])
    {
      n := 0;
      while n < size && count > 0
        invariant Shape() && n <= size
        invariant n + count == old(count)
        invariant buf[..n] + Contents() == old(Contents())
        invariant buf[n..] == old(buf[n..])
        decreases size - n
      {
        ghost var head := buf[..n];
        var b := TakeByte();
        buf[n] := b;
        n := n + 1;
        assert buf[..n] == head + [b];
        Regroup(head, b, Contents());
      }
    }

    /** One round of the read loop: the oldest byte leaves the ring. */
    method TakeByte() returns (b: Byte)
      requires Shape() && count > 0
      modifies `readPos, `count
      ensures Shape() && count == old(count) - 1 && old(Contents()) == [b] + Contents()
    {
      WindowPop(buffer[..], readPos, count);
      b := buffer[readPos];
      readPos := (readPos + 1) % CHAR_BUFFER_SIZE;
      count := count - 1;
    }

    /** `char_write`. */
    method Write(buf: array?<Byte>, size: Word) returns (r: int)
      requires Valid() && (buf != null ==> buf != buffer && size <= buf.Length)
      modifies `writePos, `count, `accepted, buffer
      ensures Valid()
      ensures buf == null ==> r == -1 && View() == old(View())
      ensures buf != null ==>
        && r == Min(size, CHAR_BUFFER_SIZE - old(count)) && View() == Put(old(View()), buf[..size])
        && Contents() == old(Contents()) + buf[..r] && accepted == old(accepted) + buf[..r]
    {
      if buf == null {
        return -1;
      }
      ghost var s := View();
      r := PutIn(buf, size);
      accepted := accepted + buf[..r];
      assert buf[..size][..r] == buf[..r];
      PutConserves(s, buf[..size]);
    }

    method PutIn(buf: array<Byte>, size: Word) returns (n: nat)
      requires Shape() && buf != buffer && size <= buf.Length
      modifies `writePos, `count, buffer
      ensures Shape() && n == Min(size, CHAR_BUFFER_SIZE - old(count))
      ensures Contents() == old(Contents()) + buf[..n]
    {
      n := 0;
      while n < size && count < CHAR_BUFFER_SIZE
        invariant Shape() && n <= size
        invariant count == old(count) + n
        invariant buf[..] == old(buf[..])
        invariant Contents() == old(Contents()) + buf[..n]
        decreases size - n
      {
        WindowPush(buffer[..], readPos, count, buf[n]);
        ghost var ring := buffer[..];
        buffer[writePos] := buf[n];
        assert buffer[..] == ring[writePos := buf[n]];
        writePos := (writePos + 1) % CHAR_BUFFER_SIZE;
        count := count + 1;
        n := n + 1;
        assert buf[..n] == buf[..n - 1] + [buf[n - 1]];
      }
    }

    /** `arg` is the location the answer is stored through, if the caller gives one. */
    method Ioctl(cmd: Command, arg: array?<Word>) returns (r: int)
      requires Valid() && (arg != null ==> arg.Length == 1)
      modifies this, arg
      ensures Valid()
      ensures r == if cmd.Clear? || (!cmd.Other? && arg != null) then 0 else -1
      ensures View() == if cmd.Clear? then EMPTY else old(View())
      ensures arg != null && cmd.GetCount? ==> arg[0] == old(count)
      ensures arg != null && cmd.GetSize? ==> arg[0] == CHAR_BUFFER_SIZE
      ensures arg != null && (cmd.Clear? || cmd.Other?) ==> arg[0] == old(arg[0])
    {
      match cmd
      case Clear =>
        Reset();
        return 0;
      case GetCount =>
        if arg != null {
          arg[0] := count;
          return 0;
        }
        return -1;
      case GetSize =>
        if arg != null {
          arg[0] := CHAR_BUFFER_SIZE;
          return 0;
        }
        return -1;
      case Other =>
        return -1;
    }
  }

  // ----- Runs

  datatype Event = Written(data: seq<Byte>) | ReadOut(size: nat) | Cleared

  function Step(s: Stream, e: Event): (u: Stream)
    requires |s.contents| <= CHAR_BUFFER_SIZE
    ensures |u.contents| <= CHAR_BUFFER_SIZE
  {
    match e
    case Written(data) => Put(s, data)
    case ReadOut(size) => Take(s, size)
    case Cleared => EMPTY
  }

  function Run(es: seq<Event>): (s: Stream)
    ensures |s.contents| <= CHAR_BUFFER_SIZE
  {
    if es == [] then EMPTY else Step(Run(es[..|es| - 1]), es[|es| - 1])
  }

  /** Between resets the stream loses, repeats and reorders nothing. */
  lemma {:induction false} Lossless(es: seq<Event>)
    ensures Conserved(Run(es))
  {
    if es != [] {
      var s := Run(es[..|es| - 1]);
      Lossless(es[..|es| - 1]);
      match es[|es| - 1]
      case Written(data) => PutConserves(s, data);
      case ReadOut(size) => TakeConserves(s, size);
      case Cleared =>
    }
  }
}
