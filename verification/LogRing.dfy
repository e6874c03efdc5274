/** The overwriting log ring (`kernel/monitor.c`) as a value. */
module LogRing {
  import opened Bits
  import opened Common
  import opened CStrings

  const LOG_BUFFER_SIZE := 256
  const MESSAGE_LIMIT := 255

  datatype Entry = Entry(timestamp: Word, level: Byte, source: Byte, length: nat, message: CString)

  datatype Call = Call(level: Byte, source: Byte, message: CString)

  datatype Log = Log(buffer: seq<Entry>, index: nat, count: nat, clock: Word)

  const BLANK := Entry(0, 0, 0, 0, "")

  function Cleared(clock: Word): Log {
    Log(seq(LOG_BUFFER_SIZE, _ => BLANK), 0, 0, clock)
  }

  /** The entry a call makes when it is the `n`-th since the clock stood at `start`. */
  function Made(start: Word, n: nat, c: Call): Entry {
    var m := Truncate(c.message, MESSAGE_LIMIT);
    Entry(Wrap(start + n), c.level, c.source, |m|, m)
  }

  function Record(s: Log, c: Call): Log
    requires s.index < |s.buffer|
  {
    Log(s.buffer[s.index := Made(s.clock, 1, c)], (s.index + 1) % LOG_BUFFER_SIZE,
        if s.count < LOG_BUFFER_SIZE then s.count + 1 else s.count, Wrap(s.clock + 1))
  }

  /** Where `monitor_get_log_entry` looks: the subtraction underflows in 32 bits while the ring fills. */
  function Slot(s: Log, i: Word): nat {
    Wrap(s.index - s.count + i) % LOG_BUFFER_SIZE
  }

  function Run(start: Word, calls: seq<Call>): (s: Log)
    ensures |s.buffer| == LOG_BUFFER_SIZE && s.index < LOG_BUFFER_SIZE && s.count <= LOG_BUFFER_SIZE
  {
    if calls == [] then Cleared(start)
    else Record(Run(start, calls[..|calls| - 1]), calls[|calls| - 1])
  }

  /** The underflow is harmless because the size of the ring divides 2^32. */
  lemma UnderflowHarmless(x: int)
    ensures Wrap(x) % LOG_BUFFER_SIZE == x % LOG_BUFFER_SIZE
  {
    assert x == TWO_TO_32 * (x / TWO_TO_32) + x % TWO_TO_32;
  }

  /** The cursor, the count and the clock after `n` calls. */
  lemma {:induction false} RunCounts(start: Word, calls: seq<Call>)
    ensures var s, n := Run(start, calls), |calls|;
      s.index == n % LOG_BUFFER_SIZE && s.count == Min(n, LOG_BUFFER_SIZE) && s.clock == Wrap(start + n)
  {
    if calls != [] {
      var n := |calls| - 1;
      RunCounts(start, calls[..n]);
      NextStamp(start, n, Run(start, calls[..n]).clock, calls[n]);
      NextSlot(n);
    }
  }

  lemma NextSlot(n: nat)
    ensures (n % LOG_BUFFER_SIZE + 1) % LOG_BUFFER_SIZE == (n + 1) % LOG_BUFFER_SIZE
  {
  }

  /** The last 256 entries stand at their numbers modulo the size of the ring. */
  lemma {:induction false} RunHolds(start: Word, calls: seq<Call>, j: nat)
    requires j < |calls| <= j + LOG_BUFFER_SIZE
    ensures Run(start, calls).buffer[j % LOG_BUFFER_SIZE] == Made(start, j + 1, calls[j])
  {
    var n := |calls| - 1;
    var before := calls[..n];
    RunCounts(start, before);
    if j < n {
      RunHolds(start, before, j);
      DistinctSlots(j, n);
    } else {
      NextStamp(start, n, Run(start, before).clock, calls[n]);
    }
  }

  lemma NextStamp(start: Word, n: nat, clock: Word, c: Call)
    requires clock == Wrap(start + n)
    ensures Made(clock, 1, c) == Made(start, n + 1, c) && Wrap(clock + 1) == Wrap(start + (n + 1))
  {
  }

  lemma DistinctSlots(j: nat, n: nat)
    requires j < n < j + LOG_BUFFER_SIZE
    ensures j % LOG_BUFFER_SIZE != n % LOG_BUFFER_SIZE
  {
  }

  /** After any number of calls, entry `i` is the `i`-th oldest of the last 256, cut to 255 characters,
      stamped with its number. */
  lemma EntriesAreTheLatest(start: Word, calls: seq<Call>, i: Word)
    requires i < Run(start, calls).count
    ensures var n := |calls|;
      var j := n - Min(n, LOG_BUFFER_SIZE) + i;
      && Run(start, calls).count == Min(n, LOG_BUFFER_SIZE)
      && 0 <= j < n
      && Run(start, calls).buffer[Slot(Run(start, calls), i)] == Made(start, j + 1, calls[j])
  {
    RunCounts(start, calls);
    var s, n := Run(start, calls), |calls|;
    RunHolds(start, calls, n - s.count + i);
    UnderflowHarmless(s.index - s.count + i);
    SlotOf(n, s.count, i);
  }

  /** The same, field by field. */
  lemma EntryFields(start: Word, calls: seq<Call>, i: Word)
    requires i < |calls| && i < LOG_BUFFER_SIZE
    ensures var s, n := Run(start, calls), |calls|;
      var j := if n <= LOG_BUFFER_SIZE then i else n - LOG_BUFFER_SIZE + i;
      && i < s.count && 0 <= j < n
      && var e, c := s.buffer[Slot(s, i)], calls[j];
        && e.timestamp == (start + j + 1) % TWO_TO_32
        && e.level == c.level && e.source == c.source
        && e.length == |e.message| && e.message <= c.message
        && |e.message| == (if |c.message| <= MESSAGE_LIMIT then |c.message| else MESSAGE_LIMIT)
  {
    RunCounts(start, calls);
    EntriesAreTheLatest(start, calls, i);
  }

  lemma SlotOf(n: nat, count: nat, i: nat)
    ensures (n % LOG_BUFFER_SIZE - count + i) % LOG_BUFFER_SIZE == (n - count + i) % LOG_BUFFER_SIZE
  {
  }
}
