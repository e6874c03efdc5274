/** The message queue (`kernel/ipc.c`): a ring with selective receive and compaction in place.

    As written a receive lowers the count but leaves the tail where it is, so the tail drifts ahead of
    the window and later sends land in the wrong slot. The value-level operations take a flag
    `retreat`: false is the code, true is the code with the missing step. */
module Ipc {
  import opened Bits
  import opened Common

  const MAX_MSG_SIZE := 256
  const MAX_MESSAGES := 16

  type Length = n: nat | n <= 256
  type Payload = d: seq<Byte> | |d| == 256 witness seq(256, _ => 0)

  /** A slot of the ring; only the first `length` bytes of `data` belong to the message. */
  datatype Slot = Slot(sender: Word, receiver: Word, kind: Byte, length: Length, data: Payload)

  datatype Message = Message(sender: Word, receiver: Word, kind: Byte, bytes: seq<Byte>)

  function Content(s: Slot): Message {
    Message(s.sender, s.receiver, s.kind, s.data[..s.length])
  }

  // ----- The queue as callers understand it

  /** A receiver takes its own messages, from any sender when it names none. */
  predicate Matches(m: Message, pid: Word, sender: Word) {
    m.receiver == pid && (sender == 0 || m.sender == sender)
  }

  /** The oldest message a receive may take, or -1. */
  function FirstMatch(c: seq<Message>, pid: Word, sender: Word): (r: int)
    ensures -1 <= r < |c|
    ensures r == -1 <==> forall i :: 0 <= i < |c| ==> !Matches(c[i], pid, sender)
    ensures r != -1 ==> Matches(c[r], pid, sender) && forall i :: 0 <= i < r ==> !Matches(c[i], pid, sender)
  {
    First(c, (m: Message) => Matches(m, pid, sender))
  }

  datatype Event = Send(message: Message) | Receive(pid: Word, sender: Word)

  datatype Outcome = Full | TooLong | Sent | Nothing | Got(message: Message)

  function SendOutcome(count: nat, m: Message): Outcome {
    if count >= MAX_MESSAGES then Full else if |m.bytes| > MAX_MSG_SIZE then TooLong else Sent
  }

  /** The ideal queue: sends append, a receive takes out the oldest match. */
  function Ideal(c: seq<Message>, e: Event): (seq<Message>, Outcome) {
    match e
    case Send(m) =>
      var o := SendOutcome(|c|, m);
      (if o == Sent then c + [m] else c, o)
    case Receive(pid, sender) =>
      var k := FirstMatch(c, pid, sender);
      if k == -1 then (c, Nothing) else (Without(c, k), Got(c[k]))
  }

  /** A receive takes the message at `k` exactly when that is addressed to the receiver, comes from the
      sender named or none is named, and no earlier message is and does; it finds nothing exactly when no
      waiting message does. */
  lemma ReceiveExactly(c: seq<Message>, pid: Word, sender: Word, k: int)
    requires 0 <= k < |c|
    ensures (Ideal(c, Receive(pid, sender)) == (c[..k] + c[k + 1..], Got(c[k])) && FirstMatch(c, pid, sender) == k)
      <==> (c[k].receiver == pid && (sender == 0 || c[k].sender == sender)
            && forall i :: 0 <= i < k ==> !(c[i].receiver == pid && (sender == 0 || c[i].sender == sender)))
  {
    var r := FirstMatch(c, pid, sender);
    assert Matches(c[k], pid, sender) <==> c[k].receiver == pid && (sender == 0 || c[k].sender == sender);
    assert forall i :: 0 <= i < |c| ==>
      (Matches(c[i], pid, sender) <==> c[i].receiver == pid && (sender == 0 || c[i].sender == sender));
  }

  lemma ReceiveNothingExactly(c: seq<Message>, pid: Word, sender: Word)
    ensures Ideal(c, Receive(pid, sender)) == (c, Nothing)
      <==> forall i :: 0 <= i < |c| ==> !(c[i].receiver == pid && (sender == 0 || c[i].sender == sender))
  {
    assert forall i :: 0 <= i < |c| ==>
      (Matches(c[i], pid, sender) <==> c[i].receiver == pid && (sender == 0 || c[i].sender == sender));
  }

  // ----- The ring

  datatype Ring = Ring(slots: seq<Slot>, head: nat, tail: nat, count: nat)

  predicate ValidRing(q: Ring) {
    |q.slots| == MAX_MESSAGES && q.head < MAX_MESSAGES && q.tail < MAX_MESSAGES && q.count <= MAX_MESSAGES
  }

  function At(q: Ring, i: nat): Slot
    requires ValidRing(q)
  {
    q.slots[(q.head + i) % MAX_MESSAGES]
  }

  /** The messages a receiver looks at, oldest first. */
  function Contents(q: Ring): (c: seq<Message>)
    requires ValidRing(q)
    ensures |c| == q.count
  {
    seq(q.count, i requires 0 <= i => Content(At(q, i)))
  }

  /** The slot `ipc_send` leaves; bytes beyond the message are whatever the slot held. */
  function Filled(before: Slot, m: Message): Slot
    requires |m.bytes| <= MAX_MSG_SIZE
  {
    Slot(m.sender, m.receiver, m.kind, |m.bytes|, m.bytes + before.data[|m.bytes|..])
  }

  function Store(q: Ring, s: Slot): Ring
    requires ValidRing(q)
  {
    Ring(q.slots[q.tail := s], q.head, (q.tail + 1) % MAX_MESSAGES, q.count + 1)
  }

  /** Window position of slot `s`. */
  function Position(q: Ring, s: nat): nat {
    (s - q.head) % MAX_MESSAGES
  }

  /** The ring after compaction over position `k`; the slot that closes the window keeps its content. */
  function Compacted(q: Ring, k: nat): (u: Ring)
    requires ValidRing(q)
    ensures ValidRing(u)
  {
    q.(slots := seq(MAX_MESSAGES, s requires 0 <= s < MAX_MESSAGES =>
         var p := Position(q, s);
         if k <= p < q.count - 1 then At(q, p + 1) else q.slots[s]))
  }

  function Removed(q: Ring, k: nat, retreat: bool): (u: Ring)
    requires ValidRing(q) && k < q.count
    ensures ValidRing(u)
  {
    Compacted(q, k).(count := q.count - 1, tail := if retreat then (q.tail - 1) % MAX_MESSAGES else q.tail)
  }

  function Step(q: Ring, e: Event, retreat: bool): (r: (Ring, Outcome))
    requires ValidRing(q)
    ensures ValidRing(r.0)
  {
    match e
    case Send(m) =>
      var o := SendOutcome(q.count, m);
      (if o == Sent then Store(q, Filled(q.slots[q.tail], m)) else q, o)
    case Receive(pid, sender) =>
      var k := FirstMatch(Contents(q), pid, sender);
      if k == -1 then (q, Nothing) else (Removed(q, k, retreat), Got(Contents(q)[k]))
  }

  lemma SameSlot(head: nat, j: nat, k: nat)
    requires j < MAX_MESSAGES && k < MAX_MESSAGES
    ensures (head + j) % MAX_MESSAGES == (head + k) % MAX_MESSAGES <==> j == k
  {
  }

  /** A receive takes exactly the message found and keeps the order of the others. */
  lemma RemovedContents(q: Ring, k: nat, retreat: bool)
    requires ValidRing(q) && k < q.count
    ensures Contents(Removed(q, k, retreat)) == Without(Contents(q), k)
  {
    var a, b := Contents(Removed(q, k, retreat)), Without(Contents(q), k);
    forall i | 0 <= i < q.count - 1 ensures a[i] == b[i] {
      CompactedAt(q, k, i);
      assert b[i] == Contents(q)[if i < k then i else i + 1];
    }
  }

  lemma CompactedAt(q: Ring, k: nat, i: nat)
    requires ValidRing(q) && i < MAX_MESSAGES
    ensures At(Compacted(q, k), i) == At(q, if k <= i < q.count - 1 then i + 1 else i)
  {
    assert Position(q, (q.head + i) % MAX_MESSAGES) == i;
  }

  // ----- The compaction loop

  /** Positions `i..j` of the window of `q` have moved down by one in `v`. */
  ghost predicate Shifted(q: Ring, v: Ring, i: nat, j: nat) {
    && ValidRing(q) && ValidRing(v) && v == q.(slots := v.slots)
    && (forall k :: 0 <= k < MAX_MESSAGES ==> At(v, k) == At(q, if i <= k < j then k + 1 else k))
  }

  lemma ShiftOne(q: Ring, v: Ring, i: nat, j: nat)
    requires Shifted(q, v, i, j) && i <= j < q.count - 1
    ensures Shifted(q, v.(slots := v.slots[(v.head + j) % MAX_MESSAGES := At(v, j + 1)]), i, j + 1)
  {
    var u := v.(slots := v.slots[(v.head + j) % MAX_MESSAGES := At(v, j + 1)]);
    forall k | 0 <= k < MAX_MESSAGES
      ensures At(u, k) == At(q, if i <= k < j + 1 then k + 1 else k)
    {
      SameSlot(q.head, j, k);
      assert At(u, k) == if k == j then At(v, j + 1) else At(v, k);
    }
  }

  lemma ShiftedIsCompacted(q: Ring, v: Ring, i: nat)
    requires i < q.count && Shifted(q, v, i, q.count - 1)
    ensures v == Compacted(q, i)
  {
    forall s | 0 <= s < MAX_MESSAGES ensures v.slots[s] == Compacted(q, i).slots[s] {
      AtPosition(q, s);
      AtPosition(v, s);
    }
  }

  lemma AtPosition(q: Ring, s: nat)
    requires ValidRing(q) && s < MAX_MESSAGES
    ensures Position(q, s) < MAX_MESSAGES && q.slots[s] == At(q, Position(q, s))
  {
  }

  lemma ReceiveFinds(q: Ring, pid: Word, sender: Word, i: nat)
    requires ValidRing(q) && i < q.count && Matches(Content(At(q, i)), pid, sender)
    requires forall k :: 0 <= k < i ==> !Matches(Contents(q)[k], pid, sender)
    ensures Step(q, Receive(pid, sender), false) == (Removed(q, i, false), Got(Content(At(q, i))))
  {
    assert Contents(q)[i] == Content(At(q, i));
  }

  lemma ReceiveFindsNothing(q: Ring, pid: Word, sender: Word)
    requires ValidRing(q) && forall k :: 0 <= k < q.count ==> !Matches(Contents(q)[k], pid, sender)
    ensures Step(q, Receive(pid, sender), false) == (q, Nothing)
  {
  }

  class Queue {
    const messageQueue: array<Slot>
    var queueHead: nat
    var queueTail: nat
    var queueCount: nat

    ghost predicate Valid()
      reads this, messageQueue
    {
      messageQueue.Length == MAX_MESSAGES && ValidRing(View())
    }

    ghost function View(): Ring
      reads this, messageQueue
    {
      Ring(messageQueue[..], queueHead, queueTail, queueCount)
    }

    constructor ()
      ensures Valid() && fresh(messageQueue) && View() == Ring(messageQueue[..], 0, 0, 0)
    {
      messageQueue := new Slot[MAX_MESSAGES](_ => Slot(0, 0, 0, 0, seq(256, _ => 0)));
      queueHead, queueTail, queueCount := 0, 0, 0;
    }

    /** `pid` is the running process; without `data` the slot keeps the bytes it held, and those are
        sent. */
    method IpcSend(pid: Word, receiver: Word, kind: Byte, data: array?<Byte>, len: nat) returns (r: int)
      requires Valid() && (data != null && len <= MAX_MSG_SIZE ==> len <= data.Length)
      modifies messageQueue, `queueTail, `queueCount
      ensures Valid()
      ensures r == if old(queueCount) >= MAX_MESSAGES then -1 else if len > MAX_MSG_SIZE then -2 else 0
      ensures r != 0 ==> View() == old(View())
      ensures r == 0 ==>
        var bytes := if data == null then old(messageQueue[queueTail]).data[..len] else data[..len];
        (View(), Sent) == Step(old(View()), Send(Message(pid, receiver, kind, bytes)), false)
    {
      if queueCount >= MAX_MESSAGES {
        return -1;
      }
      if len > MAX_MSG_SIZE {
        return -2;
      }
      ghost var q := View();
      var msg := messageQueue[queueTail];
      var payload := msg.data;
      ghost var bytes := if data == null then msg.data[..len] else data[..len];
      if data != null && len > 0 {
        payload := data[..len] + payload[len..];
      }
      assert payload == bytes + msg.data[len..];
      messageQueue[queueTail] := Slot(pid, receiver, kind, len, payload);
      assert messageQueue[..] == q.slots[q.tail := Filled(msg, Message(pid, receiver, kind, bytes))];
      queueTail := (queueTail + 1) % MAX_MESSAGES;
      queueCount := queueCount + 1;
      return 0;
    }

    /** The inner loop of `ipc_receive`. */
    method Compact(i: nat)
      requires Valid() && i < queueCount
      modifies messageQueue
      ensures Valid() && View() == Compacted(old(View()), i)
    {
      ghost var q := View();
      var j := i;
      while j < queueCount - 1
        invariant i <= j <= queueCount - 1
        invariant Valid() && Shifted(q, View(), i, j)
      {
        MoveDown(q, i, j);
        j := j + 1;
      }
      ShiftedIsCompacted(q, View(), i);
    }

    /** One round of that loop. */
    method MoveDown(ghost q: Ring, ghost i: nat, j: nat)
      requires Valid() && Shifted(q, View(), i, j) && i <= j < queueCount - 1
      modifies messageQueue
      ensures Valid() && Shifted(q, View(), i, j + 1)
    {
      ghost var v := View();
      var src := (queueHead + j + 1) % MAX_MESSAGES;
      var dst := (queueHead + j) % MAX_MESSAGES;
      messageQueue[dst] := messageQueue[src];
      ShiftOne(q, v, i, j);
      assert View() == v.(slots := v.slots[dst := At(v, j + 1)]);
    }

    method IpcReceive(pid: Word, sender: Word) returns (r: int, msg: Slot)
      requires Valid()
      modifies messageQueue, `queueCount
      ensures Valid()
      ensures (View(), if r == 0 then Got(Content(msg)) else Nothing) == Step(old(View()), Receive(pid, sender), false)
    {
      ghost var q := View();
      msg := messageQueue[0];
      r := -1;
      if queueCount == 0 {
        ReceiveFindsNothing(q, pid, sender);
        return;
      }
      for i := 0 to queueCount
        invariant r == -1 && View() == q
        invariant forall k :: 0 <= k < i ==> !Matches(Contents(q)[k], pid, sender)
      {
        var index := (queueHead + i) % MAX_MESSAGES;
        var candidate := messageQueue[index];
        assert candidate == At(q, i) && Contents(q)[i] == Content(candidate);
        if candidate.receiver == pid && (sender == 0 || candidate.sender == sender) {
          ReceiveFinds(q, pid, sender, i);
          msg := candidate;
          Compact(i);
          queueCount := queueCount - 1;
          assert View() == Removed(q, i, false);
          r := 0;
          return;
        }
      }
      ReceiveFindsNothing(q, pid, sender);
    }
  }

  // ----- What a receive answers, slot by slot

  /** Slot `i` of the window holds a message for that receiver, from that sender unless none is named. */
  predicate Waits(q: Ring, i: nat, pid: Word, sender: Word)
    requires ValidRing(q)
  {
    var s := q.slots[(q.head + i) % 16];
    s.receiver == pid && (sender == 0 || s.sender == sender)
  }

  /** The messages a receiver looks at are those of the slots from the head on, with the bytes their
      length covers. */
  lemma ContentsAt(q: Ring, i: nat)
    requires ValidRing(q) && i < q.count
    ensures var s, m := q.slots[(q.head + i) % 16], Contents(q)[i];
      m.sender == s.sender && m.receiver == s.receiver && m.kind == s.kind && m.bytes == s.data[..s.length]
  {
  }

  /** The ring's receive, as the code makes it: the first slot of the window that waits for this call is
      handed over, and there is no answer exactly when none does. */
  lemma RingReceives(q: Ring, pid: Word, sender: Word, retreat: bool)
    requires ValidRing(q)
    ensures var (u, o) := Step(q, Receive(pid, sender), retreat);
      && (o == Nothing <==> forall i: nat :: i < q.count ==> !Waits(q, i, pid, sender))
      && (o == Nothing ==> u == q)
      && (o != Nothing ==>
           o.Got? && u.count == q.count - 1 && u.head == q.head && u.tail == if retreat then (q.tail - 1) % 16 else q.tail)
  {
    WaitsIsMatch(q, pid, sender);
  }

  lemma RingReceivesFirst(q: Ring, pid: Word, sender: Word, retreat: bool, k: nat)
    requires ValidRing(q) && k < q.count && Waits(q, k, pid, sender)
    requires forall i: nat :: i < k ==> !Waits(q, i, pid, sender)
    ensures var (u, o) := Step(q, Receive(pid, sender), retreat);
      var s := q.slots[(q.head + k) % 16];
      && o == Got(Message(s.sender, s.receiver, s.kind, s.data[..s.length]))
      && Contents(u) == Contents(q)[..k] + Contents(q)[k + 1..]
  {
    WaitsIsMatch(q, pid, sender);
    assert FirstMatch(Contents(q), pid, sender) == k;
    RemovedContents(q, k, retreat);
    ContentsAt(q, k);
  }

  lemma WaitsIsMatch(q: Ring, pid: Word, sender: Word)
    requires ValidRing(q)
    ensures forall i: nat :: i < q.count ==> (Waits(q, i, pid, sender) <==> Matches(Contents(q)[i], pid, sender))
  {
    forall i: nat | i < q.count ensures Waits(q, i, pid, sender) <==> Matches(Contents(q)[i], pid, sender) {
      ContentsAt(q, i);
    }
  }

  /** A send is refused for a full queue first, then for its length; refused or not, it moves nothing but
      the slot at the tail. */
  lemma RingSends(q: Ring, m: Message, retreat: bool)
    requires ValidRing(q)
    ensures var (u, o) := Step(q, Send(m), retreat);
      && (o == Full <==> q.count >= 16) && (o == TooLong <==> q.count < 16 && |m.bytes| > 256)
      && (o == Sent <==> q.count < 16 && |m.bytes| <= 256)
      && (o != Sent ==> u == q)
      && (o == Sent ==>
           && u.head == q.head && u.tail == (q.tail + 1) % 16 && u.count == q.count + 1
           && (forall i :: 0 <= i < 16 && i != q.tail ==> u.slots[i] == q.slots[i])
           && var s := u.slots[q.tail];
             && s.sender == m.sender && s.receiver == m.receiver && s.kind == m.kind && s.length == |m.bytes|
             && s.data[..s.length] == m.bytes)
  {
  }

  // ----- When a send appends

  /** How far the tail runs ahead of the end of the window. */
  function Drift(q: Ring): nat {
    (q.tail - q.head - q.count) % MAX_MESSAGES
  }

  lemma StoreInStep(q: Ring, m: Message)
    requires ValidRing(q) && q.count < MAX_MESSAGES && |m.bytes| <= MAX_MSG_SIZE && Drift(q) == 0
    ensures Contents(Store(q, Filled(q.slots[q.tail], m))) == Contents(q) + [m]
  {
    var filled := Filled(q.slots[q.tail], m);
    var u := Store(q, filled);
    assert Content(filled) == m;
    forall i | 0 <= i <= q.count ensures At(u, i) == if i == q.count then filled else At(q, i) {
      StoreAt(q, filled, i);
    }
    assert Contents(u) == Contents(q) + [m];
  }

  lemma StoreAt(q: Ring, s: Slot, i: nat)
    requires ValidRing(q) && q.count < MAX_MESSAGES && Drift(q) == 0 && i <= q.count
    ensures At(Store(q, s), i) == if i == q.count then s else At(q, i)
  {
    assert q.tail == (q.head + q.count) % MAX_MESSAGES;
    SameSlot(q.head, i, q.count);
  }

  /** A send appends whatever it is given exactly when the tail has not drifted. */
  lemma SendAppendsExactly(q: Ring)
    requires ValidRing(q) && q.count < MAX_MESSAGES
    ensures Drift(q) == 0
      <==> forall m: Message :: |m.bytes| <= MAX_MSG_SIZE ==> Contents(Step(q, Send(m), false).0) == Contents(q) + [m]
  {
    if Drift(q) == 0 {
      forall m: Message | |m.bytes| <= MAX_MSG_SIZE
        ensures Contents(Step(q, Send(m), false).0) == Contents(q) + [m]
      {
        StoreInStep(q, m);
      }
    } else {
      var end := Content(At(q, q.count));
      var m := Message(Wrap(end.sender + 1), 0, 0, []);
      var u := Step(q, Send(m), false).0;
      assert q.tail != (q.head + q.count) % MAX_MESSAGES;
      assert Contents(u)[q.count] == end != m;
      assert (Contents(q) + [m])[q.count] == m;
    }
  }

  /** Sends keep the drift; as written every receive that takes a message adds one to it. */
  lemma DriftStep(q: Ring, e: Event, retreat: bool)
    requires ValidRing(q)
    ensures var (u, o) := Step(q, e, retreat);
      Drift(u) == if o.Got? && !retreat then (Drift(q) + 1) % MAX_MESSAGES else Drift(q)
  {
    match e
    case Send(m) =>
      if |m.bytes| <= MAX_MSG_SIZE {
        DriftOfStore(q, Filled(q.slots[q.tail], m));
      }
    case Receive(pid, sender) =>
      var k := FirstMatch(Contents(q), pid, sender);
      if k != -1 {
        DriftOfRemoved(q, k, retreat);
      }
  }

  lemma DriftOfStore(q: Ring, s: Slot)
    requires ValidRing(q)
    ensures Drift(Store(q, s)) == Drift(q)
  {
    TailAhead(q.tail, q.head, q.count);
  }

  lemma DriftOfRemoved(q: Ring, k: nat, retreat: bool)
    requires ValidRing(q) && k < q.count
    ensures Drift(Removed(q, k, retreat)) == if retreat then Drift(q) else (Drift(q) + 1) % MAX_MESSAGES
  {
    TailBack(q.tail, q.head, q.count);
    TailStays(q.tail - q.head - q.count);
  }

  lemma TailAhead(t: int, h: int, c: int)
    ensures ((t + 1) % MAX_MESSAGES - h - (c + 1)) % MAX_MESSAGES == (t - h - c) % MAX_MESSAGES
  {
  }

  lemma TailBack(t: int, h: int, c: int)
    ensures ((t - 1) % MAX_MESSAGES - h - (c - 1)) % MAX_MESSAGES == (t - h - c) % MAX_MESSAGES
  {
  }

  lemma TailStays(x: int)
    ensures (x + 1) % MAX_MESSAGES == (x % MAX_MESSAGES + 1) % MAX_MESSAGES
  {
  }

  // ----- Runs

  function Outcomes(q: Ring, es: seq<Event>, retreat: bool): seq<Outcome>
    requires ValidRing(q)
    decreases es
  {
    if es == [] then []
    else var (u, o) := Step(q, es[0], retreat); [o] + Outcomes(u, es[1..], retreat)
  }

  function IdealOutcomes(c: seq<Message>, es: seq<Event>): seq<Outcome>
    decreases es
  {
    if es == [] then []
    else var (d, o) := Ideal(c, es[0]); [o] + IdealOutcomes(d, es[1..])
  }

  /** Every accepted send of the run finds the tail in step. */
  predicate InStep(q: Ring, es: seq<Event>, retreat: bool)
    requires ValidRing(q)
    decreases es
  {
    es == [] || (
      var (u, o) := Step(q, es[0], retreat);
      (o == Sent ==> Drift(q) == 0) && InStep(u, es[1..], retreat))
  }

  /** Such a run answers like the ideal queue, call by call. */
  lemma {:induction false} InStepIsIdeal(q: Ring, es: seq<Event>, retreat: bool)
    requires ValidRing(q) && InStep(q, es, retreat)
    ensures Outcomes(q, es, retreat) == IdealOutcomes(Contents(q), es)
    decreases es
  {
    if es != [] {
      var (u, o) := Step(q, es[0], retreat);
      match es[0] {
        case Send(m) =>
          if o == Sent { StoreInStep(q, m); }
        case Receive(pid, sender) =>
          var k := FirstMatch(Contents(q), pid, sender);
          if k != -1 { RemovedContents(q, k, retreat); }
      }
      assert Contents(u) == Ideal(Contents(q), es[0]).0 && o == Ideal(Contents(q), es[0]).1;
      InStepIsIdeal(u, es[1..], retreat);
    }
  }

  /** With the tail moved back on receive, every run is ideal. */
  lemma {:induction false} RetreatStaysInStep(q: Ring, es: seq<Event>)
    requires ValidRing(q) && Drift(q) == 0
    ensures InStep(q, es, true)
    decreases es
  {
    if es != [] {
      DriftStep(q, es[0], true);
      RetreatStaysInStep(Step(q, es[0], true).0, es[1..]);
    }
  }

  /** As written, runs of sends followed by receives are ideal. */
  lemma {:induction false} SendsThenReceives(q: Ring, es: seq<Event>, n: nat)
    requires ValidRing(q) && Drift(q) == 0 && n <= |es|
    requires (forall i :: 0 <= i < n ==> es[i].Send?) && (forall i :: n <= i < |es| ==> es[i].Receive?)
    ensures InStep(q, es, false)
    decreases es
  {
    if es != [] {
      DriftStep(q, es[0], false);
      var u := Step(q, es[0], false).0;
      if n > 0 {
        SendsThenReceives(u, es[1..], n - 1);
      } else {
        ReceivesOnly(u, es[1..]);
      }
    }
  }

  lemma {:induction false} ReceivesOnly(q: Ring, es: seq<Event>)
    requires ValidRing(q) && forall i :: 0 <= i < |es| ==> es[i].Receive?
    ensures InStep(q, es, false)
    decreases es
  {
    if es != [] {
      ReceivesOnly(Step(q, es[0], false).0, es[1..]);
    }
  }

  /** The messages taken in a list of outcomes. */
  function Taken(os: seq<Outcome>): seq<Message> {
    if os == [] then [] else TakenBy(os[0]) + Taken(os[1..])
  }

  /** The drift grows by the messages taken, modulo the size of the ring. */
  ghost predicate Counts(from: nat, to: nat, os: seq<Outcome>) {
    to == (from + |Taken(os)|) % MAX_MESSAGES
  }

  /** As written the drift is the number of messages taken so far, modulo the size of the ring: sends
      are safe again only after every sixteenth receive. */
  lemma {:induction false} DriftCountsReceives(q: Ring, es: seq<Event>)
    requires ValidRing(q)
    ensures Counts(Drift(q), Drift(RingAfter(q, es, false)), Outcomes(q, es, false))
    decreases es
  {
    if es != [] {
      var (u, o) := Step(q, es[0], false);
      var end, rest := Drift(RingAfter(u, es[1..], false)), Outcomes(u, es[1..], false);
      assert Counts(Drift(u), end, rest) by { DriftCountsReceives(u, es[1..]); }
      assert Counts(Drift(q), end, [o] + rest) by {
        DriftStep(q, es[0], false);
        CountStep(Drift(q), Drift(u), end, o, rest);
      }
      OutcomesCons(q, es);
    }
  }

  lemma CountStep(from: nat, next: nat, to: nat, o: Outcome, rest: seq<Outcome>)
    requires from < MAX_MESSAGES && next == (if o.Got? then (from + 1) % MAX_MESSAGES else from)
    requires Counts(next, to, rest)
    ensures Counts(from, to, [o] + rest)
  {
    assert ([o] + rest)[1..] == rest;
    assert |Taken([o] + rest)| == (if o.Got? then 1 else 0) + |Taken(rest)|;
    CountOne(from, |Taken(rest)|);
  }

  lemma CountOne(d: nat, n: nat)
    ensures ((d + 1) % MAX_MESSAGES + n) % MAX_MESSAGES == (d + (1 + n)) % MAX_MESSAGES
  {
  }

  function RingAfter(q: Ring, es: seq<Event>, retreat: bool): (u: Ring)
    requires ValidRing(q)
    ensures ValidRing(u)
    decreases es
  {
    if es == [] then q else RingAfter(Step(q, es[0], retreat).0, es[1..], retreat)
  }

  /** Send, receive, send, receive: the second receive returns the first message again. */
  lemma FirstMessageTwice(slots: seq<Slot>, a: Message, b: Message)
    requires |slots| == MAX_MESSAGES && |a.bytes| <= MAX_MSG_SIZE && |b.bytes| <= MAX_MSG_SIZE
    requires a.receiver == b.receiver
    ensures var take := Receive(a.receiver, 0);
      Outcomes(Ring(slots, 0, 0, 0), [Send(a), take, Send(b), take], false) == [Sent, Got(a), Sent, Got(a)]
  {
    var take, q0 := Receive(a.receiver, 0), Ring(slots, 0, 0, 0);
    var q2 := FirstRound(q0, a);
    SecondRound(q2, a, b);
    TwoOutcomes(q2, Send(b), take, []);
    TwoOutcomes(q0, Send(a), take, [Send(b), take]);
    assert [Send(b), take] + [] == [Send(b), take];
    assert [Send(a), take] + [Send(b), take] == [Send(a), take, Send(b), take];
    assert [Sent, Got(a)] + [] == [Sent, Got(a)];
  }

  /** After the first message came and went, its slot heads the window again, and the tail has moved on. */
  lemma FirstRound(q: Ring, a: Message) returns (u: Ring)
    requires ValidRing(q) && q.head == q.tail == q.count == 0 && |a.bytes| <= MAX_MSG_SIZE
    ensures ValidRing(u) && u.head == 0 && u.tail == 1 && u.count == 0 && Content(u.slots[0]) == a
    ensures Step(q, Send(a), false).1 == Sent
    ensures Step(Step(q, Send(a), false).0, Receive(a.receiver, 0), false) == (u, Got(a))
  {
    var v := Step(q, Send(a), false).0;
    StoreInStep(q, a);
    assert Contents(v) == [a];
    u := Removed(v, 0, false);
    CompactedAt(v, 0, 0);
    assert u.slots[0] == v.slots[0] && Content(v.slots[0]) == a;
  }

  lemma SecondRound(q: Ring, a: Message, b: Message)
    requires ValidRing(q) && q.head == 0 && q.tail == 1 && q.count == 0 && Content(q.slots[0]) == a
    requires a.receiver == b.receiver && |b.bytes| <= MAX_MSG_SIZE
    ensures Step(q, Send(b), false).1 == Sent
    ensures Step(Step(q, Send(b), false).0, Receive(a.receiver, 0), false).1 == Got(a)
  {
    var v := Step(q, Send(b), false).0;
    assert Contents(v) == [Content(v.slots[0])] == [a];
  }

  lemma TwoOutcomes(q: Ring, d: Event, e: Event, rest: seq<Event>)
    requires ValidRing(q)
    ensures var (u, o) := Step(q, d, false);
      var (v, p) := Step(u, e, false);
      Outcomes(q, [d, e] + rest, false) == [o, p] + Outcomes(v, rest, false)
  {
    var (u, o) := Step(q, d, false);
    var (v, p) := Step(u, e, false);
    var es, os := [d, e] + rest, Outcomes(v, rest, false);
    assert es[0] == d && es[1..] == [e] + rest && es[1..][1..] == rest;
    OutcomesCons(u, es[1..]);
    OutcomesCons(q, es);
    assert [o] + ([p] + os) == [o, p] + os;
  }

  lemma OutcomesCons(q: Ring, es: seq<Event>)
    requires ValidRing(q) && es != []
    ensures var (u, o) := Step(q, es[0], false);
      && Outcomes(q, es, false) == [o] + Outcomes(u, es[1..], false)
      && RingAfter(q, es, false) == RingAfter(u, es[1..], false)
  {
  }

  // ----- Channels

  function Only(m: Message, sender: Word, receiver: Word): seq<Message> {
    if m.sender == sender && m.receiver == receiver then [m] else []
  }

  /** The messages of one sender to one receiver. */
  function Channel(c: seq<Message>, sender: Word, receiver: Word): seq<Message> {
    if c == [] then [] else Only(c[0], sender, receiver) + Channel(c[1..], sender, receiver)
  }

  /** A channel is the subsequence of its messages. */
  lemma ChannelSnoc(c: seq<Message>, m: Message, sender: Word, receiver: Word)
    ensures Channel([], sender, receiver) == []
    ensures Channel(c + [m], sender, receiver)
      == Channel(c, sender, receiver) + (if m.sender == sender && m.receiver == receiver then [m] else [])
  {
    ChannelAppend(c, [m], sender, receiver);
    ChannelOne(m, sender, receiver);
  }

  /** The messages taken are those of the outcomes that got one. */
  lemma {:induction false} TakenSnoc(os: seq<Outcome>, o: Outcome)
    ensures Taken([]) == []
    ensures Taken(os + [o]) == Taken(os) + (if o.Got? then [o.message] else [])
  {
    if os == [] {
      assert [o][1..] == [] && os + [o] == [o];
    } else {
      var all, last := os + [o], if o.Got? then [o.message] else [];
      assert all[0] == os[0] && all[1..] == os[1..] + [o];
      TakenSnoc(os[1..], o);
      assert TakenBy(os[0]) + (Taken(os[1..]) + last) == (TakenBy(os[0]) + Taken(os[1..])) + last;
    }
  }

  /** The messages accepted are those of the sends that succeeded. */
  lemma {:induction false} AcceptedSnoc(es: seq<Event>, os: seq<Outcome>, e: Event, o: Outcome)
    requires |es| == |os|
    ensures Accepted([], []) == []
    ensures Accepted(es + [e], os + [o]) == Accepted(es, os) + (if e.Send? && o == Sent then [e.message] else [])
  {
    if es == [] {
      assert [e][1..] == [] && [o][1..] == [] && es + [e] == [e] && os + [o] == [o];
    } else {
      assert (es + [e])[1..] == es[1..] + [e] && (os + [o])[1..] == os[1..] + [o];
      AcceptedSnoc(es[1..], os[1..], e, o);
    }
  }

  /** The messages whose send was accepted. */
  function Accepted(es: seq<Event>, os: seq<Outcome>): seq<Message>
    requires |es| == |os|
  {
    if es == [] then [] else AcceptedBy(es[0], os[0]) + Accepted(es[1..], os[1..])
  }

  function AcceptedBy(e: Event, o: Outcome): seq<Message> {
    if e.Send? && o == Sent then [e.message] else []
  }

  function TakenBy(o: Outcome): seq<Message> {
    if o.Got? then [o.message] else []
  }

  function IdealAfter(c: seq<Message>, es: seq<Event>): seq<Message>
    decreases es
  {
    if es == [] then c else IdealAfter(Ideal(c, es[0]).0, es[1..])
  }

  lemma {:induction false} ChannelAppend(c: seq<Message>, d: seq<Message>, sender: Word, receiver: Word)
    ensures Channel(c + d, sender, receiver) == Channel(c, sender, receiver) + Channel(d, sender, receiver)
  {
    if c == [] {
      assert c + d == d;
    } else {
      assert (c + d)[1..] == c[1..] + d;
      ChannelAppend(c[1..], d, sender, receiver);
    }
  }

  /** Taking the oldest match takes the head of its channel and leaves the other channels alone. */
  lemma {:induction false} ChannelWithout(c: seq<Message>, k: nat, pid: Word, from: Word, sender: Word, receiver: Word)
    requires k < |c| && FirstMatch(c, pid, from) == k
    ensures Channel(c, sender, receiver) == Only(c[k], sender, receiver) + Channel(Without(c, k), sender, receiver)
  {
    var w := Without(c, k);
    if k == 0 {
      assert w == c[1..];
    } else {
      assert w[0] == c[0] && w[1..] == Without(c[1..], k - 1);
      ChannelWithout(c[1..], k - 1, pid, from, sender, receiver);
      assert !Matches(c[0], pid, from) && Matches(c[k], pid, from);
      Commute(Only(c[0], sender, receiver), Only(c[k], sender, receiver), Channel(w[1..], sender, receiver));
    }
  }

  lemma Commute(a: seq<Message>, b: seq<Message>, rest: seq<Message>)
    requires a == [] || b == []
    ensures a + (b + rest) == b + (a + rest)
  {
  }

  /** One call conserves every channel: what was there and came in is what went out and is there. */
  lemma ChannelStep(c: seq<Message>, e: Event, sender: Word, receiver: Word)
    ensures var (d, o) := Ideal(c, e);
      Channel(c, sender, receiver) + Channel(AcceptedBy(e, o), sender, receiver)
        == Channel(TakenBy(o), sender, receiver) + Channel(d, sender, receiver)
  {
    match e
    case Send(m) =>
      if SendOutcome(|c|, m) == Sent {
        assert AcceptedBy(e, Sent) == [m];
        ChannelAppend(c, [m], sender, receiver);
      }
    case Receive(pid, from) =>
      var k := FirstMatch(c, pid, from);
      if k != -1 {
        ChannelWithout(c, k, pid, from, sender, receiver);
        ChannelOne(c[k], sender, receiver);
      }
  }

  lemma ChannelOne(m: Message, sender: Word, receiver: Word)
    ensures Channel([m], sender, receiver) == Only(m, sender, receiver)
  {
    assert [m][1..] == [];
  }

  /** On each channel the ideal queue is first in, first out, without loss or duplication: what was
      there and was accepted is what was taken followed by what still waits. */
  lemma {:induction false} ChannelFifo(c: seq<Message>, es: seq<Event>, sender: Word, receiver: Word)
    ensures var os := IdealOutcomes(c, es);
      && |os| == |es|
      && Channel(c, sender, receiver) + Channel(Accepted(es, os), sender, receiver)
        == Channel(Taken(os), sender, receiver) + Channel(IdealAfter(c, es), sender, receiver)
    decreases es
  {
    if es != [] {
      var (d, o) := Ideal(c, es[0]);
      var os := IdealOutcomes(d, es[1..]);
      ChannelStep(c, es[0], sender, receiver);
      ChannelFifo(d, es[1..], sender, receiver);
      assert ([o] + os)[1..] == os;
      ChannelAppend(AcceptedBy(es[0], o), Accepted(es[1..], os), sender, receiver);
      ChannelAppend(TakenBy(o), Taken(os), sender, receiver);
      Regroup(Channel(c, sender, receiver), Channel(AcceptedBy(es[0], o), sender, receiver),
              Channel(Accepted(es[1..], os), sender, receiver), Channel(TakenBy(o), sender, receiver),
              Channel(d, sender, receiver), Channel(Taken(os), sender, receiver),
              Channel(IdealAfter(c, es), sender, receiver));
    }
  }

  lemma Regroup<T>(c: seq<T>, i: seq<T>, ii: seq<T>, o: seq<T>, d: seq<T>, os: seq<T>, left: seq<T>)
    requires c + i == o + d && d + ii == os + left
    ensures c + (i + ii) == (o + os) + left
  {
    assert c + (i + ii) == (c + i) + ii == (o + d) + ii == o + (d + ii) == o + (os + left);
  }
}
