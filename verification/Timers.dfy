/** The performance timers (`kernel/monitor.c`) as values: sixteen slots measured against the log clock. */
module Timers {
  import opened Bits
  import opened Common
  import opened CStrings

  const MAX_TIMERS := 16
  const NAME_LIMIT := 31

  datatype Timer = Timer(name: CString, start: Word, total: Word, active: bool)

  datatype Bank = Bank(timers: seq<Timer>, clock: Word)

  const UNUSED := Timer("", 0, 0, false)

  function Cleared(clock: Word): Bank {
    Bank(seq(MAX_TIMERS, _ => UNUSED), clock)
  }

  // ----- The three searches

  predicate Startable(t: Timer, name: CString) { t.name == "" || t.name == name }

  predicate Endable(t: Timer, name: CString) { t.active && t.name == name }

  predicate Named(t: Timer, name: CString) { t.name == name }

  function StartSlot(b: Bank, name: CString): int { First(b.timers, t => Startable(t, name)) }

  function EndSlot(b: Bank, name: CString): int { First(b.timers, t => Endable(t, name)) }

  function NameSlot(b: Bank, name: CString): int { First(b.timers, t => Named(t, name)) }

  // ----- The calls

  datatype Event = Logged | Started(name: CString) | Ended(name: CString)

  function Step(b: Bank, e: Event): Bank {
    match e
    case Logged => b.(clock := Wrap(b.clock + 1))
    case Started(name) =>
      var i := StartSlot(b, name);
      if i == -1 then b
      else b.(timers := b.timers[i := Timer(Truncate(name, NAME_LIMIT), b.clock, b.timers[i].total, true)])
    case Ended(name) =>
      var i := EndSlot(b, name);
      if i == -1 then b
      else
        var t := b.timers[i];
        b.(timers := b.timers[i := t.(total := Wrap(t.total + Wrap(b.clock - t.start)), active := false)])
  }

  function Value(b: Bank, name: CString): Word {
    var i := NameSlot(b, name);
    if i == -1 then 0 else b.timers[i].total
  }

  function Run(clock: Word, es: seq<Event>): Bank {
    if es == [] then Cleared(clock) else Step(Run(clock, es[..|es| - 1]), es[|es| - 1])
  }

  // ----- What a timer should measure, from the history alone

  predicate Concerns(e: Event, name: CString) {
    e == Started(name) || e == Ended(name)
  }

  /** Start `i` is the last event of that name before `n`. */
  ghost predicate OpenAt(es: seq<Event>, name: CString, i: int, n: int) {
    0 <= i < n <= |es| && es[i] == Started(name) && forall k :: i < k < n ==> !Concerns(es[k], name)
  }

  /** Log call `k` lies in a completed interval of the timer: its last start before `k` is still the
      last when the next end comes. */
  ghost predicate Measured(es: seq<Event>, name: CString, k: int) {
    0 <= k < |es| && es[k] == Logged && exists i, j :: i < k < j && IsInterval(es, name, i, j)
  }

  ghost predicate IsInterval(es: seq<Event>, name: CString, i: int, j: int) {
    OpenAt(es, name, i, j) && j < |es| && es[j] == Ended(name)
  }

  ghost function MeasuredCalls(es: seq<Event>, name: CString): set<int> {
    set k | 0 <= k < |es| && Measured(es, name, k)
  }

  /** The log calls since the timer's last start, when it is running at the end of the history. */
  ghost function RunningCalls(es: seq<Event>, name: CString): set<int> {
    set k | 0 <= k < |es| && Running(es, name, k)
  }

  ghost predicate Running(es: seq<Event>, name: CString, k: int) {
    0 <= k < |es| && es[k] == Logged && exists i :: i < k && OpenAt(es, name, i, |es|)
  }

  ghost predicate IsRunning(es: seq<Event>, name: CString) {
    exists i :: OpenAt(es, name, i, |es|)
  }

  /** The first sixteen names ever started, in order: the ones that get a slot. */
  function Tracked(es: seq<Event>): (ns: seq<CString>)
    ensures |ns| <= MAX_TIMERS
  {
    if es == [] then []
    else
      var ns, e := Tracked(es[..|es| - 1]), es[|es| - 1];
      if e.Started? && e.name !in ns && |ns| < MAX_TIMERS then ns + [e.name] else ns
  }

  // ----- One more event

  lemma OpenAtAppend(es: seq<Event>, e: Event, name: CString, i: int, n: int)
    requires n <= |es|
    ensures OpenAt(es + [e], name, i, n) <==> OpenAt(es, name, i, n)
  {
    assert forall k :: 0 <= k < |es| ==> (es + [e])[k] == es[k];
  }

  lemma RunningAppend(es: seq<Event>, e: Event, name: CString)
    ensures IsRunning(es + [e], name) <==> e == Started(name) || (e != Ended(name) && IsRunning(es, name))
    ensures Concerns(e, name) ==> RunningCalls(es + [e], name) == {}
    ensures e == Logged && IsRunning(es, name) ==> RunningCalls(es + [e], name) == RunningCalls(es, name) + {|es|}
    ensures !Concerns(e, name) && !(e == Logged && IsRunning(es, name)) ==> RunningCalls(es + [e], name) == RunningCalls(es, name)
  {
    var fs, n := es + [e], |es|;
    assert fs[n] == e && forall k :: 0 <= k < n ==> fs[k] == es[k];
    if e == Started(name) {
      assert OpenAt(fs, name, n, n + 1);
    }
    forall i ensures OpenAt(fs, name, i, n + 1) <==> (e == Started(name) && i == n) || (!Concerns(e, name) && OpenAt(es, name, i, n)) {
      OpenAtAppend(es, e, name, i, n);
    }
    forall k ensures Running(fs, name, k)
      <==> !Concerns(e, name) && (Running(es, name, k) || (k == n && e == Logged && IsRunning(es, name)))
    {
      if Running(fs, name, k) {
        var i :| i < k && OpenAt(fs, name, i, |fs|);
        assert OpenAt(fs, name, i, n + 1);
        assert !Concerns(e, name) && OpenAt(es, name, i, n);
      }
      if Running(es, name, k) && !Concerns(e, name) {
        var i :| i < k && OpenAt(es, name, i, n);
        assert OpenAt(fs, name, i, n + 1);
      }
      if k == n && e == Logged && IsRunning(es, name) {
        var i :| OpenAt(es, name, i, n);
        assert OpenAt(fs, name, i, n + 1);
      }
    }
    assert |fs| == n + 1;
    if IsRunning(fs, name) {
      var i :| OpenAt(fs, name, i, |fs|);
      assert e == Started(name) || (!Concerns(e, name) && OpenAt(es, name, i, |es|));
    }
    if e == Started(name) {
      assert OpenAt(fs, name, n, |fs|);
    } else if !Concerns(e, name) && IsRunning(es, name) {
      var i :| OpenAt(es, name, i, |es|);
      assert OpenAt(fs, name, i, |fs|);
    }
  }

  lemma IntervalAppend(es: seq<Event>, e: Event, name: CString, i: int, j: int)
    ensures IsInterval(es + [e], name, i, j)
      <==> IsInterval(es, name, i, j) || (j == |es| && e == Ended(name) && OpenAt(es, name, i, j))
  {
    if j <= |es| {
      OpenAtAppend(es, e, name, i, j);
    }
  }

  lemma MeasuredAppend(es: seq<Event>, e: Event, name: CString)
    ensures MeasuredCalls(es + [e], name)
      == if e == Ended(name) then MeasuredCalls(es, name) + RunningCalls(es, name) else MeasuredCalls(es, name)
  {
    var fs, n := es + [e], |es|;
    assert fs[n] == e && forall k :: 0 <= k < n ==> fs[k] == es[k];
    forall k ensures Measured(fs, name, k) <==> Measured(es, name, k) || (e == Ended(name) && Running(es, name, k)) {
      if Measured(fs, name, k) {
        var i, j :| i < k < j && IsInterval(fs, name, i, j);
        IntervalAppend(es, e, name, i, j);
      }
      if Measured(es, name, k) {
        var i, j :| i < k < j && IsInterval(es, name, i, j);
        IntervalAppend(es, e, name, i, j);
      }
      if e == Ended(name) && Running(es, name, k) {
        var i :| i < k && OpenAt(es, name, i, n);
        IntervalAppend(es, e, name, i, n);
      }
    }
  }

  /** Running calls are not measured yet. */
  lemma RunningNotMeasured(es: seq<Event>, name: CString)
    ensures MeasuredCalls(es, name) !! RunningCalls(es, name)
  {
    forall k | k in RunningCalls(es, name) ensures k !in MeasuredCalls(es, name) {
      var i :| i < k && OpenAt(es, name, i, |es|);
      forall a, b | a < k < b && IsInterval(es, name, a, b) ensures false {
        assert Concerns(es[b], name);
      }
    }
  }

  // ----- The bank follows the history

  /** What slot `i` must hold for the name it carries. */
  ghost predicate Follows(clock: Word, es: seq<Event>, t: Timer) {
    && t.total == Wrap(|MeasuredCalls(es, t.name)|)
    && (t.active <==> IsRunning(es, t.name))
    && (t.active ==> Wrap(clock - t.start) == Wrap(|RunningCalls(es, t.name)|))
  }

  /** The used slots are a packed prefix carrying the tracked names, each once; the rest is untouched. */
  ghost predicate Inv(b: Bank, es: seq<Event>) {
    var ns := Tracked(es);
    && |b.timers| == MAX_TIMERS
    && (forall i :: 0 <= i < |ns| ==> b.timers[i].name == ns[i] && Follows(b.clock, es, b.timers[i]))
    && (forall i :: |ns| <= i < MAX_TIMERS ==> b.timers[i] == UNUSED)
  }

  predicate GoodName(name: CString) {
    0 < |name| <= NAME_LIMIT
  }

  predicate GoodNames(es: seq<Event>) {
    forall i :: 0 <= i < |es| && !es[i].Logged? ==> GoodName(es[i].name)
  }

  lemma {:induction false} TrackedNames(es: seq<Event>)
    requires GoodNames(es)
    ensures forall i :: 0 <= i < |Tracked(es)| ==> GoodName(Tracked(es)[i])
    ensures forall i, j :: 0 <= i < j < |Tracked(es)| ==> Tracked(es)[i] != Tracked(es)[j]
  {
    if es != [] {
      TrackedNames(es[..|es| - 1]);
    }
  }

  /** A name that was never started has measured nothing. */
  lemma {:induction false} Untracked(es: seq<Event>, name: CString)
    requires forall i :: 0 <= i < |es| ==> es[i] != Started(name)
    ensures MeasuredCalls(es, name) == {} && RunningCalls(es, name) == {} && !IsRunning(es, name)
  {
  }

  /** With room left, the tracked names are all names started. */
  lemma {:induction false} TrackedAll(es: seq<Event>, name: CString)
    requires |Tracked(es)| < MAX_TIMERS && name !in Tracked(es)
    ensures forall i :: 0 <= i < |es| ==> es[i] != Started(name)
  {
    if es != [] {
      var before := es[..|es| - 1];
      TrackedAll(before, name);
      forall i | 0 <= i < |es| ensures es[i] != Started(name) {
        if i < |es| - 1 { assert es[i] == before[i]; }
      }
    }
  }

  lemma NotRunning(es: seq<Event>, name: CString)
    requires !IsRunning(es, name)
    ensures RunningCalls(es, name) == {}
  {
  }

  lemma WrapSum(x: int, y: int)
    ensures Wrap(Wrap(x) + Wrap(y)) == Wrap(x + y)
  {
  }

  /** A slot whose timer the event does not concern keeps following. */
  lemma FollowsOther(b: Bank, es: seq<Event>, e: Event, t: Timer)
    requires Follows(b.clock, es, t) && !Concerns(e, t.name)
    ensures Follows(if e == Logged then Wrap(b.clock + 1) else b.clock, es + [e], t)
  {
    RunningAppend(es, e, t.name);
    MeasuredAppend(es, e, t.name);
    if t.active && e == Logged {
      assert |es| !in RunningCalls(es, t.name);
      assert |RunningCalls(es + [e], t.name)| == |RunningCalls(es, t.name)| + 1;
      OneLater(b.clock, t.start, |RunningCalls(es, t.name)|);
    }
  }

  lemma OneLater(clock: Word, start: Word, n: nat)
    requires Wrap(clock - start) == Wrap(n)
    ensures Wrap(Wrap(clock + 1) - start) == Wrap(n + 1)
  {
    WrapSum(clock - start, 1);
    WrapSum(n, 1);
  }

  lemma FollowsStart(b: Bank, es: seq<Event>, name: CString, total: Word)
    requires total == Wrap(|MeasuredCalls(es, name)|)
    ensures Follows(b.clock, es + [Started(name)], Timer(name, b.clock, total, true))
  {
    RunningAppend(es, Started(name), name);
    MeasuredAppend(es, Started(name), name);
  }

  lemma FollowsEnd(b: Bank, es: seq<Event>, t: Timer)
    requires Follows(b.clock, es, t)
    ensures Follows(b.clock, es + [Ended(t.name)],
      if t.active then t.(total := Wrap(t.total + Wrap(b.clock - t.start)), active := false) else t)
  {
    RunningAppend(es, Ended(t.name), t.name);
    MeasuredEnd(es, t.name);
    WrapSum(|MeasuredCalls(es, t.name)|, |RunningCalls(es, t.name)|);
    if !t.active {
      NotRunning(es, t.name);
    }
  }

  lemma MeasuredEnd(es: seq<Event>, name: CString)
    ensures |MeasuredCalls(es + [Ended(name)], name)| == |MeasuredCalls(es, name)| + |RunningCalls(es, name)|
  {
    MeasuredAppend(es, Ended(name), name);
    RunningNotMeasured(es, name);
  }

  /** The slot a timer of that name uses: its own, else the first free one. */
  lemma StartSlotIs(b: Bank, es: seq<Event>, name: CString)
    requires Inv(b, es) && GoodNames(es) && GoodName(name)
    ensures var ns, i := Tracked(es), StartSlot(b, name);
      if name in ns then 0 <= i < |ns| && ns[i] == name
      else i == if |ns| < MAX_TIMERS then |ns| else -1
  {
    TrackedNames(es);
    var ns, i := Tracked(es), StartSlot(b, name);
    assert forall k :: 0 <= k < |ns| ==> (Startable(b.timers[k], name) <==> ns[k] == name);
    if name in ns {
      var k :| 0 <= k < |ns| && ns[k] == name;
      assert Startable(b.timers[k], name);
    } else if |ns| < MAX_TIMERS {
      assert Startable(b.timers[|ns|], name);
    }
  }

  lemma StartKeepsInv(b: Bank, es: seq<Event>, name: CString)
    requires Inv(b, es) && GoodNames(es) && GoodName(name)
    ensures Inv(Step(b, Started(name)), es + [Started(name)])
  {
    var ns, i, e := Tracked(es), StartSlot(b, name), Started(name);
    var fs, u := es + [e], Step(b, e);
    StartSlotIs(b, es, name);
    TrackedNames(es);
    assert fs[..|es|] == es;
    forall k | 0 <= k < |ns| && ns[k] != name ensures Follows(u.clock, fs, b.timers[k]) {
      FollowsOther(b, es, e, b.timers[k]);
    }
    if i != -1 {
      StartFollows(b, es, name, i);
      SlotFilled(b, es, name, i, Timer(name, b.clock, b.timers[i].total, true));
    }
  }

  /** Putting a following timer into its slot, or the first free one, keeps the bank in order. */
  lemma SlotFilled(b: Bank, es: seq<Event>, name: CString, i: nat, t: Timer)
    requires |b.timers| == MAX_TIMERS && i < MAX_TIMERS
    requires var ns, fs := Tracked(es), es + [Started(name)];
      && (forall k :: 0 <= k < |ns| ==> b.timers[k].name == ns[k])
      && (forall k :: 0 <= k < |ns| && ns[k] != name ==> Follows(b.clock, fs, b.timers[k]))
      && (forall k :: |ns| <= k < MAX_TIMERS ==> b.timers[k] == UNUSED)
      && (forall j, k :: 0 <= j < k < |ns| ==> ns[j] != ns[k])
      && (if i < |ns| then ns[i] == name else i == |ns| && name !in ns)
      && t.name == name && Follows(b.clock, fs, t)
    ensures Inv(b.(timers := b.timers[i := t]), es + [Started(name)])
  {
    var ns, fs := Tracked(es), es + [Started(name)];
    assert fs[..|es|] == es;
    assert Tracked(fs) == if i < |ns| then ns else ns + [name];
    var u := b.(timers := b.timers[i := t]);
    forall k | 0 <= k < |Tracked(fs)| ensures u.timers[k].name == Tracked(fs)[k] && Follows(u.clock, fs, u.timers[k]) {
      assert k != i ==> ns[k] != name && u.timers[k] == b.timers[k];
    }
  }

  lemma StartFollows(b: Bank, es: seq<Event>, name: CString, i: nat)
    requires Inv(b, es) && i <= |Tracked(es)| && i < MAX_TIMERS
    requires if i < |Tracked(es)| then Tracked(es)[i] == name else name !in Tracked(es)
    ensures Follows(b.clock, es + [Started(name)], Timer(name, b.clock, b.timers[i].total, true))
  {
    if i == |Tracked(es)| {
      TrackedAll(es, name);
      Untracked(es, name);
    }
    FollowsStart(b, es, name, b.timers[i].total);
  }

  /** Ending touches the running timer of that name and no other slot. */
  lemma EndTouches(b: Bank, es: seq<Event>, name: CString, k: nat)
    requires Inv(b, es) && GoodNames(es) && GoodName(name) && k < MAX_TIMERS
    ensures |Step(b, Ended(name)).timers| == MAX_TIMERS && Step(b, Ended(name)).clock == b.clock
    ensures var t := b.timers[k];
      Step(b, Ended(name)).timers[k] ==
        if Endable(t, name) then t.(total := Wrap(t.total + Wrap(b.clock - t.start)), active := false) else t
  {
    TrackedNames(es);
    var ns, i := Tracked(es), EndSlot(b, name);
    if i != -1 && b.timers[k].name == name {
      OneSlot(b.timers, ns, name, k, i);
    }
  }

  lemma OneSlot(ts: seq<Timer>, ns: seq<CString>, name: CString, j: nat, k: nat)
    requires |ns| <= |ts| == MAX_TIMERS && j < MAX_TIMERS && k < MAX_TIMERS && name != ""
    requires forall i :: 0 <= i < |ns| ==> ts[i].name == ns[i]
    requires forall i :: |ns| <= i < MAX_TIMERS ==> ts[i] == UNUSED
    requires forall a, b :: 0 <= a < b < |ns| ==> ns[a] != ns[b]
    requires ts[j].name == name && ts[k].name == name
    ensures j == k
  {
  }

  /** Slot `k` after an end. */
  lemma EndFollows(b: Bank, es: seq<Event>, name: CString, k: nat)
    requires Inv(b, es) && GoodNames(es) && GoodName(name) && k < MAX_TIMERS
    ensures var u, ns := Step(b, Ended(name)), Tracked(es);
      && |u.timers| == MAX_TIMERS
      && (k < |ns| ==> u.timers[k].name == ns[k] && Follows(u.clock, es + [Ended(name)], u.timers[k]))
      && (k >= |ns| ==> u.timers[k] == UNUSED)
  {
    EndTouches(b, es, name, k);
    var t := b.timers[k];
    if k < |Tracked(es)| {
      if t.name == name {
        FollowsEnd(b, es, t);
      } else {
        FollowsOther(b, es, Ended(name), t);
      }
    }
  }

  lemma EndKeepsInv(b: Bank, es: seq<Event>, name: CString)
    requires Inv(b, es) && GoodNames(es) && GoodName(name)
    ensures Inv(Step(b, Ended(name)), es + [Ended(name)])
  {
    var fs, u := es + [Ended(name)], Step(b, Ended(name));
    assert fs[..|es|] == es;
    assert Tracked(fs) == Tracked(es);
    EndFollows(b, es, name, 0);
    forall k | 0 <= k < MAX_TIMERS
      ensures k < |Tracked(fs)| ==> u.timers[k].name == Tracked(fs)[k] && Follows(u.clock, fs, u.timers[k])
      ensures k >= |Tracked(fs)| ==> u.timers[k] == UNUSED
    {
      EndFollows(b, es, name, k);
    }
  }

  lemma LoggedKeepsInv(b: Bank, es: seq<Event>)
    requires Inv(b, es)
    ensures Inv(Step(b, Logged), es + [Logged])
  {
    assert (es + [Logged])[..|es|] == es;
    forall k | 0 <= k < |Tracked(es)| ensures Follows(Step(b, Logged).clock, es + [Logged], b.timers[k]) {
      FollowsOther(b, es, Logged, b.timers[k]);
    }
  }

  lemma {:induction false} RunKeepsInv(clock: Word, es: seq<Event>)
    requires GoodNames(es)
    ensures Inv(Run(clock, es), es)
  {
    if es != [] {
      var before, e := es[..|es| - 1], es[|es| - 1];
      assert GoodNames(before);
      RunKeepsInv(clock, before);
      assert before + [e] == es;
      var b := Run(clock, before);
      match e
      case Logged => LoggedKeepsInv(b, before);
      case Started(name) => StartKeepsInv(b, before, name);
      case Ended(name) => EndKeepsInv(b, before, name);
    }
  }

  /** Over any run, the value of a timer is the number of log calls inside its completed intervals,
      modulo 2^32, if its name is among the first sixteen started; other names read zero. */
  lemma ValueIsMeasured(clock: Word, es: seq<Event>, name: CString)
    requires GoodNames(es) && GoodName(name)
    ensures Value(Run(clock, es), name) == if name in Tracked(es) then Wrap(|MeasuredCalls(es, name)|) else 0
  {
    RunKeepsInv(clock, es);
    TrackedNames(es);
    var b, ns := Run(clock, es), Tracked(es);
    if name in ns {
      var k :| 0 <= k < |ns| && ns[k] == name;
      assert Named(b.timers[k], name);
    }
  }

  /** While at most sixteen names are in use nothing is left unmeasured. */
  lemma ValueOfFew(clock: Word, es: seq<Event>, name: CString, names: set<CString>)
    requires GoodNames(es) && GoodName(name) && |names| <= MAX_TIMERS
    requires forall i :: 0 <= i < |es| && es[i].Started? ==> es[i].name in names
    ensures Value(Run(clock, es), name) == Wrap(|MeasuredCalls(es, name)|)
  {
    ValueIsMeasured(clock, es, name);
    if name !in Tracked(es) {
      if |Tracked(es)| < MAX_TIMERS {
        TrackedAll(es, name);
      } else if name in names {
        TrackedNames(es);
        TrackedFrom(es, names);
        DistinctFit(Tracked(es), names - {name});
      }
      Untracked(es, name);
    }
  }

  lemma {:induction false} TrackedFrom(es: seq<Event>, names: set<CString>)
    requires forall i :: 0 <= i < |es| && es[i].Started? ==> es[i].name in names
    ensures forall n :: n in Tracked(es) ==> n in names
  {
    if es != [] { TrackedFrom(es[..|es| - 1], names); }
  }

  lemma {:induction false} DistinctFit(ns: seq<CString>, names: set<CString>)
    requires forall n :: n in ns ==> n in names
    requires forall i, j :: 0 <= i < j < |ns| ==> ns[i] != ns[j]
    ensures |ns| <= |names|
  {
    if ns != [] {
      DistinctFit(ns[1..], names - {ns[0]});
    }
  }

  // ----- Names that do not fit

  /** No slot ever carries a name longer than its buffer. */
  lemma {:induction false} StoredNamesFit(clock: Word, es: seq<Event>)
    ensures |Run(clock, es).timers| == MAX_TIMERS
    ensures forall i :: 0 <= i < MAX_TIMERS ==> |Run(clock, es).timers[i].name| <= NAME_LIMIT
  {
    if es != [] {
      StoredNamesFit(clock, es[..|es| - 1]);
    }
  }

  /** So a longer name reads zero after every run, whatever else the run does. */
  lemma LongNameReadsZero(clock: Word, es: seq<Event>, name: CString)
    requires |name| > NAME_LIMIT
    ensures Value(Run(clock, es), name) == 0
  {
    StoredNamesFit(clock, es);
  }

  /** The names beside `name` are good ones. */
  predicate GoodBeside(es: seq<Event>, name: CString) {
    forall i :: 0 <= i < |es| && !es[i].Logged? ==> es[i].name == name || GoodName(es[i].name)
  }

  /** Every run in which `name` has a slot measures it. */
  ghost predicate AlwaysMeasured(clock: Word, name: CString) {
    forall es :: GoodBeside(es, name) && name in Tracked(es) ==>
      Value(Run(clock, es), name) == Wrap(|MeasuredCalls(es, name)|)
  }

  /** A name is measured in all runs exactly when it is neither empty nor longer than its buffer: a
      longer one is stored cut and compared in full, and the empty one marks a free slot. */
  lemma MeasuredExactly(clock: Word, name: CString)
    ensures AlwaysMeasured(clock, name) <==> GoodName(name)
  {
    if GoodName(name) {
      forall es | GoodBeside(es, name) && name in Tracked(es)
        ensures Value(Run(clock, es), name) == Wrap(|MeasuredCalls(es, name)|)
      {
        ValueIsMeasured(clock, es, name);
      }
    } else if |name| > NAME_LIMIT {
      var es := [Started(name), Logged, Ended(name)];
      OneCall(name);
      LongNameReadsZero(clock, es, name);
      assert GoodBeside(es, name);
    } else {
      var es := [Started(""), Logged, Started("a"), Ended("")];
      EmptyNameLost(clock, "a");
      assert GoodBeside(es, name);
    }
  }

  /** All names of a set are measured in all runs that use only them. */
  ghost predicate AllMeasured(clock: Word, names: set<CString>) {
    forall es, name :: Uses(es, names) && name in Tracked(es) ==>
      Value(Run(clock, es), name) == Wrap(|MeasuredCalls(es, name)|)
  }

  predicate Uses(es: seq<Event>, names: set<CString>) {
    forall i :: 0 <= i < |es| && !es[i].Logged? ==> es[i].name in names
  }

  /** Names in use together, a good one among them, are all measured in all runs exactly when all are
      good: the empty name harms the others too. */
  lemma AllMeasuredExactly(clock: Word, names: set<CString>, good: CString)
    requires good in names && GoodName(good)
    ensures AllMeasured(clock, names) <==> forall n :: n in names ==> GoodName(n)
  {
    if bad :| bad in names && !GoodName(bad) {
      if bad == "" {
        EmptyNameLost(clock, good);
        assert Uses([Started(""), Logged, Started(good), Ended("")], names);
      } else {
        OneCall(bad);
        LongNameReadsZero(clock, [Started(bad), Logged, Ended(bad)], bad);
        assert Uses([Started(bad), Logged, Ended(bad)], names);
      }
    } else {
      forall es, name | Uses(es, names) && name in Tracked(es)
        ensures Value(Run(clock, es), name) == Wrap(|MeasuredCalls(es, name)|)
      {
        TrackedUses(es, names, name);
        ValueIsMeasured(clock, es, name);
      }
    }
  }

  lemma {:induction false} TrackedUses(es: seq<Event>, names: set<CString>, name: CString)
    requires Uses(es, names) && name in Tracked(es)
    ensures name in names
  {
    if es != [] {
      var before := es[..|es| - 1];
      if name in Tracked(before) {
        TrackedUses(before, names, name);
      }
    }
  }

  /** A start under another name takes the slot of the empty name, running or not: the log call of its
      interval is lost. */
  lemma EmptyNameLost(clock: Word, good: CString)
    requires GoodName(good)
    ensures var es := [Started(""), Logged, Started(good), Ended("")];
      && "" in Tracked(es) && Value(Run(clock, es), "") == 0 && |MeasuredCalls(es, "")| == 1
  {
    var es := [Started(""), Logged, Started(good), Ended("")];
    Prefixes(es);
    var b := Run(clock, es[..2]);
    EmptyStarted(clock, es);
    var c := Step(b, Started(good));
    assert Startable(b.timers[0], good) && StartSlot(b, good) == 0;
    assert c.timers[0] == Timer(good, b.clock, 0, true);
    assert EndSlot(c, "") == -1;
    assert Named(c.timers[1], "") && NameSlot(c, "") == 1;
    OneCallOf(es, "", 3);
  }

  /** ... and what that slot had measured is taken over by the other name. */
  lemma EmptyNameInherited(clock: Word, good: CString)
    requires GoodName(good)
    ensures var es := [Started(""), Logged, Ended(""), Started(good)];
      && good in Tracked(es) && Value(Run(clock, es), good) == 1 && MeasuredCalls(es, good) == {}
  {
    var es := [Started(""), Logged, Ended(""), Started(good)];
    Prefixes(es);
    var b := Run(clock, es[..2]);
    EmptyStarted(clock, es);
    var c := Step(b, Ended(""));
    assert Endable(b.timers[0], "") && EndSlot(b, "") == 0;
    OneLater(clock, clock, 0);
    assert c.timers[0] == Timer("", clock, 1, false);
    var d := Step(c, Started(good));
    assert Startable(c.timers[0], good) && StartSlot(c, good) == 0;
    assert Named(d.timers[0], good) && NameSlot(d, good) == 0;
  }

  /** Slot 0 after the empty name was started and one message logged. */
  lemma EmptyStarted(clock: Word, es: seq<Event>)
    requires |es| == 4 && es[0] == Started("") && es[1] == Logged
    ensures Run(clock, es[..2]) == Bank(Cleared(clock).timers[0 := Timer("", clock, 0, true)], Wrap(clock + 1))
    ensures Tracked(es[..2]) == [""]
  {
    Prefixes(es);
    var b := Cleared(clock);
    assert Startable(b.timers[0], "") && StartSlot(b, "") == 0;
    assert Run(clock, es[..1]) == Step(b, es[0]);
    assert Tracked(es[..1][..0]) == [] && Tracked(es[..1]) == [""];
  }

  lemma Prefixes(es: seq<Event>)
    requires |es| == 4
    ensures es[..4] == es && es[..4][..3] == es[..3] && es[..3][..2] == es[..2] && es[..2][..1] == es[..1] && es[..1][..0] == []
  {
  }

  /** One log call between a start and an end. */
  lemma OneCall(name: CString)
    ensures var es := [Started(name), Logged, Ended(name)];
      name in Tracked(es) && |MeasuredCalls(es, name)| == 1
  {
    var es := [Started(name), Logged, Ended(name)];
    OneCallOf(es, name, 2);
    assert es[..2] == [Started(name), Logged] && es[..2][..1] == [Started(name)] && [Started(name)][..0] == [];
    assert Tracked([]) == [] && Tracked([Started(name)]) == [name] && Tracked(es[..2]) == [name];
  }

  lemma OneCallOf(es: seq<Event>, name: CString, end: nat)
    requires 2 <= end < |es| && es[0] == Started(name) && es[1] == Logged && es[end] == Ended(name)
    requires forall k :: 2 <= k < |es| && k != end ==> es[k] != Logged && !Concerns(es[k], name)
    ensures |MeasuredCalls(es, name)| == 1
  {
    assert IsInterval(es, name, 0, end);
    forall k ensures k in MeasuredCalls(es, name) <==> k == 1 {
      assert k == 1 ==> 0 < k < end && Measured(es, name, k);
    }
    assert MeasuredCalls(es, name) == {1};
  }
}
