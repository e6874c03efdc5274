/** The process table and its round-robin scheduler (`kernel/process.c`). */
module Scheduler {
  import opened Bits
  import opened Common
  import opened CStrings

  const MAX_PROCESSES := 8
  const NAME_LIMIT := 31

  datatype State = Empty | Running | Ready | Blocked | Zombie

  datatype Process = Process(pid: int, name: CString, state: State, priority: Word, runtime: Word)

  /** The table as a value: the slots, the bound of the slots ever used, the dispatched slot. */
  datatype Table = Table(slots: seq<Process>, nextPid: nat, current: nat)

  ghost predicate Valid(t: Table) {
    && |t.slots| == MAX_PROCESSES
    && t.current < t.nextPid <= MAX_PROCESSES
    && (forall i :: 0 <= i < MAX_PROCESSES ==> (t.slots[i].state == Empty <==> i >= t.nextPid))
    && (forall i :: 0 <= i < t.nextPid ==> t.slots[i].pid == i)
    && (forall i :: 0 <= i < MAX_PROCESSES && t.slots[i].state == Running ==> i == t.current)
  }

  const UNUSED := Process(0, "", Empty, 0, 0)

  /** The table `process_init` leaves: the kernel runs in slot 0. */
  function Boot(): Table {
    Table(seq(MAX_PROCESSES, i => UNUSED)[0 := Process(0, "kernel", Running, 1, 0)], 1, 0)
  }

  lemma BootMeaning(i: int)
    requires 0 <= i < MAX_PROCESSES
    ensures Boot().nextPid == 1 && Boot().current == 0 && |Boot().slots| == 8
    ensures i == 0 ==> Boot().slots[i] == Process(0, "kernel", Running, 1, 0)
    ensures i > 0 ==> Boot().slots[i].state == Empty
  {
  }

  ghost predicate IsReady(t: Table, i: int) {
    0 <= i < |t.slots| && t.slots[i].state == Ready
  }

  // ----- What each call does to the table

  function WithState(t: Table, i: nat, s: State): Table
    requires i < |t.slots|
  {
    t.(slots := t.slots[i := t.slots[i].(state := s)])
  }

  /** How far round the table slot `p` lies behind slot `c`, in 1..8; a slot is a full turn from itself. */
  function Distance(c: int, p: int): int {
    if p > c then p - c else p - c + MAX_PROCESSES
  }

  /** `n` is the ready slot met first when walking round the table from the current slot. */
  ghost predicate IsNext(t: Table, n: int) {
    IsReady(t, n) && forall q :: IsReady(t, q) ==> Distance(t.current, n) <= Distance(t.current, q)
  }

  /** The charged and preempted current process. */
  function Preempt(t: Table): Table
    requires t.current < |t.slots|
  {
    var p := t.slots[t.current];
    var s := if p.state == Running then Ready else p.state;
    t.(slots := t.slots[t.current := p.(runtime := Wrap(p.runtime + 1), state := s)])
  }

  ghost function Dispatch(t: Table): Table {
    if exists n :: IsNext(t, n) then
      var n :| IsNext(t, n);
      WithState(t, n, Running).(current := n)
    else t
  }

  ghost function Schedule(t: Table): Table
    requires t.current < |t.slots|
  {
    if t.nextPid <= 1 then t else Dispatch(Preempt(t))
  }

  predicate Reusable(s: State) {
    s == Empty || s == Zombie
  }

  /** The lowest reusable slot, or -1. */
  function FirstReusable(slots: seq<Process>): (r: int)
    ensures -1 <= r < |slots|
    ensures r == -1 <==> forall k :: 0 <= k < |slots| ==> !Reusable(slots[k].state)
    ensures r != -1 ==> Reusable(slots[r].state) && forall k :: 0 <= k < r ==> !Reusable(slots[k].state)
  {
    First(slots, (p: Process) => Reusable(p.state))
  }

  function Fresh(pid: int, name: CString): Process {
    Process(pid, Truncate(name, NAME_LIMIT), Ready, 1, 0)
  }

  function Create(t: Table, name: CString): Table {
    var i := FirstReusable(t.slots);
    if i == -1 then t
    else Table(t.slots[i := Fresh(i, name)], if i >= t.nextPid then i + 1 else t.nextPid, t.current)
  }

  ghost function Exit(t: Table): Table
    requires t.current < |t.slots|
  {
    Schedule(WithState(t, t.current, Zombie))
  }

  // ----- Choosing the next process

  lemma NextUnique(t: Table, m: int, n: int)
    requires |t.slots| == MAX_PROCESSES && IsNext(t, m) && IsNext(t, n)
    ensures m == n
  {
  }

  /** Walking round the table finds a ready slot whenever there is one. */
  lemma {:induction false} NextExists(t: Table, q: int)
    requires |t.slots| == MAX_PROCESSES && t.current < MAX_PROCESSES && IsReady(t, q)
    ensures exists n :: IsNext(t, n)
    decreases Distance(t.current, q)
  {
    if !IsNext(t, q) {
      var r :| IsReady(t, r) && Distance(t.current, r) < Distance(t.current, q);
      NextExists(t, r);
    }
  }

  lemma DispatchIs(t: Table, n: int)
    requires |t.slots| == MAX_PROCESSES && IsNext(t, n)
    ensures Dispatch(t) == WithState(t, n, Running).(current := n)
  {
    var m :| IsNext(t, m) && Dispatch(t) == WithState(t, m, Running).(current := m);
    NextUnique(t, m, n);
  }

  /** The number of the probe that visits slot `q`, starting behind slot `c` of `m`. */
  function Probe(c: int, q: int, m: int): int {
    if q > c then q - c else q - c + m
  }

  /** Slot `next` is where probe `a` of the scan looks. */
  ghost predicate AtProbe(t: Table, a: int, next: int) {
    && 0 <= next < t.nextPid
    && (a < t.nextPid ==> next == if t.current + a < t.nextPid then t.current + a else t.current + a - t.nextPid)
  }

  ghost predicate ProbedInVain(t: Table, a: int) {
    forall q :: 0 <= q < t.nextPid && Probe(t.current, q, t.nextPid) <= a ==> !IsReady(t, q)
  }

  /** The scan meets the slots in the order of their distance round the whole table. */
  lemma ProbeStep(t: Table, a: nat, next: int)
    requires Valid(t) && AtProbe(t, a, next) && ProbedInVain(t, a)
    ensures var n := (next + 1) % t.nextPid;
      && AtProbe(t, a + 1, n)
      && (if IsReady(t, n) then IsNext(t, n) else ProbedInVain(t, a + 1))
  {
    NextProbe(next, t.nextPid);
  }

  lemma NothingReady(t: Table, a: nat)
    requires Valid(t) && ProbedInVain(t, a) && a >= MAX_PROCESSES
    ensures !IsReady(t, t.current) && Dispatch(t) == t
  {
    assert forall q :: !IsReady(t, q);
  }

  lemma NextProbe(x: nat, m: nat)
    requires x < m
    ensures (x + 1) % m == if x + 1 == m then 0 else x + 1
  {
    if x + 1 < m {
      RemainderIs(x + 1, m, 0, x + 1);
    }
  }

  // ----- Every call keeps the table well formed

  lemma PreemptKeepsValid(t: Table)
    requires Valid(t)
    ensures Valid(Preempt(t)) && forall i :: 0 <= i < MAX_PROCESSES ==> Preempt(t).slots[i].state != Running
  {
  }

  lemma DispatchKeepsValid(t: Table)
    requires Valid(t) && forall i :: 0 <= i < MAX_PROCESSES ==> t.slots[i].state != Running
    ensures Valid(Dispatch(t))
  {
    if n :| IsNext(t, n) {
      DispatchIs(t, n);
    }
  }

  lemma ScheduleKeepsValid(t: Table)
    requires Valid(t)
    ensures Valid(Schedule(t))
  {
    if t.nextPid > 1 {
      PreemptKeepsValid(t);
      DispatchKeepsValid(Preempt(t));
    }
  }

  lemma CreateKeepsValid(t: Table, name: CString)
    requires Valid(t)
    ensures Valid(Create(t, name))
  {
  }

  lemma ExitKeepsValid(t: Table)
    requires Valid(t)
    ensures Valid(Exit(t))
  {
    ScheduleKeepsValid(WithState(t, t.current, Zombie));
  }

  // ----- The kernel's table

  class ProcessTable {
    const processes: array<Process>
    var nextPid: nat
    var current: nat
    var currentPtr: int  // index behind `current_process_ptr`, -1 for NULL

    ghost predicate Consistent()
      reads this, processes
    {
      && processes.Length == MAX_PROCESSES
      && currentPtr == current
      && Valid(View())
    }

    ghost function View(): Table
      reads this, processes
    {
      Table(processes[..], nextPid, current)
    }

    constructor ()
      ensures Consistent() && fresh(processes)
      ensures View() == Boot()
    {
      var empty := UNUSED;
      processes := new Process[MAX_PROCESSES](_ => empty);
      new;
      for i := 0 to MAX_PROCESSES
        invariant forall k :: 0 <= k < MAX_PROCESSES ==> processes[k] == empty
      {
        processes[i] := processes[i].(state := Empty);
      }
      processes[0] := Process(0, Truncate("kernel", NAME_LIMIT), Running, 1, 0);
      nextPid, current, currentPtr := 1, 0, 0;
    }

    method ProcessCreate(name: CString) returns (pid: int)
      requires Consistent()
      modifies this, processes
      ensures Consistent() && View() == Create(old(View()), name)
      ensures pid == FirstReusable(old(processes[..]))
    {
      pid := -1;
      for i := 0 to MAX_PROCESSES
        invariant pid == -1
        invariant forall k :: 0 <= k < i ==> !Reusable(processes[k].state)
      {
        if processes[i].state == Empty || processes[i].state == Zombie {
          pid := i;
          break;
        }
      }
      assert pid == FirstReusable(processes[..]);
      if pid == -1 || pid >= MAX_PROCESSES {
        return -1;
      }
      if pid >= nextPid {
        nextPid := pid + 1;
      }
      processes[pid] := Process(pid, Truncate(name, NAME_LIMIT), Ready, 1, 0);
    }

    method ProcessExit()
      requires Consistent()
      modifies this, processes
      ensures Consistent() && View() == Exit(old(View()))
    {
      if currentPtr != -1 {
        processes[currentPtr] := processes[currentPtr].(state := Zombie);
      }
      ScheduleNext();
    }

    /** The do-while scan: at most eight probes from the slot after the current one. */
    method ScheduleNext()
      requires Consistent()
      modifies this, processes
      ensures Consistent() && View() == Schedule(old(View()))
    {
      ScheduleKeepsValid(View());
      if nextPid <= 1 {
        return;
      }
      PreemptKeepsValid(View());
      ChargeCurrent();
      ghost var t := View();

      var next := current;
      var attempts := 0;
      while true
        invariant 0 <= attempts < MAX_PROCESSES
        invariant View() == t && currentPtr == current
        invariant AtProbe(t, attempts, next) && ProbedInVain(t, attempts)
        decreases MAX_PROCESSES - attempts
      {
        ProbeStep(t, attempts, next);
        next := (next + 1) % nextPid;
        attempts := attempts + 1;
        if processes[next].state == Ready {
          DispatchIs(t, next);
          SwitchTo(next);
          return;
        }
        if attempts >= MAX_PROCESSES {
          break;
        }
      }
      NothingReady(t, attempts);
      StayWithCurrent();
      assert View() == t;
    }

    /** One more tick for the outgoing process, which becomes ready if it was running. */
    method ChargeCurrent()
      requires Consistent()
      modifies processes
      ensures View() == Preempt(old(View()))
    {
      if currentPtr != -1 {
        var p := processes[currentPtr];
        processes[currentPtr] := p.(runtime := Wrap(p.runtime + 1));
        if processes[currentPtr].state == Running {
          processes[currentPtr] := processes[currentPtr].(state := Ready);
        }
      }
    }

    method SwitchTo(next: nat)
      requires next < processes.Length
      modifies processes, `current, `currentPtr
      ensures currentPtr == current && View() == WithState(old(View()), next, Running).(current := next)
    {
      current := next;
      currentPtr := current;
      processes[currentPtr] := processes[currentPtr].(state := Running);
    }

    method StayWithCurrent()
      requires Consistent()
      modifies processes
      ensures View() == if old(processes[current].state) == Ready then WithState(old(View()), current, Running) else old(View())
    {
      if currentPtr != -1 && processes[currentPtr].state == Ready {
        processes[currentPtr] := processes[currentPtr].(state := Running);
      }
    }
  }

  // ----- What one `schedule` achieves

  /** Once there is a second process, exactly the current slot runs whenever anything can run. */
  lemma ExactlyOneRuns(t: Table, q: int)
    requires Valid(t) && t.nextPid > 1
    requires 0 <= q < MAX_PROCESSES && (t.slots[q].state == Ready || t.slots[q].state == Running)
    ensures var u := Schedule(t);
      forall i :: 0 <= i < MAX_PROCESSES ==> (u.slots[i].state == Running <==> i == u.current)
  {
    ScheduleKeepsValid(t);
    PreemptKeepsValid(t);
    var v := Preempt(t);
    assert IsReady(v, q);
    NextExists(v, q);
    var n :| IsNext(v, n);
    DispatchIs(v, n);
  }

  /** Only runnable processes are dispatched; a zombie stays one; only the outgoing process is charged. */
  lemma OnlyReadyDispatched(t: Table, i: int)
    requires Valid(t) && 0 <= i < MAX_PROCESSES
    ensures var p, q := t.slots[i], Schedule(t).slots[i];
      && (q.state == Running ==> p.state == Running || p.state == Ready)
      && (p.state == Zombie || p.state == Empty || p.state == Blocked ==> q.state == p.state)
      && q.pid == p.pid && q.name == p.name && q.priority == p.priority
      && q.runtime == (if t.nextPid > 1 && i == t.current then Wrap(p.runtime + 1) else p.runtime)
  {
    if n :| IsNext(Preempt(t), n) {
      DispatchIs(Preempt(t), n);
    }
  }

  /** Slot `i` can be dispatched by the next `schedule`: it is ready, or is the one running now. */
  predicate Runnable(t: Table, i: int) {
    0 <= i < |t.slots| && (t.slots[i].state == Ready || (i == t.current && t.slots[i].state == Running))
  }

  /** The dispatched slot is the first runnable one met when counting up from the current slot, round
      the end of the table and, last, back to the current slot itself. */
  lemma DispatchOrder(t: Table, q: int)
    requires Valid(t) && t.nextPid > 1 && Runnable(t, q)
    ensures var n := Schedule(t).current;
      && Runnable(t, n)
      && (n > t.current ==> forall i :: t.current < i < n ==> !Runnable(t, i))
      && (n <= t.current ==> forall i :: t.current < i < MAX_PROCESSES || 0 <= i < n ==> !Runnable(t, i))
  {
    var v := Preempt(t);
    assert IsReady(v, q);
    NextExists(v, q);
    var n :| IsNext(v, n);
    DispatchIs(v, n);
    assert forall i :: Runnable(t, i) ==> IsReady(v, i) && Distance(v.current, n) <= Distance(v.current, i);
  }

  /** After `schedule` the dispatched slot runs, the preempted one is ready, every other slot is as it was
      in all but the outgoing process's ticks; with nothing runnable nothing is dispatched, and while only
      one slot was ever used nothing happens at all. */
  lemma ScheduleMeaning(t: Table, i: int)
    requires Valid(t) && 0 <= i < MAX_PROCESSES
    ensures t.nextPid <= 1 ==> Schedule(t) == t
    ensures t.nextPid > 1 ==>
      var u, p, s := Schedule(t), Schedule(t).slots[i], t.slots[i];
      var ran := exists q :: Runnable(t, q);
      && u.nextPid == t.nextPid && (!ran ==> u.current == t.current)
      && p.pid == s.pid && p.name == s.name && p.priority == s.priority
      && p.runtime == (if i == t.current then (s.runtime + 1) % TWO_TO_32 else s.runtime)
      && p.state == (if ran && i == u.current then Running else if s.state == Running then Ready else s.state)
  {
    if t.nextPid > 1 {
      var v := Preempt(t);
      if q :| Runnable(t, q) {
        assert IsReady(v, q);
        NextExists(v, q);
        var n :| IsNext(v, n);
        DispatchIs(v, n);
      } else {
        assert forall n :: IsReady(v, n) ==> Runnable(t, n);
      }
    }
  }

  /** The distance is the number of steps up the table, modulo 8, a full turn for the slot itself. */
  lemma DistanceIs(c: nat, p: nat)
    requires c < MAX_PROCESSES && p < MAX_PROCESSES
    ensures 1 <= Distance(c, p) <= 8 && (c + Distance(c, p)) % 8 == p
  {
  }

  /** A create gives the new process the lowest slot that is empty or left by a zombie and touches no
      live one; it fails exactly when all eight are live. */
  lemma CreateTakesLowestFree(t: Table, name: CString, i: int)
    requires Valid(t) && 0 <= i < MAX_PROCESSES
    ensures t.slots[i].state != Empty && t.slots[i].state != Zombie ==> Create(t, name).slots[i] == t.slots[i]
    ensures ((t.slots[i].state == Empty || t.slots[i].state == Zombie)
             && forall k :: 0 <= k < i ==> t.slots[k].state != Empty && t.slots[k].state != Zombie) ==>
      var u := Create(t, name);
      && u.slots[i] == Process(i, Truncate(name, NAME_LIMIT), Ready, 1, 0)
      && u.current == t.current && u.nextPid == (if i < t.nextPid then t.nextPid else i + 1)
      && (forall j :: 0 <= j < MAX_PROCESSES && j != i ==> u.slots[j] == t.slots[j])
    ensures Create(t, name) == t <==>
      forall k :: 0 <= k < MAX_PROCESSES ==> t.slots[k].state != Empty && t.slots[k].state != Zombie
  {
    assert forall k :: 0 <= k < MAX_PROCESSES ==>
      (Reusable(t.slots[k].state) <==> t.slots[k].state == Empty || t.slots[k].state == Zombie);
  }

  /** After an exit the slot that ran is a zombie, whatever is dispatched. */
  lemma ExitLeavesZombie(t: Table)
    requires Valid(t)
    ensures Exit(t).slots[t.current] == t.slots[t.current].(state := Zombie, runtime := Exit(t).slots[t.current].runtime)
    ensures forall i :: 0 <= i < MAX_PROCESSES && i != t.current ==>
      Exit(t).slots[i] == t.slots[i].(state := Exit(t).slots[i].state)
    ensures Exit(t).current == t.current ==> forall i :: 0 <= i < MAX_PROCESSES ==> Exit(t).slots[i].state != Running
  {
    var z := WithState(t, t.current, Zombie);
    var v := Preempt(z);
    if n :| IsNext(v, n) {
      DispatchIs(v, n);
    }
  }

  // ----- Runs: any interleaving of the three calls

  datatype Event = Created(name: CString) | Exited | Scheduled

  ghost function Step(t: Table, e: Event): (u: Table)
    requires Valid(t)
    ensures Valid(u)
  {
    match e
    case Created(name) => CreateKeepsValid(t, name); Create(t, name)
    case Exited => ExitKeepsValid(t); Exit(t)
    case Scheduled => ScheduleKeepsValid(t); Schedule(t)
  }

  ghost function Run(t: Table, es: seq<Event>): (u: Table)
    requires Valid(t)
    ensures Valid(u)
    decreases es
  {
    if es == [] then t else Run(Step(t, es[0]), es[1..])
  }

  /** How often a run hands the processor on: `schedule`, or the one inside `process_exit`. */
  function Turns(es: seq<Event>): nat {
    if es == [] then 0 else (if es[0].Created? then 0 else 1) + Turns(es[1..])
  }

  ghost predicate Runs(t: Table, p: int) {
    p == t.current && t.current < |t.slots| && t.slots[p].state == Running
  }

  /** Slot `p` still waits as the same process. */
  ghost predicate Waits(t: Table, p: int) {
    IsReady(t, p) && p != t.current
  }

  /** One turn dispatches a waiting process or brings it strictly nearer. */
  lemma TurnAdvances(t: Table, p: int, e: Event)
    requires Valid(t) && Waits(t, p) && !e.Created?
    ensures var u := Step(t, e);
      && u.slots[p] == t.slots[p].(state := u.slots[p].state)
      && (Runs(u, p) || (Waits(u, p) && Distance(u.current, p) < Distance(t.current, p)))
  {
    var s := if e.Exited? then WithState(t, t.current, Zombie) else t;
    var v := Preempt(s);
    assert IsReady(v, p);
    NextExists(v, p);
    var n :| IsNext(v, n);
    DispatchIs(v, n);
  }

  /** The run never creates a process while slot `i` is the lowest one free. */
  ghost predicate NotTaken(t: Table, es: seq<Event>, i: int)
    requires Valid(t)
    decreases es
  {
    es == [] || (
      && (es[0].Created? ==> exists k :: 0 <= k < i && IsFree(t, k))
      && NotTaken(Step(t, es[0]), es[1..], i))
  }

  predicate IsFree(t: Table, k: int) {
    0 <= k < |t.slots| && (t.slots[k].state == Empty || t.slots[k].state == Zombie)
  }

  /** A zombie stays one, as the process it was, through every run, and never runs, until a create takes
      its slot. */
  lemma {:induction false} ZombieStays(t: Table, es: seq<Event>, i: int)
    requires Valid(t) && 0 <= i < MAX_PROCESSES && t.slots[i].state == Zombie && NotTaken(t, es, i)
    ensures var p, q := t.slots[i], Run(t, es).slots[i];
      q.state == Zombie && q.pid == p.pid && q.name == p.name && q.priority == p.priority
    decreases es
  {
    if es != [] {
      ZombieStep(t, es[0], i);
      ZombieStays(Step(t, es[0]), es[1..], i);
    }
  }

  lemma ZombieStep(t: Table, e: Event, i: int)
    requires Valid(t) && 0 <= i < MAX_PROCESSES && t.slots[i].state == Zombie
    requires e.Created? ==> exists k :: 0 <= k < i && IsFree(t, k)
    ensures var p, q := t.slots[i], Step(t, e).slots[i];
      q.state == Zombie && q.pid == p.pid && q.name == p.name && q.priority == p.priority
  {
    match e
    case Created(name) =>
      assert FirstReusable(t.slots) != i;
    case Exited =>
      ExitKeepsValid(t);
      OnlyReadyDispatched(WithState(t, t.current, Zombie), i);
    case Scheduled => OnlyReadyDispatched(t, i);
  }

  /** The turns of a run are its events that are not creates. */
  lemma {:induction false} TurnsSnoc(es: seq<Event>, e: Event)
    ensures Turns([]) == 0
    ensures Turns(es + [e]) == if e.Created? then Turns(es) else Turns(es) + 1
  {
    if es == [] {
      assert [e][1..] == [] && es + [e] == [e];
    } else {
      assert (es + [e])[0] == es[0] && (es + [e])[1..] == es[1..] + [e];
      TurnsSnoc(es[1..], e);
    }
  }

  /** Bounded waiting: in every run of creates, exits and schedules, a process that is ready behind the
      current one is dispatched, untouched, by the turn whose number is its distance, at most the seventh. */
  lemma {:induction false} BoundedWaiting(t: Table, p: int, es: seq<Event>) returns (k: nat)
    requires Valid(t) && Waits(t, p)
    requires Turns(es) >= Distance(t.current, p)
    ensures Distance(t.current, p) < MAX_PROCESSES
    ensures k <= |es| && Turns(es[..k]) <= Distance(t.current, p)
    ensures Runs(Run(t, es[..k]), p)
    ensures Run(t, es[..k]).slots[p] == t.slots[p].(state := Running)
    decreases |es|
  {
    var u := Step(t, es[0]);
    if es[0].Created? {
      CreateKeepsWaiting(t, p, es[0].name);
    } else {
      TurnAdvances(t, p, es[0]);
    }
    if Runs(u, p) {
      k := 1;
      RunOne(t, es);
    } else {
      var j := BoundedWaiting(u, p, es[1..]);
      k := j + 1;
      RunMore(t, es, j);
    }
  }

  lemma CreateKeepsWaiting(t: Table, p: int, name: CString)
    requires Valid(t) && Waits(t, p)
    ensures var u := Create(t, name); Waits(u, p) && u.slots[p] == t.slots[p] && u.current == t.current
  {
  }

  lemma RunOne(t: Table, es: seq<Event>)
    requires Valid(t) && es != []
    ensures Run(t, es[..1]) == Step(t, es[0])
    ensures Turns(es[..1]) == if es[0].Created? then 0 else 1
  {
    assert es[..1][1..] == [];
  }

  lemma RunMore(t: Table, es: seq<Event>, j: nat)
    requires Valid(t) && es != [] && j < |es|
    ensures Run(t, es[..j + 1]) == Run(Step(t, es[0]), es[1..][..j])
    ensures Turns(es[..j + 1]) == (if es[0].Created? then 0 else 1) + Turns(es[1..][..j])
  {
    assert es[..j + 1][1..] == es[1..][..j];
  }

  function Schedules(n: nat): seq<Event> {
    seq(n, i => Scheduled)
  }

  lemma {:induction false} TurnsOfSchedules(n: nat)
    ensures Turns(Schedules(n)) == n
  {
    if n > 0 {
      assert Schedules(n)[1..] == Schedules(n - 1);
      TurnsOfSchedules(n - 1);
    }
  }

  /** A ready process is ever dispatched by repeated `schedule` calls exactly when a second slot has
      been used: with the table at one slot, `schedule` returns before it looks. */
  lemma ReadyRunsExactly(t: Table, p: int)
    requires Valid(t) && IsReady(t, p)
    ensures t.nextPid > 1 <==> exists k: nat :: k <= MAX_PROCESSES && Runs(Run(t, Schedules(k)), p)
  {
    if t.nextPid <= 1 {
      forall k: nat ensures !Runs(Run(t, Schedules(k)), p) {
        NothingMoves(t, k);
      }
    } else {
      var k := 0;
      if p != t.current {
        TurnsOfSchedules(MAX_PROCESSES);
        k := BoundedWaiting(t, p, Schedules(MAX_PROCESSES));
        assert Schedules(MAX_PROCESSES)[..k] == Schedules(k);
      } else {
        k := CurrentReadyRuns(t);
      }
      assert Runs(Run(t, Schedules(k)), p);
    }
  }

  lemma {:induction false} NothingMoves(t: Table, k: nat)
    requires Valid(t) && t.nextPid <= 1
    ensures Run(t, Schedules(k)) == t
  {
    if k > 0 {
      assert Schedules(k)[1..] == Schedules(k - 1);
      NothingMoves(t, k - 1);
    }
  }

  lemma CurrentReadyRuns(t: Table) returns (k: nat)
    requires Valid(t) && t.nextPid > 1 && IsReady(t, t.current)
    ensures k <= MAX_PROCESSES && Runs(Run(t, Schedules(k)), t.current)
  {
    var p, u := t.current, Schedule(t);
    ExactlyOneRuns(t, p);
    OnlyReadyDispatched(t, p);
    var v := Preempt(t);
    assert IsReady(v, p);
    NextExists(v, p);
    var n :| IsNext(v, n);
    DispatchIs(v, n);
    var m := 0;
    if u.current != p {
      TurnsOfSchedules(MAX_PROCESSES - 1);
      m := BoundedWaiting(u, p, Schedules(MAX_PROCESSES - 1));
      assert Schedules(MAX_PROCESSES - 1)[..m] == Schedules(m);
    }
    k := m + 1;
    assert Schedules(k)[1..] == Schedules(m);
  }

  /** Such a table is reachable: the kernel exits and its slot is given to a new process. */
  lemma StarvedAfterKernelExit(name: CString)
    ensures Valid(Boot())
    ensures var t := Run(Boot(), [Exited, Created(name)]);
      IsReady(t, 0) && t.nextPid == 1 && t.slots[0].name == Truncate(name, NAME_LIMIT)
  {
    var z := WithState(Boot(), 0, Zombie);
    assert Exit(Boot()) == z;
    var es := [Exited, Created(name)];
    assert es[1..] == [Created(name)] && es[1..][1..] == [];
    assert Run(z, es[1..]) == Create(z, name);
  }
}
