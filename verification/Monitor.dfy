/** The monitoring subsystem's memory (`kernel/monitor.c`): the log ring and the timers on one clock. */
module Monitor {
  import opened Bits
  import opened Common
  import opened CStrings
  import LogRing
  import Timers

  const LEVEL_INFO: Byte := 1
  const SOURCE_KERNEL: Byte := 0

  class SystemMonitor {
    const logBuffer: array<LogRing.Entry>
    const timers: array<Timers.Timer>
    var logIndex: nat
    var logCount: nat
    var timestampCounter: Word

    ghost predicate Valid()
      reads this
    {
      && logBuffer.Length == LogRing.LOG_BUFFER_SIZE && timers.Length == Timers.MAX_TIMERS
      && logIndex < LogRing.LOG_BUFFER_SIZE && logCount <= LogRing.LOG_BUFFER_SIZE
    }

    ghost function Log(): LogRing.Log
      reads this, logBuffer
    {
      LogRing.Log(logBuffer[..], logIndex, logCount, timestampCounter)
    }

    ghost function Bank(): Timers.Bank
      reads this, timers
    {
      Timers.Bank(timers[..], timestampCounter)
    }

    constructor ()
      ensures Valid() && fresh(logBuffer) && fresh(timers)
      ensures Log() == LogRing.Cleared(0) && Bank() == Timers.Cleared(0)
    {
      logBuffer := new LogRing.Entry[LogRing.LOG_BUFFER_SIZE](_ => LogRing.BLANK);
      timers := new Timers.Timer[Timers.MAX_TIMERS](_ => Timers.UNUSED);
      logIndex, logCount, timestampCounter := 0, 0, 0;
    }

    /** `monitor_init`: everything is cleared but the clock, and the first message is logged. */
    method Init()
      requires Valid()
      modifies this, logBuffer, timers
      ensures Valid()
      ensures Log() == LogRing.Run(old(timestampCounter), [LogRing.Call(LEVEL_INFO, SOURCE_KERNEL, "Monitoring system initialized")])
      ensures Bank() == Timers.Run(old(timestampCounter), [Timers.Logged])
    {
      for i := 0 to LogRing.LOG_BUFFER_SIZE
        invariant Valid() && timestampCounter == old(timestampCounter)
        invariant forall k :: 0 <= k < i ==> logBuffer[k] == LogRing.BLANK
      {
        logBuffer[i] := LogRing.BLANK;
      }
      logIndex, logCount := 0, 0;
      for i := 0 to Timers.MAX_TIMERS
        invariant Valid() && logIndex == logCount == 0 && timestampCounter == old(timestampCounter)
        invariant logBuffer[..] == LogRing.Cleared(0).buffer
        invariant forall k :: 0 <= k < i ==> timers[k] == Timers.UNUSED
      {
        timers[i] := Timers.UNUSED;
      }
      ghost var call := LogRing.Call(LEVEL_INFO, SOURCE_KERNEL, "Monitoring system initialized");
      assert Log() == LogRing.Cleared(timestampCounter) && Bank() == Timers.Cleared(timestampCounter);
      assert [call][..0] == [] && [Timers.Logged][..0] == [];
      LogMessage(LEVEL_INFO, SOURCE_KERNEL, "Monitoring system initialized");
    }

    /** `monitor_log`. */
    method LogMessage(level: Byte, source: Byte, message: CString)
      requires Valid()
      modifies `logIndex, `logCount, `timestampCounter, logBuffer
      ensures Valid() && Log() == LogRing.Record(old(Log()), LogRing.Call(level, source, message))
      ensures Bank() == Timers.Step(old(Bank()), Timers.Logged)
    {
      timestampCounter := Wrap(timestampCounter + 1);
      var msgLen := |message|;
      if msgLen > LogRing.MESSAGE_LIMIT {
        msgLen := LogRing.MESSAGE_LIMIT;
      }
      logBuffer[logIndex] := LogRing.Entry(timestampCounter, level, source, msgLen, message[..msgLen]);
      logIndex := (logIndex + 1) % LogRing.LOG_BUFFER_SIZE;
      if logCount < LogRing.LOG_BUFFER_SIZE {
        logCount := logCount + 1;
      }
      assert message[..|message|] == message;
    }

    method GetLogEntry(index: Word) returns (entry: Option<LogRing.Entry>)
      requires Valid()
      ensures entry == if index >= logCount then None else Some(logBuffer[LogRing.Slot(Log(), index)])
    {
      if index >= logCount {
        return None;
      }
      var actualIndex := Wrap(logIndex - logCount + index) % LogRing.LOG_BUFFER_SIZE;
      return Some(logBuffer[actualIndex]);
    }

    method StartTimer(name: CString)
      requires Valid()
      modifies timers
      ensures Bank() == Timers.Step(old(Bank()), Timers.Started(name))
    {
      ghost var b := Bank();
      for i := 0 to Timers.MAX_TIMERS
        invariant Bank() == b && forall k :: 0 <= k < i ==> !Timers.Startable(b.timers[k], name)
      {
        if timers[i].name == "" || timers[i].name == name {
          assert Timers.Startable(b.timers[i], name) && Timers.StartSlot(b, name) == i;
          timers[i] := Timers.Timer(Truncate(name, Timers.NAME_LIMIT), timestampCounter, timers[i].total, true);
          return;
        }
      }
      assert Timers.StartSlot(b, name) == -1;
    }

    method EndTimer(name: CString)
      requires Valid()
      modifies timers
      ensures Bank() == Timers.Step(old(Bank()), Timers.Ended(name))
    {
      ghost var b := Bank();
      for i := 0 to Timers.MAX_TIMERS
        invariant Bank() == b && forall k :: 0 <= k < i ==> !Timers.Endable(b.timers[k], name)
      {
        if timers[i].active && timers[i].name == name {
          assert Timers.Endable(b.timers[i], name) && Timers.EndSlot(b, name) == i;
          var elapsed := Wrap(timestampCounter - timers[i].start);
          timers[i] := timers[i].(total := Wrap(timers[i].total + elapsed), active := false);
          return;
        }
      }
      assert Timers.EndSlot(b, name) == -1;
    }

    method GetTimerValue(name: CString) returns (v: Word)
      requires Valid()
      ensures v == Timers.Value(Bank(), name)
    {
      for i := 0 to Timers.MAX_TIMERS
        invariant forall k :: 0 <= k < i ==> !Timers.Named(Bank().timers[k], name)
      {
        if timers[i].name == name {
          assert Timers.Named(Bank().timers[i], name) && Timers.NameSlot(Bank(), name) == i;
          return timers[i].total;
        }
      }
      assert Timers.NameSlot(Bank(), name) == -1;
      return 0;
    }
  }
}
