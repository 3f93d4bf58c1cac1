/**
 The calls of one session of the daemon as runs of `HistoryRuns`: what main.c asks of
 crashlog/history.c, on the class of `HistoryLog`.
 */
module HistorySession {
  import opened Text
  import opened HistoryEntry
  import opened HistoryModel
  import opened HistoryBoot
  import opened HistoryLog
  import opened HistoryRuns
  import DeleteCommand

  datatype Call =
    | NewEvent(entry: Entry, now: nat)
    | UptimeTick(now: nat, freq: nat, again: nat, key: string, time: string)
    | HasEvent(dir: string, now: nat)
    | ResetCache(now: nat)
    | ResetHistory(now: nat)
    | AfterBoot(date: string, previous: string)
    | DeleteKeys(keys: string)

  predicate CallOk(call: Call) {
    match call
    case NewEvent(entry, now) => Complete(entry) && GoodLine(HistoryLine(entry)) && ClockOk(now)
    case UptimeTick(now, freq, again, key, time) =>
      ClockOk(now) && ClockOk(again) && freq > 0 && GoodLine(HistoryLine(UptimeEntry(again, key, time)))
    case HasEvent(_, now) => ClockOk(now)
    case ResetCache(now) => ClockOk(now)
    case ResetHistory(now) => ClockOk(now)
    case AfterBoot(date, previous) => DateOk(date) && UptimeOk(previous)
    case DeleteKeys(keys) => |DeleteCommand.Patterns(Some(keys))| <= DeleteCommand.MAXPATTERNS
  }

  /** The operations that a call amounts to; `hasFile` and `loop` say whether there is a history
      file, and in which period the next uptime event is due. */
  function OpsOf(call: Call, hasFile: bool, loop: int): seq<Op>
    requires CallOk(call)
  {
    match call
    case NewEvent(entry, now) => [Add(HistoryLine(entry), now)]
    case UptimeTick(now, freq, again, key, time) =>
      if !hasFile then []
      else if now / 3600 / freq >= loop then [Tick(now), Add(HistoryLine(UptimeEntry(again, key, time)), again)]
      else [Tick(now)]
    case HasEvent(_, now) => [Query(now)]
    case ResetCache(now) => [Reload(now)]
    case ResetHistory(now) => [ResetUp(now)]
    case AfterBoot(date, previous) => [BootEvent(date, previous)]
    case DeleteKeys(keys) => [Erase(DeleteCommand.Patterns(Some(keys)))]
  }

  lemma {:induction false} RunOne(log: Log, op: Op, n: nat)
    ensures Run(log, [op], n) == Step(log, op, n)
  {
    assert [op][..0] == [];
  }

  lemma {:induction false} RunTwo(log: Log, a: Op, b: Op, n: nat)
    ensures Run(log, [a, b], n) == Step(Step(log, a, n), b, n)
  {
    assert [a, b][..1] == [a];
    RunOne(log, a, n);
  }

  /** A command without keys marks nothing. */
  lemma {:induction false} NothingMarked(log: Log)
    ensures Delete(log, []) == log
  {
    if log.file.Some? {
      assert MarkAll(log.file.value, []) == log.file.value;
    }
  }

  /** A call does what its operations do: the theorems about runs are about this class. */
  method Perform(history: History, call: Call)
    requires history.Valid() && CallOk(call)
    modifies history, history.cache
    ensures history.Valid()
    ensures history.State() == Run(old(history.State()), OpsOf(call, old(history.file).Some?,
                                                               old(history.loop_uptime_event)), history.maxrecords)
  {
    hide Update, Stamp, Cache, Cached, ResetUptime, Boot, HistoryLine;
    ghost var log, n, loop := history.State(), history.maxrecords, history.loop_uptime_event;
    ghost var ops := OpsOf(call, history.file.Some?, loop);
    if |ops| == 1 {
      RunOne(log, ops[0], n);
      assert ops == [ops[0]];
    } else if |ops| == 2 {
      RunTwo(log, ops[0], ops[1], n);
      assert ops == [ops[0], ops[1]];
    }
    var res;
    match call
    case NewEvent(entry, now) =>
      res := history.UpdateHistoryFile(Some(entry), now);
    case UptimeTick(now, freq, again, key, time) =>
      res := history.StampAndRaise(now, freq, again, key, time);
    case HasEvent(dir, now) =>
      res := history.HistoryHasEvent(Some(dir), now);
    case ResetCache(now) =>
      res := history.ResetHistoryCache(now);
    case ResetHistory(now) =>
      res := history.ResetUptimeHistory(now);
    case AfterBoot(date, previous) =>
      var uptime;
      res, uptime := history.UptimeHistory(date, previous);
    case DeleteKeys(keys) =>
      NothingMarked(log);
      var dirs;
      res, dirs := history.UpdateHistoryOnCmdDelete(Some(keys));
  }
}
