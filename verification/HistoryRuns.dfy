/**
 Runs of the history operations, in any order: what the file and the cache hold after them.
 */
module HistoryRuns {
  import opened Text
  import opened HistoryEntry
  import opened HistoryModel
  import opened HistoryBoot
  import DeleteCommand

  datatype Op =
    | Add(line: string, now: nat)                   // update_history_file
    | Tick(now: nat)                                // the stamp of add_uptime_event
    | Query(now: nat)                               // history_has_event
    | Reload(now: nat)                              // reset_history_cache
    | ResetUp(now: nat)                             // reset_uptime_history
    | BootEvent(date: string, previous: string)     // uptime_history
    | Erase(patterns: seq<string>)                  // update_history_on_cmd_delete
    | Remove                                        // the file is removed by someone else
    | Restart                                       // the daemon starts again: its statics are lost

  predicate OpOk(op: Op) {
    match op
    case Add(line, now) => GoodLine(line) && ClockOk(now)
    case Tick(now) => ClockOk(now)
    case Query(now) => ClockOk(now)
    case Reload(now) => ClockOk(now)
    case ResetUp(now) => ClockOk(now)
    case BootEvent(date, previous) => DateOk(date) && UptimeOk(previous)
    case _ => true
  }

  function Step(log: Log, op: Op, n: nat): Log {
    match op
    case Add(line, now) => Update(log, line, now, n)
    case Tick(now) => Stamp(log, now)
    case Query(now) => Cached(log, now, n)
    case Reload(now) => Cache(log, now, n)
    case ResetUp(now) => ResetUptime(log, now, n)
    case BootEvent(date, previous) => Boot(log, date, previous)
    case Erase(patterns) => Delete(log, patterns)
    case Remove => log.(file := None)
    case Restart => log.(ring := None, saved := None)
  }

  function Run(log: Log, ops: seq<Op>, n: nat): Log {
    if ops == [] then log else Step(Run(log, ops[..|ops| - 1], n), ops[|ops| - 1], n)
  }

  predicate RunOk(ops: seq<Op>) {
    forall i :: 0 <= i < |ops| ==> OpOk(ops[i])
  }

  /** Boot events come before anything is cached. */
  predicate BootsFirst(log: Log, ops: seq<Op>, n: nat) {
    ops == [] ||
    (BootsFirst(log, ops[..|ops| - 1], n) &&
     (ops[|ops| - 1].BootEvent? ==> Run(log, ops[..|ops| - 1], n).ring.None?))
  }

  /** Operation `i` is the first one of a session of the daemon. */
  predicate Starts(log: Log, ops: seq<Op>, i: nat)
    requires i < |ops|
  {
    if i == 0 then log.ring.None? else ops[i - 1].Restart?
  }

  /** They do when each of them follows a start of the daemon. */
  lemma {:induction false} RestartsSuffice(log: Log, ops: seq<Op>, n: nat)
    requires forall i :: 0 <= i < |ops| && ops[i].BootEvent? ==> Starts(log, ops, i)
    ensures BootsFirst(log, ops, n)
  {
    if ops != [] {
      var before := ops[..|ops| - 1];
      forall i | 0 <= i < |before| && before[i].BootEvent?
        ensures Starts(log, before, i)
      {
        assert Starts(log, ops, i);
      }
      RestartsSuffice(log, before, n);
      if ops[|ops| - 1].BootEvent? {
        assert Starts(log, ops, |ops| - 1);
      }
    }
  }

  lemma {:induction false} StepWellFormed(log: Log, op: Op, n: nat)
    requires WellFormed(log, n) && OpOk(op)
    ensures WellFormed(Step(log, op, n), n)
  {
    match op
    case Add(line, now) => UpdateWellFormed(log, line, now, n);
    case Tick(now) => StampWellFormed(log, now, n);
    case Query(now) => CacheWellFormed(log, now, n);
    case Reload(now) => CacheWellFormed(log, now, n);
    case ResetUp(now) => ResetWellFormed(log, now, n);
    case BootEvent(date, previous) => BootWellFormed(log, date, previous, n);
    case Erase(patterns) => DeleteWellFormed(log, patterns, n);
    case Remove =>
    case Restart =>
  }

  lemma {:induction false} RunWellFormed(log: Log, ops: seq<Op>, n: nat)
    requires WellFormed(log, n) && RunOk(ops)
    ensures WellFormed(Run(log, ops, n), n)
  {
    if ops != [] {
      RunWellFormed(log, ops[..|ops| - 1], n);
      StepWellFormed(Run(log, ops[..|ops| - 1], n), ops[|ops| - 1], n);
    }
  }

  // ----- what the operations add -----

  function Added(log: Log, op: Op): seq<string> {
    match op
    case Add(line, _) => [line]
    case BootEvent(date, previous) => BootLines(log, date, previous)
    case _ => []
  }

  /** The lines added since the file was last removed. */
  function Replay(log: Log, start: seq<string>, ops: seq<Op>, n: nat): seq<string> {
    if ops == [] then start
    else if ops[|ops| - 1].Remove? then []
    else
      var before := ops[..|ops| - 1];
      Replay(log, start, before, n) + Added(Run(log, before, n), ops[|ops| - 1])
  }

  // ----- runs without deletions and uptime resets -----

  lemma {:induction false} StepInSync(log: Log, op: Op, n: nat)
    requires WellFormed(log, n) && InSync(log, n) && !op.ResetUp? && !op.Erase?
    requires op.BootEvent? ==> log.ring.None?
    ensures InSync(Step(log, op, n), n)
  {
    if op.Add? {
      UpdateInSync(log, op.line, op.now, n);
    } else if op.Tick? && log.file.Some? {
      assert Events(log.file.value[0 := Header(Uptime(op.now))]) == Events(log.file.value);
    }
  }

  lemma {:induction false} StepView(log: Log, op: Op, n: nat)
    requires WellFormed(log, n) && InSync(log, n) && n > 0 && OpOk(op) && !op.ResetUp? && !op.Erase?
    ensures View(Step(log, op, n), n) ==
            if op.Remove? then [] else LastN(View(log, n) + Added(log, op), n)
  {
    if op.Add? {
      UpdateView(log, op.line, op.now, n);
    } else if op.BootEvent? {
      BootView(log, op.date, op.previous, n);
    } else {
      assert View(log, n) + [] == View(log, n);
      if op.Tick? && log.file.Some? {
        assert Events(log.file.value[0 := Header(Uptime(op.now))]) == Events(log.file.value);
      }
    }
  }

  /** Over every run without deletions and uptime resets, through removals, reloads, restarts
      and boots, the cache stays in step with the file, and the file ends with the last n lines
      added. */
  lemma {:induction false} RunView(log: Log, ops: seq<Op>, n: nat)
    requires WellFormed(log, n) && InSync(log, n) && n > 0 && RunOk(ops) && BootsFirst(log, ops, n)
    requires forall i :: 0 <= i < |ops| ==> !ops[i].ResetUp? && !ops[i].Erase?
    ensures WellFormed(Run(log, ops, n), n) && InSync(Run(log, ops, n), n)
    ensures View(Run(log, ops, n), n) == LastN(Replay(log, View(log, n), ops, n), n)
  {
    if ops != [] {
      var before, op := ops[..|ops| - 1], ops[|ops| - 1];
      RunView(log, before, n);
      var l, past := Run(log, before, n), Replay(log, View(log, n), before, n);
      StepWellFormed(l, op, n);
      StepInSync(l, op, n);
      StepView(l, op, n);
      LastNAppend(past, Added(l, op), n);
    }
  }

  // ----- runs with uptime resets -----

  lemma {:induction false} StepRelated(log: Log, op: Op, n: nat)
    requires WellFormed(log, n) && Related(log) && !op.Erase? && (op.BootEvent? ==> log.ring.None?)
    ensures Related(Step(log, op, n))
  {
    match op
    case Add(line, now) => UpdateRelated(log, line, now, n);
    case Tick(now) => StampRelated(log, now);
    case Query(now) => CacheRelated(log, now, n);
    case Reload(now) => CacheRelated(log, now, n);
    case ResetUp(now) => assert Events(Step(log, op, n).file.value) == [];
    case _ =>
  }

  /** Over every run without deletions, uptime resets included, one of the file and the cache
      is the end of the other. */
  lemma {:induction false} RunRelated(log: Log, ops: seq<Op>, n: nat)
    requires WellFormed(log, n) && Related(log) && RunOk(ops) && BootsFirst(log, ops, n)
    requires forall i :: 0 <= i < |ops| ==> !ops[i].Erase?
    ensures Related(Run(log, ops, n))
  {
    if ops != [] {
      var before := ops[..|ops| - 1];
      RunRelated(log, before, n);
      RunWellFormed(log, before, n);
      StepRelated(Run(log, before, n), ops[|ops| - 1], n);
    }
  }

  // ----- runs with deletions -----

  /** A line, or that line with its event turned into DELETE. */
  predicate AlikeLine(now: string, line: string) {
    now == line || ("CRASH" <= line && |line| >= 6 && now == "DELETE" + line[6..])
  }

  /** The same lines, some of them marked as deleted. */
  predicate Alike(now: seq<string>, lines: seq<string>) {
    |now| == |lines| && forall i :: 0 <= i < |now| ==> AlikeLine(now[i], lines[i])
  }

  lemma {:induction false} MarkAlikeLine(now: string, line: string, patterns: seq<string>)
    requires AlikeLine(now, line)
    ensures AlikeLine(DeleteCommand.MarkLine(now, patterns), line)
  {
    if DeleteCommand.Hit(now, patterns) {
      ScannedIsLong(now);
      assert now[0] == 'C' && "DELETE"[0] == 'D';
    }
  }

  lemma {:induction false} MarkAlike(now: seq<string>, lines: seq<string>, patterns: seq<string>)
    requires Alike(now, lines)
    ensures Alike(MarkAll(now, patterns), lines)
  {
    forall i | 0 <= i < |now|
      ensures AlikeLine(MarkAll(now, patterns)[i], lines[i])
    {
      MarkAlikeLine(now[i], lines[i], patterns);
    }
  }

  lemma {:induction false} AlikeSnoc(now: seq<string>, lines: seq<string>, line: string, n: nat)
    requires Alike(now, lines)
    ensures Alike(now + [line], lines + [line]) && Alike(LastN(now + [line], n), LastN(lines + [line], n))
  {
  }

  /** Marking the events of a file marks the last ones. */
  lemma {:induction false} LastOfMarked(lines: seq<string>, patterns: seq<string>, n: nat)
    ensures LastN(Events(MarkAll(lines, patterns)), n) == MarkAll(LastN(Events(lines), n), patterns)
  {
  }

  /** The last events of the file, and the cache if there is one, are the last n of `all`, some
      of them marked. */
  predicate Tracks(log: Log, all: seq<string>, n: nat) {
    if log.file.None? then all == []
    else
      && Alike(LastN(Events(log.file.value), n), LastN(all, n))
      && (log.ring.Some? ==> Alike(log.ring.value, LastN(all, n)))
  }

  lemma {:induction false} UpdateTracks(log: Log, all: seq<string>, line: string, now: nat, n: nat)
    requires WellFormed(log, n) && Tracks(log, all, n)
    ensures Tracks(Update(log, line, now, n), all + [line], n)
  {
    var l, r := Ready(log, now, n), Update(log, line, now, n);
    assert Tracks(l, all, n) && |l.file.value| >= 2;
    UpdateKnown(l, line, now, n);
    LastNAppend(all, [line], n);
    LastNAppend(Events(l.file.value), [line], n);
    AlikeSnoc(l.ring.value, LastN(all, n), line, n);
    AlikeSnoc(LastN(Events(l.file.value), n), LastN(all, n), line, n);
    assert Update(l, line, now, n) == r;
    assert LastN(LastN(l.ring.value + [line], n), n) == LastN(l.ring.value + [line], n);
  }

  lemma {:induction false} BootTracks(log: Log, all: seq<string>, date: string, previous: string, n: nat)
    requires WellFormed(log, n) && Tracks(log, all, n) && log.ring.None?
    ensures Tracks(Boot(log, date, previous), all + BootLines(log, date, previous), n)
  {
    hide ScanHeader;
    var lines := BootLines(log, date, previous);
    if lines != [] {
      var events := Events(log.file.value);
      assert Events(Boot(log, date, previous).file.value) == events + lines;
      LastNAppend(all, lines, n);
      LastNAppend(events, lines, n);
      AlikeSnoc(LastN(events, n), LastN(all, n), lines[0], n);
    } else {
      assert all + [] == all;
    }
  }

  lemma {:induction false} EraseTracks(log: Log, all: seq<string>, patterns: seq<string>, n: nat)
    requires Tracks(log, all, n)
    ensures Tracks(Delete(log, patterns), all, n)
  {
    if log.file.Some? {
      LastOfMarked(log.file.value, patterns, n);
      MarkAlike(LastN(Events(log.file.value), n), LastN(all, n), patterns);
    }
  }

  lemma {:induction false} StampTracks(log: Log, all: seq<string>, now: nat, n: nat)
    requires Tracks(log, all, n)
    ensures Tracks(Stamp(log, now), all, n)
  {
    if log.file.Some? && log.file.value != [] {
      assert Events(log.file.value[0 := Header(Uptime(now))]) == Events(log.file.value);
    }
  }

  lemma {:induction false} CacheTracks(log: Log, all: seq<string>, now: nat, n: nat)
    requires Tracks(log, all, n)
    ensures Tracks(Cache(log, now, n), all, n)
  {
  }

  lemma {:induction false} StepTracks(log: Log, op: Op, all: seq<string>, n: nat)
    requires WellFormed(log, n) && Tracks(log, all, n) && OpOk(op) && !op.ResetUp?
    requires op.BootEvent? ==> log.ring.None?
    ensures Tracks(Step(log, op, n), if op.Remove? then [] else all + Added(log, op), n)
  {
    hide Alike, LastN;
    assert all + [] == all;
    match op
    case Add(line, now) => UpdateTracks(log, all, line, now, n);
    case Tick(now) => StampTracks(log, all, now, n);
    case Query(now) => CacheTracks(log, all, now, n);
    case Reload(now) => CacheTracks(log, all, now, n);
    case BootEvent(date, previous) => BootTracks(log, all, date, previous, n);
    case Erase(patterns) => EraseTracks(log, all, patterns, n);
    case _ =>
  }

  /** Over every run without uptime resets, deletions included, the file ends with the last n
      lines added, and the cache holds them, some of them marked as deleted in either. */
  lemma {:induction false} RunTracks(log: Log, ops: seq<Op>, n: nat)
    requires WellFormed(log, n) && InSync(log, n) && RunOk(ops) && BootsFirst(log, ops, n)
    requires forall i :: 0 <= i < |ops| ==> !ops[i].ResetUp?
    ensures Tracks(Run(log, ops, n), Replay(log, View(log, n), ops, n), n)
  {
    if ops != [] {
      var before, op := ops[..|ops| - 1], ops[|ops| - 1];
      RunTracks(log, before, n);
      RunWellFormed(log, before, n);
      StepTracks(Run(log, before, n), op, Replay(log, View(log, n), before, n), n);
    }
  }

  // ----- all runs -----

  /** The shorter one of file and cache is the end of the other, up to marks in the file. */
  predicate Overlap(log: Log) {
    log.file.Some? && log.ring.Some? ==>
      var events, ring := Events(log.file.value), log.ring.value;
      Alike(LastN(events, Min(|events|, |ring|)), LastN(ring, Min(|events|, |ring|)))
  }

  lemma {:induction false} LastNSnoc(s: seq<string>, line: string, m: nat)
    requires m <= |s|
    ensures LastN(s + [line], m + 1) == LastN(s, m) + [line]
  {
  }

  lemma {:induction false} UpdateOverlap(log: Log, line: string, now: nat, n: nat)
    requires WellFormed(log, n) && Overlap(log)
    ensures Overlap(Update(log, line, now, n))
  {
    hide Alike;
    var l, r := Ready(log, now, n), Update(log, line, now, n);
    CacheOverlap(log, now, n);
    assert Overlap(l) && |l.file.value| >= 2 && Update(l, line, now, n) == r;
    var events, ring := Events(l.file.value), l.ring.value;
    UpdateKnown(l, line, now, n);
    if |ring| < n {
      var m := Min(|events|, |ring|);
      LastNSnoc(events, line, m);
      LastNSnoc(ring, line, m);
      AlikeSnoc(LastN(events, m), LastN(ring, m), line, n);
    } else {
      AlikeSelf(r.ring.value);
    }
  }

  lemma {:induction false} AlikeSelf(lines: seq<string>)
    ensures Alike(lines, lines)
  {
  }

  lemma {:induction false} CacheOverlap(log: Log, now: nat, n: nat)
    ensures Overlap(Cache(log, now, n))
  {
  }

  lemma {:induction false} StepOverlap(log: Log, op: Op, n: nat)
    requires WellFormed(log, n) && Overlap(log) && (op.BootEvent? ==> log.ring.None?)
    ensures Overlap(Step(log, op, n))
  {
    match op
    case Add(line, now) => UpdateOverlap(log, line, now, n);
    case Tick(now) =>
      if log.file.Some? && log.file.value != [] {
        assert Events(log.file.value[0 := Header(Uptime(now))]) == Events(log.file.value);
      }
    case Query(now) => CacheOverlap(log, now, n);
    case Reload(now) => CacheOverlap(log, now, n);
    case ResetUp(now) => assert Events(Step(log, op, n).file.value) == [];
    case Erase(patterns) => EraseOverlap(log, patterns);
    case _ =>
  }

  lemma {:induction false} EraseOverlap(log: Log, patterns: seq<string>)
    requires Overlap(log)
    ensures Overlap(Delete(log, patterns))
  {
    if log.file.Some? && log.ring.Some? {
      var lines, events, ring := log.file.value, Events(log.file.value), log.ring.value;
      var m := Min(|events|, |ring|);
      LastOfMarked(lines, patterns, m);
      MarkAlike(LastN(events, m), LastN(ring, m), patterns);
    }
  }

  /** Over every run of all the operations, the events of the file and those of the cache are
      one the end of the other, but for marks of deletion in the file. */
  lemma {:induction false} RunOverlap(log: Log, ops: seq<Op>, n: nat)
    requires WellFormed(log, n) && Overlap(log) && RunOk(ops) && BootsFirst(log, ops, n)
    ensures Overlap(Run(log, ops, n))
  {
    if ops != [] {
      var before := ops[..|ops| - 1];
      RunOverlap(log, before, n);
      RunWellFormed(log, before, n);
      StepOverlap(Run(log, before, n), ops[|ops| - 1], n);
    }
  }

  // ----- the uptime of the last stamp -----

  /** The operations of a session that leave the header to the stamps. */
  predicate KeepsStamp(op: Op) {
    op.Add? || op.Tick? || op.Query? || op.Reload? || op.Erase?
  }

  /** When the last stamp was, `start` being the one before the run. */
  function LastTick(ops: seq<Op>, start: nat): nat {
    if ops == [] then start
    else if ops[|ops| - 1].Tick? then ops[|ops| - 1].now
    else LastTick(ops[..|ops| - 1], start)
  }

  /** The header, and the uptime kept for the next rewrite, are of one time. */
  predicate Stamped(log: Log, now: nat) {
    && log.file.Some? && |log.file.value| >= 2 && log.file.value[0] == Header(Uptime(now))
    && log.saved == Some(Uptime(now))
  }

  lemma {:induction false} HeaderNotMarked(uptime: string, patterns: seq<string>)
    ensures DeleteCommand.MarkLine(Header(uptime), patterns) == Header(uptime)
  {
    assert Header(uptime)[0] == '#' && "CRASH"[0] == 'C';
  }

  lemma {:induction false} StepStamped(log: Log, op: Op, now: nat, n: nat)
    requires WellFormed(log, n) && Stamped(log, now) && KeepsStamp(op)
    ensures Stamped(Step(log, op, n), if op.Tick? then op.now else now)
  {
    HeaderNotMarked(Uptime(now), if op.Erase? then op.patterns else []);
  }

  /** From a stamp on, through every run of updates, stamps, queries, reloads and deletions, full
      rewrites included, the header is the one of the last stamp. */
  lemma {:induction false} HeaderIsLastStamp(log: Log, now: nat, ops: seq<Op>, n: nat)
    requires WellFormed(log, n) && log.file.Some? && ClockOk(now) && RunOk(ops)
    requires forall i :: 0 <= i < |ops| ==> KeepsStamp(ops[i])
    ensures WellFormed(Run(Stamp(log, now), ops, n), n)
    ensures Stamped(Run(Stamp(log, now), ops, n), LastTick(ops, now))
    ensures ClockOk(LastTick(ops, now))
  {
    StampWellFormed(log, now, n);
    RunWellFormed(Stamp(log, now), ops, n);
    if ops != [] {
      var before := ops[..|ops| - 1];
      HeaderIsLastStamp(log, now, before, n);
      StepStamped(Run(Stamp(log, now), before, n), ops[|ops| - 1], LastTick(before, now), n);
    }
  }

  /** So the boot after the next start of the daemon logs the uptime of the last stamp. */
  lemma {:induction false} NextBootLogsLastStamp(log: Log, now: nat, ops: seq<Op>, date: string, previous: string,
          n: nat)
    requires WellFormed(log, n) && log.file.Some? && ClockOk(now) && RunOk(ops)
    requires forall i :: 0 <= i < |ops| ==> KeepsStamp(ops[i])
    ensures var before := Run(Stamp(log, now), ops, n);
            var after := Run(Stamp(log, now), ops + [Restart] + [BootEvent(date, previous)], n);
            && before.file.Some? && |before.file.value| >= 2
            && after.file == Some(before.file.value[0 := BlankLine1()] +
                                  [HistoryLine(BootEntry(Uptime(LastTick(ops, now)), date))])
  {
    HeaderIsLastStamp(log, now, ops, n);
    var started, booted := ops + [Restart], ops + [Restart] + [BootEvent(date, previous)];
    assert started[..|started| - 1] == ops && booted[..|booted| - 1] == started;
    UptimeIsWord(LastTick(ops, now));
    BootOfHeader(Run(Stamp(log, now), started, n), Uptime(LastTick(ops, now)), date, previous);
  }
}
