/**
 What the history operations of crashlog/history.c mean: the lines of the file, the lines
 of the cache, and the uptime last computed, without bytes, slots or indices.
 `HistoryLog` proves that the operations do this, `HistoryRuns` what follows over whole runs.
 */
module HistoryModel {
  import opened Text
  import opened Decimal
  import opened HistoryEntry
  import DeleteCommand

  const HEADER_PREFIX := "#V1.0 CURRENTUPTIME   "
  const HEADER_LENGTH := 47

  /** get_uptime_string, from the number of seconds since boot. */
  function Uptime(seconds: nat): string {
    var hours, minutes := seconds / 3600, seconds / 60 % 60;
    PadZeros(Dec(hours), 4) + ":" + PadZeros(Dec(minutes), 2) + ":" + PadZeros(Dec(seconds % 60), 2)
  }

  /** The uptime fits an int. */
  predicate ClockOk(seconds: nat) {
    seconds < 0x8000_0000
  }

  function Header(uptime: string): string {
    HEADER_PREFIX + PadRight(uptime, 24) + "\n"
  }

  // HISTORY_BLANK_LINE1 and HISTORY_BLANK_LINE2
  function BlankLine1(): string {
    Header("0000:00:00")
  }

  function BlankLine2(): string {
    PadRight("#EVENT", 8) + PadRight("ID", 22) + PadRight("DATE", 21) + "TYPE" + "\n"
  }

  predicate UptimeOk(uptime: string) {
    |uptime| <= 24 && OneLine(uptime)
  }

  predicate IsHeader(l: string) {
    GoodLine(l) && |l| == HEADER_LENGTH
  }

  lemma {:induction false} DigitsOneLine(s: string, w: nat)
    requires AllDigits(s)
    ensures OneLine(PadZeros(s, w))
  {
    RepeatHas('0', Max(w - |s|, 0), '\n');
    RepeatHas('0', Max(w - |s|, 0), NUL);
  }

  lemma {:induction false} UptimeFits(seconds: nat)
    requires ClockOk(seconds)
    ensures UptimeOk(Uptime(seconds))
  {
    var hours, minutes := seconds / 3600, seconds / 60 % 60;
    assert Pow10(6) == 1000000 && Pow10(2) == 100;
    DecLength(hours, 6);
    DecLength(minutes, 2);
    DecLength(seconds % 60, 2);
    DigitsOneLine(Dec(hours), 4);
    DigitsOneLine(Dec(minutes), 2);
    DigitsOneLine(Dec(seconds % 60), 2);
  }

  lemma {:induction false} HeaderIsHeader(uptime: string)
    requires UptimeOk(uptime)
    ensures IsHeader(Header(uptime))
  {
    var h := Header(uptime);
    assert |HEADER_PREFIX| == 22;
    assert h[..|h| - 1] == HEADER_PREFIX + PadRight(uptime, 24);
  }

  lemma {:induction false} BlankLinesAreGood()
    ensures IsHeader(BlankLine1()) && GoodLine(BlankLine2())
  {
    HeaderIsHeader("0000:00:00");
    var columns := PadRight("#EVENT", 8) + PadRight("ID", 22) + PadRight("DATE", 21) + "TYPE";
    assert OneLine(columns);
    assert BlankLine2()[..|BlankLine2()| - 1] == columns;
  }

  // ----- the state and its operations -----

  /** `file`: the lines on disk, if the file exists; `ring`: the cached lines, once cached;
      `saved`: the uptime kept for the next full rewrite. */
  datatype Log = Log(file: Option<seq<string>>, ring: Option<seq<string>>, saved: Option<string>)

  predicate AllGood(lines: seq<string>) {
    forall i :: 0 <= i < |lines| ==> GoodLine(lines[i])
  }

  predicate WellFormed(log: Log, n: nat) {
    && (log.file.Some? ==> |log.file.value| >= 2 && IsHeader(log.file.value[0]) && AllGood(log.file.value))
    && (log.ring.Some? ==> |log.ring.value| <= n && AllGood(log.ring.value))
    && (log.saved.Some? ==> UptimeOk(log.saved.value))
  }

  /** The events of a file: its lines after the two header lines. */
  function Events(lines: seq<string>): seq<string> {
    if |lines| >= 2 then lines[2..] else []
  }

  /** cache_history_file */
  function Cache(log: Log, now: nat, n: nat): Log {
    if log.file.None? then
      Log(Some([Header(Uptime(now)), BlankLine2()]), Some([]), Some(Uptime(now)))
    else
      log.(ring := Some(LastN(Events(log.file.value), n)))
  }

  function Cached(log: Log, now: nat, n: nat): (r: Log)
    ensures r.ring.Some?
  {
    if log.ring.None? then Cache(log, now, n) else log
  }

  /** The state in which update_history_file adds its line. */
  function Ready(log: Log, now: nat, n: nat): (r: Log)
    ensures r.ring.Some? && r.file.Some?
  {
    if log.file.None? then Cache(log, now, n) else Cached(log, now, n)
  }

  function SavedUptime(log: Log, now: nat): string {
    if log.saved.Some? then log.saved.value else Uptime(now)
  }

  /** update_history_file: append while the ring has room, else rewrite the whole file. */
  function Update(log: Log, line: string, now: nat, n: nat): Log {
    var l := Ready(log, now, n);
    var ring := LastN(l.ring.value + [line], n);
    if |l.ring.value| < n then
      Log(Some(l.file.value + [line]), Some(ring), l.saved)
    else
      Log(Some([Header(SavedUptime(l, now)), BlankLine2()] + ring), Some(ring), Some(SavedUptime(l, now)))
  }

  /** The part of add_uptime_event that rewrites the first line. */
  function Stamp(log: Log, now: nat): Log {
    if log.file.None? || log.file.value == [] then log
    else Log(Some(log.file.value[0 := Header(Uptime(now))]), log.ring, Some(Uptime(now)))
  }

  /** reset_uptime_history */
  function ResetUptime(log: Log, now: nat, n: nat): Log {
    Cached(log, now, n).(file := Some([BlankLine1(), BlankLine2()]))
  }

  // ----- every operation keeps the state well formed -----

  lemma {:induction false} CacheWellFormed(log: Log, now: nat, n: nat)
    requires WellFormed(log, n) && ClockOk(now)
    ensures WellFormed(Cache(log, now, n), n)
  {
    UptimeFits(now);
    HeaderIsHeader(Uptime(now));
    BlankLinesAreGood();
  }

  lemma {:induction false} AllGoodAppend(a: seq<string>, b: seq<string>, n: nat)
    requires AllGood(a) && AllGood(b)
    ensures AllGood(a + b) && AllGood(LastN(a + b, n))
  {
  }

  lemma {:induction false} UpdateWellFormed(log: Log, line: string, now: nat, n: nat)
    requires WellFormed(log, n) && ClockOk(now) && GoodLine(line)
    ensures WellFormed(Update(log, line, now, n), n)
  {
    CacheWellFormed(log, now, n);
    var l := Ready(log, now, n);
    assert WellFormed(l, n);
    AllGoodAppend(l.ring.value, [line], n);
    if |l.ring.value| < n {
      AllGoodAppend(l.file.value, [line], n);
    } else {
      UptimeFits(now);
      HeaderIsHeader(SavedUptime(l, now));
      BlankLinesAreGood();
      AllGoodAppend([Header(SavedUptime(l, now)), BlankLine2()], LastN(l.ring.value + [line], n), n);
    }
  }

  lemma {:induction false} StampWellFormed(log: Log, now: nat, n: nat)
    requires WellFormed(log, n) && ClockOk(now)
    ensures WellFormed(Stamp(log, now), n)
  {
    UptimeFits(now);
    HeaderIsHeader(Uptime(now));
  }

  lemma {:induction false} ResetWellFormed(log: Log, now: nat, n: nat)
    requires WellFormed(log, n) && ClockOk(now)
    ensures WellFormed(ResetUptime(log, now, n), n)
  {
    CacheWellFormed(log, now, n);
    BlankLinesAreGood();
  }

  // ----- the cache and the file agree -----

  /** The cache holds the last events of the file. */
  predicate InSync(log: Log, n: nat) {
    log.file.Some? && log.ring.Some? ==> log.ring.value == LastN(Events(log.file.value), n)
  }

  lemma {:induction false} UpdateInSync(log: Log, line: string, now: nat, n: nat)
    requires WellFormed(log, n) && InSync(log, n)
    ensures InSync(Update(log, line, now, n), n)
  {
    var l := Ready(log, now, n);
    assert InSync(l, n);
    var r := Update(log, line, now, n);
    if |l.ring.value| < n {
      assert Events(r.file.value) == Events(l.file.value) + [line];
    } else {
      assert Events(r.file.value) == r.ring.value;
    }
  }

  /** What a reader of the history sees: its last n events. */
  function View(log: Log, n: nat): seq<string> {
    if log.file.None? then [] else LastN(Events(log.file.value), n)
  }

  /** One update turns the log into the last n events of the log and the new line,
      whether the file is appended to or rewritten. */
  lemma {:induction false} UpdateView(log: Log, line: string, now: nat, n: nat)
    requires WellFormed(log, n) && InSync(log, n) && n > 0
    ensures View(Update(log, line, now, n), n) == LastN(View(log, n) + [line], n)
  {
    var l := Ready(log, now, n);
    assert View(l, n) == View(log, n) == l.ring.value;
    var r := Update(log, line, now, n);
    if |l.ring.value| < n {
      assert Events(r.file.value) == Events(l.file.value) + [line];
      LastNAppend(Events(l.file.value), [line], n);
    } else {
      assert Events(r.file.value) == r.ring.value;
    }
  }

  /** history_has_event: some cached line mentions the directory. */
  ghost predicate Mentions(lines: seq<string>, dir: string) {
    exists l :: l in lines && Contains(l, dir)
  }

  lemma {:induction false} MentionsExactly(lines: seq<string>, dir: string)
    ensures Mentions(lines, dir) <==> exists i, at: nat :: 0 <= i < |lines| && OccursAt(lines[i], dir, at)
  {
    forall i | 0 <= i < |lines|
      ensures Contains(lines[i], dir) <==> exists at: nat :: OccursAt(lines[i], dir, at)
    {
      ContainsExactly(lines[i], dir);
    }
  }

  /** While the file exists, asking the cache is asking the last n events of the file. */
  lemma {:induction false} QueryView(log: Log, now: nat, n: nat, dir: string)
    requires InSync(log, n) && (log.file.Some? || log.ring.None?)
    ensures Mentions(Cached(log, now, n).ring.value, dir) <==> Mentions(View(log, n), dir)
  {
  }

  // ----- the uptime reset -----

  /** The reset empties the file but not the cache: they still agree if and only if
      there was nothing in the cache. */
  lemma {:induction false} ResetInSync(log: Log, now: nat, n: nat)
    requires n > 0
    ensures InSync(ResetUptime(log, now, n), n) <==> Cached(log, now, n).ring.value == []
  {
  }

  /** The first line is blank after a reset, and there is no event; the uptime erased comes back
      with the first full rewrite, as the events do. */
  lemma {:induction false} ResetThenRewrite(log: Log, reset: nat, line: string, now: nat, n: nat)
    requires WellFormed(log, n) && n > 0 && log.ring.Some? && |log.ring.value| == n && log.saved.Some?
    ensures var r := ResetUptime(log, reset, n);
            && r.file == Some([Header("0000:00:00"), BlankLine2()])
            && Update(r, line, now, n).file.value[0] == Header(log.saved.value)
  {
  }

  predicate Related(log: Log) {
    log.file.Some? && log.ring.Some? ==>
      IsSuffix(Events(log.file.value), log.ring.value) || IsSuffix(log.ring.value, Events(log.file.value))
  }

  lemma {:induction false} SuffixSnoc(a: seq<string>, b: seq<string>, line: string)
    requires IsSuffix(a, b)
    ensures IsSuffix(a + [line], b + [line])
  {
  }

  lemma {:induction false} UpdateRelated(log: Log, line: string, now: nat, n: nat)
    requires WellFormed(log, n) && Related(log)
    ensures Related(Update(log, line, now, n))
  {
    var l, r := Ready(log, now, n), Update(log, line, now, n);
    assert Related(l) && |l.file.value| >= 2;
    var events, ring := Events(l.file.value), l.ring.value;
    if |ring| < n {
      assert Events(r.file.value) == events + [line] && r.ring.value == ring + [line];
      if IsSuffix(events, ring) {
        SuffixSnoc(events, ring, line);
      } else {
        SuffixSnoc(ring, events, line);
      }
    } else {
      assert Events(r.file.value) == r.ring.value;
    }
  }

  lemma {:induction false} CacheRelated(log: Log, now: nat, n: nat)
    ensures Related(Cache(log, now, n))
  {
  }

  lemma {:induction false} StampRelated(log: Log, now: nat)
    requires Related(log)
    ensures Related(Stamp(log, now))
  {
    if log.file.Some? && log.file.value != [] {
      assert Events(log.file.value[0 := Header(Uptime(now))]) == Events(log.file.value);
    }
  }

  /** A full rewrite makes them equal, whatever they were. */
  lemma {:induction false} RewriteAgrees(log: Log, line: string, now: nat, n: nat)
    requires WellFormed(log, n) && |Ready(log, now, n).ring.value| == n
    ensures var r := Update(log, line, now, n);
            Events(r.file.value) == r.ring.value && |r.ring.value| == n
  {
  }

  function UpdateAll(log: Log, lines: seq<string>, now: nat, n: nat): Log {
    if lines == [] then log else Update(UpdateAll(log, lines[..|lines| - 1], now, n), lines[|lines| - 1], now, n)
  }

  /** What the file and the cache hold after a reset of a log that held `cached` and the
      addition of `lines`. */
  predicate AfterReset(log: Log, cached: seq<string>, lines: seq<string>, n: nat) {
    && log.ring == Some(LastN(cached + lines, n))
    && log.file.Some? && |log.file.value| >= 2
    && Events(log.file.value) == if |cached| + |lines| <= n then lines else LastN(cached + lines, n)
  }

  lemma {:induction false} UpdateKnown(log: Log, line: string, now: nat, n: nat)
    requires log.file.Some? && log.ring.Some? && |log.file.value| >= 2
    ensures var r, ring := Update(log, line, now, n), log.ring.value;
            && r.file.Some? && |r.file.value| >= 2 && r.ring == Some(LastN(ring + [line], n))
            && Events(r.file.value) == if |ring| < n then Events(log.file.value) + [line] else LastN(ring + [line], n)
  {
  }

  lemma {:induction false} AfterResetStep(log: Log, cached: seq<string>, before: seq<string>, lines: seq<string>,
          now: nat, n: nat)
    requires n > 0 && lines != [] && before == lines[..|lines| - 1] && AfterReset(log, cached, before, n)
    ensures AfterReset(Update(log, lines[|lines| - 1], now, n), cached, lines, n)
  {
    UpdateKnown(log, lines[|lines| - 1], now, n);
    RingAfter(cached, lines, n);
    assert before + [lines[|lines| - 1]] == lines;
  }

  lemma {:induction false} RingAfter(cached: seq<string>, lines: seq<string>, n: nat)
    requires lines != []
    ensures var before, line := lines[..|lines| - 1], lines[|lines| - 1];
            LastN(LastN(cached + before, n) + [line], n) == LastN(cached + lines, n)
  {
    var before, line := lines[..|lines| - 1], lines[|lines| - 1];
    LastNAppend(cached + before, [line], n);
    assert cached + before + [line] == cached + lines;
  }

  lemma {:induction false} AfterResetStart(log: Log, reset: nat, n: nat)
    requires WellFormed(log, n)
    ensures AfterReset(ResetUptime(log, reset, n), Cached(log, reset, n).ring.value, [], n)
  {
    var cached := Cached(log, reset, n).ring.value;
    assert cached + [] == cached && |cached| <= n;
  }

  /** After a reset the file shows the lines added since, until the cache is full; the
      update that overflows the cache brings the erased events back. */
  lemma {:induction false} ResetThenUpdates(log: Log, reset: nat, lines: seq<string>, now: nat, n: nat)
    requires WellFormed(log, n) && n > 0
    ensures AfterReset(UpdateAll(ResetUptime(log, reset, n), lines, now, n), Cached(log, reset, n).ring.value, lines, n)
  {
    AfterResetStart(log, reset, n);
    AfterResetUpdates(ResetUptime(log, reset, n), Cached(log, reset, n).ring.value, lines, now, n);
  }

  lemma {:induction false} AfterResetUpdates(log: Log, cached: seq<string>, lines: seq<string>, now: nat, n: nat)
    requires AfterReset(log, cached, [], n) && n > 0
    ensures AfterReset(UpdateAll(log, lines, now, n), cached, lines, n)
  {
    if lines != [] {
      var before := lines[..|lines| - 1];
      AfterResetUpdates(log, cached, before, now, n);
      AfterResetStep(UpdateAll(log, before, now, n), cached, before, lines, now, n);
    }
  }

  // ----- the delete command -----

  function MarkAll(lines: seq<string>, patterns: seq<string>): (r: seq<string>)
    ensures |r| == |lines|
  {
    seq(|lines|, i requires 0 <= i < |lines| => DeleteCommand.MarkLine(lines[i], patterns))
  }

  lemma {:induction false} MarkedIsGood(line: string, patterns: seq<string>)
    requires GoodLine(line)
    ensures GoodLine(DeleteCommand.MarkLine(line, patterns))
  {
    DeleteCommand.MarkLineKeepsNewline(line, patterns);
    if DeleteCommand.Hit(line, patterns) {
      ScannedIsLong(line);
    }
  }

  lemma {:induction false} DeleteWellFormed(log: Log, patterns: seq<string>, n: nat)
    requires WellFormed(log, n)
    ensures WellFormed(Delete(log, patterns), n)
  {
    if log.file.Some? {
      var lines := log.file.value;
      forall i | 0 <= i < |lines|
        ensures GoodLine(MarkAll(lines, patterns)[i])
      {
        MarkedIsGood(lines[i], patterns);
      }
    }
  }

  /** update_history_on_cmd_delete: the file is edited, the cache is not. */
  function Delete(log: Log, patterns: seq<string>): Log {
    if log.file.None? then log else log.(file := Some(MarkAll(log.file.value, patterns)))
  }

  /** Deletions last until the cache is full: then the next update writes the deleted
      events back as they were. */
  lemma {:induction false} DeleteUndone(log: Log, patterns: seq<string>, line: string, now: nat, n: nat)
    requires WellFormed(log, n) && log.file.Some? && log.ring.Some?
    ensures var r := Update(Delete(log, patterns), line, now, n);
            if |log.ring.value| == n then r == Update(log, line, now, n)
            else Events(r.file.value) == MarkAll(Events(log.file.value), patterns) + [line]
  {
  }

  // ----- the uptime in the header -----

  /** The uptime of a number of seconds is that number again, when its fields are read. */
  lemma {:induction false} UptimeReadsBack(seconds: nat)
    ensures var u := Uptime(seconds);
            && |u| >= 10 && (|u| == 10 <==> seconds < 36000000) && u[|u| - 6] == ':' && u[|u| - 3] == ':'
            && AllDigits(u[..|u| - 6]) && AllDigits(u[|u| - 5..|u| - 3]) && AllDigits(u[|u| - 2..])
            && Value(u[|u| - 5..|u| - 3]) < 60 && Value(u[|u| - 2..]) < 60
            && 3600 * Value(u[..|u| - 6]) + 60 * Value(u[|u| - 5..|u| - 3]) + Value(u[|u| - 2..]) == seconds
  {
    var u, hours, minutes := Uptime(seconds), seconds / 3600, seconds / 60 % 60;
    var h, m, s := PadZeros(Dec(hours), 4), PadZeros(Dec(minutes), 2), PadZeros(Dec(seconds % 60), 2);
    TwoDigits(minutes);
    TwoDigits(seconds % 60);
    ValueOfPadded(hours, 4);
    assert u == h + ":" + m + ":" + s;
    assert u[..|u| - 6] == h && u[|u| - 5..|u| - 3] == m && u[|u| - 2..] == s;
    HoursMinutesSeconds(seconds);
    assert Pow10(4) == 10000;
    if hours < 10000 {
      DecLength(hours, 4);
    } else {
      DecLengthLow(hours, 5);
    }
  }

  lemma {:induction false} HoursMinutesSeconds(seconds: nat)
    ensures 3600 * (seconds / 3600) + 60 * (seconds / 60 % 60) + seconds % 60 == seconds
  {
    assert seconds / 60 / 60 == seconds / 3600;
  }

  lemma {:induction false} TwoDigits(n: nat)
    requires n < 60
    ensures |PadZeros(Dec(n), 2)| == 2 && AllDigits(PadZeros(Dec(n), 2)) && Value(PadZeros(Dec(n), 2)) == n
  {
    assert Pow10(2) == 100;
    DecLength(n, 2);
    ValueOfPadded(n, 2);
  }

  lemma {:induction false} ValueOfPadded(n: nat, w: nat)
    ensures |PadZeros(Dec(n), w)| == Max(|Dec(n)|, w)
    ensures AllDigits(PadZeros(Dec(n), w)) && Value(PadZeros(Dec(n), w)) == n
  {
    ValueOfZeros(Max(w - |Dec(n)|, 0));
    ValueOfDec(n);
    ValueOfConcat(Repeat('0', Max(w - |Dec(n)|, 0)), Dec(n));
  }

  lemma {:induction false} ValueOfZeros(k: nat)
    ensures AllDigits(Repeat('0', k)) && Value(Repeat('0', k)) == 0
  {
    if k > 0 {
      ValueOfZeros(k - 1);
      assert Repeat('0', k)[..k - 1] == Repeat('0', k - 1);
    }
  }

  /** The first line as it stands in a file: its format has 22 fixed bytes and a field of 24. */
  lemma {:induction false} FirstLineText(uptime: string)
    requires |uptime| == 10
    ensures Header(uptime) == "#V1.0 CURRENTUPTIME   " + uptime + "              " + "\n"
    ensures BlankLine1() == Header("0000:00:00")
  {
    assert Spaces(14) == "              ";
  }

  lemma {:induction false} SecondLineText()
    ensures BlankLine2() == "#EVENT  " + "ID                    " + "DATE                 " + "TYPE" + "\n"
  {
    assert PadRight("#EVENT", 8) == "#EVENT  ";
    assert PadRight("ID", 22) == "ID                    ";
    assert PadRight("DATE", 21) == "DATE                 ";
  }

  /** A stamp outlives the update that follows it, even one that rewrites the whole file. */
  lemma {:induction false} StampOutlivesRewrite(log: Log, now: nat, line: string, later: nat, n: nat)
    requires WellFormed(log, n) && log.file.Some? && n > 0
    ensures var file := Update(Stamp(log, now), line, later, n).file.value;
            |file| > 0 && file[0] == Header(Uptime(now))
  {
  }

  /** Without a stamp, a file has the uptime of its creation, and a rewrite in a new session its
      own. */
  lemma {:induction false} HeaderWithoutStamp(log: Log, line: string, now: nat, n: nat)
    requires log.saved.None? && n > 0
    ensures var file := Update(log, line, now, n).file.value;
            (log.file.None? || (log.ring.Some? && |log.ring.value| >= n)) ==>
            |file| >= 2 && file[0] == Header(Uptime(now)) && file[1] == BlankLine2()
  {
  }

  // ----- the uptime event -----

  /** loop_uptime_event after one tick at `hours`: the event is raised when it changes. */
  function NextLoop(hours: nat, freq: nat, loop: int): int
    requires freq > 0
  {
    if hours / freq >= loop then hours / freq + 1 else loop
  }

  function Loops(hours: seq<nat>, freq: nat, loop: int): int
    requires freq > 0
  {
    if hours == [] then loop else NextLoop(hours[|hours| - 1], freq, Loops(hours[..|hours| - 1], freq, loop))
  }

  /** The i-th tick raises the event. */
  predicate Raised(hours: seq<nat>, freq: nat, loop: int, i: nat)
    requires freq > 0 && i < |hours|
  {
    hours[i] / freq >= Loops(hours[..i], freq, loop)
  }

  lemma {:induction false} LoopsGrow(hours: seq<nat>, freq: nat, loop: int, i: nat, j: nat)
    requires freq > 0 && i <= j <= |hours|
    ensures Loops(hours[..i], freq, loop) <= Loops(hours[..j], freq, loop)
    decreases j
  {
    if i < j {
      LoopsGrow(hours, freq, loop, i, j - 1);
      assert hours[..j][..j - 1] == hours[..j - 1];
    }
  }

  /** Over any sequence of ticks, the raised events fall in strictly increasing periods: a
      period of `freq` hours never raises two. */
  lemma {:induction false} OnePerPeriod(hours: seq<nat>, freq: nat, loop: int, i: nat, j: nat)
    requires freq > 0 && i < j < |hours|
    requires Raised(hours, freq, loop, i) && Raised(hours, freq, loop, j)
    ensures hours[i] / freq < hours[j] / freq
  {
    assert hours[..i + 1][..i] == hours[..i];
    LoopsGrow(hours, freq, loop, i + 1, j);
  }

  /** And none is missed: a tick in a period not below `loop` has been preceded, or is
      itself, an event of that period or a later one. */
  lemma {:induction false} NoPeriodMissed(hours: seq<nat>, freq: nat, loop: int, i: nat)
    requires freq > 0 && i < |hours| && hours[i] / freq >= loop
    ensures exists k :: 0 <= k <= i && Raised(hours, freq, loop, k) && hours[k] / freq >= hours[i] / freq
  {
    if !Raised(hours, freq, loop, i) {
      LastRaise(hours, freq, loop, i);
    }
  }

  lemma {:induction false} LastRaise(hours: seq<nat>, freq: nat, loop: int, i: nat)
    requires freq > 0 && i <= |hours| && Loops(hours[..i], freq, loop) > loop
    ensures exists k :: 0 <= k < i && Raised(hours, freq, loop, k) &&
              hours[k] / freq + 1 == Loops(hours[..i], freq, loop)
  {
    assert hours[..i][..i - 1] == hours[..i - 1];
    if !Raised(hours, freq, loop, i - 1) {
      LastRaise(hours, freq, loop, i - 1);
    }
  }
}
