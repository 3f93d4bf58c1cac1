/**
 The history file and its cache (crashlog/history.c): the statics of that file as the
 fields of a class, the file as its bytes. Every method is proved to do what the
 corresponding function of `HistoryModel` says.
 */
module HistoryLog {
  import opened Text
  import opened LineReader
  import opened HistoryEntry
  import opened HistoryModel
  import opened HistoryBoot
  import Ring
  import CacheFile
  import DeleteCommand

  const EINVAL := 22
  const ENOENT := 2

  // ----- files as lines -----

  predicate TextOk(text: string) {
    Terminated(text) && NoNul(text)
  }

  function FileLines(file: Option<string>): Option<seq<string>> {
    if file.None? then None else Some(Lines(file.value))
  }

  lemma {:induction false} TextOfLines(lines: seq<string>)
    requires AllGood(lines)
    ensures Lines(Concat(lines)) == lines && TextOk(Concat(lines))
  {
    LinesOfConcat(lines);
    NoNulConcat(lines);
  }

  lemma {:induction false} TextAppend(text: string, line: string)
    requires TextOk(text) && GoodLine(line)
    ensures Lines(text + line) == Lines(text) + [line] && TextOk(text + line)
  {
    LinesAppend(text, line);
  }

  /** Rewriting the header in place leaves every other line where it is. */
  lemma {:induction false} TextStamp(text: string, header: string)
    requires TextOk(text) && AllGood(Lines(text)) && text != ""
    requires |Lines(text)[0]| == |header| && GoodLine(header)
    ensures |header| <= |text|
    ensures var t := DeleteCommand.Overwrite(text, 0, header);
            Lines(t) == Lines(text)[0 := header] && TextOk(t)
  {
    var n := LineLen(text);
    var line, rest := text[..n], text[n..];
    assert Lines(text) == [line] + Lines(rest);
    assert DeleteCommand.Overwrite(text, 0, header) == header + rest;
    LinesCons(header, rest);
    assert ([line] + Lines(rest))[0 := header] == [header] + Lines(rest);
    TextOkPart(text, n);
    TextOkJoin(header, rest);
  }

  lemma {:induction false} TextOkPart(text: string, n: nat)
    requires TextOk(text) && n <= |text|
    ensures TextOk(text[n..])
  {
  }

  lemma {:induction false} TextOkJoin(a: string, b: string)
    requires TextOk(a) && TextOk(b)
    ensures TextOk(a + b)
  {
  }

  lemma {:induction false} TextToLoad(text: string)
    requires TextOk(text) && AllGood(Lines(text)) && |Lines(text)| >= 2
    ensures CacheFile.Body(text, 2) == Events(Lines(text))
  {
    CacheFile.BodyOfText(text, 2);
  }

  // ----- the object -----

  class History {
    const maxrecords: int          // MAX_RECORDS
    const cache: array<Ring.Slot>  // historycache
    var file: Option<string>       // HISTORY_FILE
    var nextline: int
    var saved: Option<string>      // saved_lastuptime of get_timed_firstline
    var loop_uptime_event: int

    /** The lines of the file and of the cache: the state of `HistoryModel`. */
    ghost function State(): Log
      reads this, cache
    {
      Log(FileLines(file), if nextline < 0 then None else Ring.View(cache[..], nextline), saved)
    }

    ghost predicate Valid()
      reads this, cache
    {
      && maxrecords > 2 && cache.Length == maxrecords
      && (nextline >= 0 ==> Ring.View(cache[..], nextline).Some?)
      && (file.Some? ==> TextOk(file.value))
      && WellFormed(State(), maxrecords)
    }

    constructor (maxrecords: int, file: Option<string>)
      requires maxrecords > 2
      requires file.Some? ==> TextOk(file.value)
      requires WellFormed(Log(FileLines(file), None, None), maxrecords)
      ensures Valid() && fresh(cache) && this.maxrecords == maxrecords && this.file == file
      ensures State() == Log(FileLines(file), None, None)
      ensures loop_uptime_event == 1
    {
      this.maxrecords := maxrecords;
      this.cache := new Ring.Slot[maxrecords](_ => None);
      this.file := file;
      nextline := -1;
      saved := None;
      loop_uptime_event := 1;
    }

    /** The part of cache_history_file that writes a file with its two header lines. */
    method CreateHistoryFile(now: nat)
      requires ClockOk(now)
      modifies this`file, this`saved
      ensures FileLines(file) == Some([Header(Uptime(now)), BlankLine2()]) && TextOk(file.value)
      ensures saved == Some(Uptime(now))
    {
      UptimeFits(now);
      HeaderIsHeader(Uptime(now));
      saved := Some(Uptime(now));
      WriteHeader(Header(Uptime(now)));
    }

    /** The part of cache_history_file that loads the last events. */
    method LoadHistoryFile() returns (res: int)
      requires cache.Length == maxrecords && maxrecords > 2
      requires file.Some? && TextOk(file.value) && AllGood(Lines(file.value)) && |Lines(file.value)| >= 2
      modifies this`nextline, cache
      ensures nextline >= 0 && res == |LastN(Events(Lines(file.value)), maxrecords)|
      ensures Ring.View(cache[..], nextline) == Some(LastN(Events(Lines(file.value)), maxrecords))
    {
      TextToLoad(file.value);
      res := CacheFile.Load(CacheFile.Present(file.value), cache, maxrecords, CacheFile.CACHE_TAIL, 2);
      Ring.FromFront(cache[..], LastN(Events(Lines(file.value)), maxrecords));
      nextline := res % maxrecords;
    }

    /** cache_history_file */
    method CacheHistoryFile(now: nat) returns (res: int)
      requires Valid() && ClockOk(now)
      modifies this, cache
      ensures Valid() && State() == Cache(old(State()), now, maxrecords)
      ensures nextline >= 0 && res == |State().ring.value|
      ensures loop_uptime_event == old(loop_uptime_event)
    {
      CacheWellFormed(State(), now, maxrecords);
      if file.None? {
        CreateHistoryFile(now);
      }
      res := LoadHistoryFile();
    }

    /** reset_history_cache; loading clears every slot, so clearing them first changes nothing. */
    method ResetHistoryCache(now: nat) returns (res: int)
      requires Valid() && ClockOk(now)
      modifies this, cache
      ensures Valid() && State() == Cache(old(State()), now, maxrecords)
      ensures nextline >= 0 && res == |State().ring.value|
      ensures loop_uptime_event == old(loop_uptime_event)
    {
      if nextline > 0 {
        ghost var state := State();
        for idx := 0 to maxrecords
          invariant file == old(file) && saved == old(saved) && loop_uptime_event == old(loop_uptime_event)
          invariant forall i :: 0 <= i < idx ==> cache[i].None?
          modifies cache
        {
          cache[idx] := None;
        }
        nextline := 0;
        Ring.EmptyRing(cache[..]);
        assert State() == state.(ring := Some([]));
      }
      res := CacheHistoryFile(now);
    }

    /** Writes the whole cache after what is written already, oldest line first: the slots
        from the next one to the end of the array, then those from the start. */
    method WriteCache(start: string, ghost top: seq<string>) returns (text: string)
      requires cache.Length == maxrecords > 0
      requires 0 <= nextline < maxrecords && Ring.View(cache[..], nextline).Some? && cache[nextline].Some?
      requires start == Concat(top)
      ensures text == Concat(top + Ring.View(cache[..], nextline).value)
    {
      ghost var slots, next, n := cache[..], nextline, maxrecords;
      ghost var lines := Ring.View(slots, next).value;
      WrittenEnds(top, lines);
      text := start;
      for index := nextline to maxrecords
        invariant text == Written(top, lines, index - next)
      {
        Ring.FullRingAt(slots, next, index);
        WrittenNext(top, lines, index - next);
        text := text + cache[index].value;
      }
      for index := 0 to nextline
        invariant text == Written(top, lines, n - next + index)
      {
        Ring.FullRingAt(slots, next, index);
        WrittenNext(top, lines, n - next + index);
        text := text + cache[index].value;
      }
    }

    /** Empties the file, then writes the two header lines and the cache. */
    method RewriteHistoryFile(now: nat)
      requires cache.Length == maxrecords > 0 && ClockOk(now)
      requires 0 <= nextline < maxrecords && Ring.View(cache[..], nextline).Some? && cache[nextline].Some?
      modifies this`file, this`saved
      ensures saved == Some(if old(saved).Some? then old(saved).value else Uptime(now))
      ensures file == Some(Concat([Header(saved.value), BlankLine2()] + Ring.View(cache[..], nextline).value))
    {
      var uptime := if saved.Some? then saved.value else Uptime(now);
      saved := Some(uptime);
      ConcatTwo(Header(uptime), BlankLine2());
      var text := WriteCache(Header(uptime) + BlankLine2(), [Header(uptime), BlankLine2()]);
      file := Some(text);
    }

    /** update_history_file, up to the point where the line is added. */
    method MakeReady(now: nat)
      requires Valid() && ClockOk(now)
      modifies this, cache
      ensures Valid() && State() == Ready(old(State()), now, maxrecords)
      ensures old(State()).file.Some? && old(State()).ring.Some? ==> file == old(file)
      ensures loop_uptime_event == old(loop_uptime_event)
    {
      if file.None? {
        var res := ResetHistoryCache(now);
      } else if nextline < 0 {
        var res := CacheHistoryFile(now);
      }
    }

    /** The bytes and the slots hold what a log says, whether or not its lines are good. */
    ghost predicate Stores(log: Log)
      reads this, cache
    {
      && log.file.Some? && file == Some(Concat(log.file.value))
      && nextline >= 0 && Ring.View(cache[..], nextline) == log.ring && saved == log.saved
    }

    /** update_history_file, once the cache is ready. */
    method AddLine(newline: string, now: nat)
      requires Valid() && ClockOk(now) && file.Some? && nextline >= 0
      modifies this, cache
      ensures Stores(Update(old(State()), newline, now, maxrecords))
      ensures |old(State()).ring.value| < maxrecords ==> file == Some(old(file).value + newline)
      ensures loop_uptime_event == old(loop_uptime_event)
    {
      hide Concat, Uptime, Header, BlankLine2, Ring.View;
      ghost var before := State();
      Ring.CountOf(cache[..], nextline);
      var full := cache[nextline].Some?;
      assert cache[..maxrecords] == cache[..];
      nextline := Ring.Write(cache, maxrecords, nextline, newline, before.ring.value);
      assert cache[..maxrecords] == cache[..];
      Ring.CountOf(cache[..], nextline);
      if !full {
        AppendedText(file.value, newline);
        file := Some(file.value + newline);
      } else {
        RewriteHistoryFile(now);
      }
    }

    /** update_history_file. A line too long for its buffer is cut, and then not good; the file
        and the slots are what the abstract update says all the same. */
    method UpdateHistoryFile(entry: Option<Entry>, now: nat) returns (res: int)
      requires Valid() && ClockOk(now)
      modifies this, cache
      ensures entry.None? || !Complete(entry.value) ==>
        res == -22 && Valid() && State() == old(State()) && file == old(file)
      ensures entry.Some? && Complete(entry.value) ==>
        res == 0 && Stores(Update(old(State()), HistoryLine(entry.value), now, maxrecords))
      ensures entry.Some? && Complete(entry.value) && GoodLine(HistoryLine(entry.value)) ==>
        Valid() && State() == Update(old(State()), HistoryLine(entry.value), now, maxrecords)
      ensures entry.Some? && Complete(entry.value) && old(State()).file.Some? && old(State()).ring.Some? &&
              |old(State()).ring.value| < maxrecords ==>
        file == Some(old(file).value + HistoryLine(entry.value))
      ensures loop_uptime_event == old(loop_uptime_event)
    {
      if entry.None? || !Complete(entry.value) {
        return -EINVAL;
      }
      MakeReady(now);
      ghost var line := HistoryLine(entry.value);
      ghost var after := Update(old(State()), line, now, maxrecords);
      UpdateOfReady(old(State()), line, now, maxrecords);
      AddLine(HistoryLine(entry.value), now);
      if GoodLine(line) {
        UpdateWellFormed(old(State()), line, now, maxrecords);
        TextOfLines(after.file.value);
      }
      res := 0;
    }

    /** uptime_history, with the date it computes; lastbootuptime is passed and returned. */
    method UptimeHistory(datelong: string, lastbootuptime: string) returns (res: int, bootuptime: string)
      requires Valid() && DateOk(datelong) && UptimeOk(lastbootuptime)
      modifies this`file
      ensures Valid() && State() == Boot(old(State()), datelong, lastbootuptime)
      ensures old(file).None? ==> res == -2 && bootuptime == lastbootuptime
      ensures old(file).Some? ==> res == if ScanHeader(old(file).value, lastbootuptime).Some? then 0 else -1
      ensures res == 0 ==> Some(bootuptime) == ScanHeader(old(file).value, lastbootuptime)
    {
      bootuptime := lastbootuptime;
      if file.None? {
        return -ENOENT, bootuptime;
      }
      LinesConcat(file.value);
      BootWellFormed(State(), datelong, lastbootuptime, maxrecords);
      var scanned := ScanHeader(file.value, lastbootuptime);
      if scanned.None? {
        return -1, bootuptime;
      }
      bootuptime := scanned.value;
      ScannedUptimeOk(file.value, lastbootuptime);
      WriteBoot(datelong, bootuptime);
      res := 0;
    }

    /** The part of uptime_history that writes: the header in place, the event at the end. */
    method WriteBoot(datelong: string, bootuptime: string)
      requires DateOk(datelong) && UptimeOk(bootuptime)
      requires file.Some? && TextOk(file.value) && AllGood(Lines(file.value)) && |Lines(file.value)| >= 2
      requires IsHeader(Lines(file.value)[0])
      modifies this`file
      ensures file.Some? && TextOk(file.value)
      ensures Lines(file.value) ==
              old(Lines(file.value))[0 := BlankLine1()] + [HistoryLine(BootEntry(bootuptime, datelong))]
    {
      BootLineGood(bootuptime, datelong);
      BlankLinesAreGood();
      TextStamp(file.value, BlankLine1());
      file := Some(DeleteCommand.Overwrite(file.value, 0, BlankLine1()));
      var line := PadRight("UPTIME", 8) + "00000000000000000000" + "  " + PadRight(datelong, 20) + bootuptime + "\n";
      TextAppend(file.value, line);
      file := Some(file.value + line);
    }

    /** history_has_event */
    method HistoryHasEvent(eventdir: Option<string>, now: nat) returns (res: int)
      requires Valid() && ClockOk(now)
      modifies this, cache
      ensures eventdir.None? ==> res == -22 && Valid() && State() == old(State())
      ensures eventdir.Some? ==>
        && Valid() && State() == Cached(old(State()), now, maxrecords)
        && res == if Mentions(State().ring.value, eventdir.value) then 1 else 0
      ensures loop_uptime_event == old(loop_uptime_event)
    {
      if eventdir.None? {
        return -EINVAL;
      }
      if nextline < 0 {
        var cached := CacheHistoryFile(now);
      }
      res := SearchCache(eventdir.value);
    }

    method SearchCache(eventdir: string) returns (res: int)
      requires cache.Length == maxrecords && nextline >= 0 && Ring.View(cache[..], nextline).Some?
      ensures res == if Mentions(Ring.View(cache[..], nextline).value, eventdir) then 1 else 0
    {
      ghost var lines := Ring.View(cache[..], nextline).value;
      for idx := 0 to maxrecords
        invariant forall i :: 0 <= i < idx && cache[i].Some? ==> !Contains(cache[i].value, eventdir)
      {
        if cache[idx].Some? && Contains(cache[idx].value, eventdir) {
          Ring.ContentSlots(cache[..], nextline, cache[idx].value);
          assert Mentions(lines, eventdir);
          return 1;
        }
      }
      forall l | l in lines ensures !Contains(l, eventdir) {
        Ring.ContentSlots(cache[..], nextline, l);
      }
      res := 0;
    }

    /** reset_uptime_history, without the uptime file it also creates */
    method ResetUptimeHistory(now: nat) returns (res: int)
      requires Valid() && ClockOk(now)
      modifies this, cache
      ensures Valid() && State() == ResetUptime(old(State()), now, maxrecords)
      ensures res == 0 && loop_uptime_event == old(loop_uptime_event)
    {
      ResetWellFormed(State(), now, maxrecords);
      BlankLinesAreGood();
      if nextline < 0 {
        var cached := CacheHistoryFile(now);
      }
      WriteHeader(BlankLine1());
      res := 0;
    }

    method WriteHeader(firstline: string)
      requires IsHeader(firstline)
      modifies this`file
      ensures FileLines(file) == Some([firstline, BlankLine2()]) && TextOk(file.value)
    {
      BlankLinesAreGood();
      TextOfLines([firstline, BlankLine2()]);
      ConcatTwo(firstline, BlankLine2());
      file := Some(firstline + BlankLine2());
    }

    /** add_uptime_event without its clean-up. `now` is the uptime read for the first line; if
        the event is raised, `again` is the one read for it, `key` and `time` are computed for
        it. */
    method StampAndRaise(now: nat, freq: nat, again: nat, key: string, time: string) returns (res: int)
      requires Valid() && ClockOk(now) && ClockOk(again) && freq > 0
      requires GoodLine(HistoryLine(UptimeEntry(again, key, time)))
      modifies this, cache
      ensures old(file).None? ==> res == -2 && Valid() && State() == old(State()) &&
                                  loop_uptime_event == old(loop_uptime_event)
      ensures old(file).Some? ==>
        && res == 0 && Valid()
        && loop_uptime_event == NextLoop(now / 3600, freq, old(loop_uptime_event))
        && State() == if now / 3600 / freq >= old(loop_uptime_event)
                      then Update(Stamp(old(State()), now), HistoryLine(UptimeEntry(again, key, time)), again,
                                  maxrecords)
                      else Stamp(old(State()), now)
    {
      if file.None? {
        return -ENOENT;
      }
      StampFile(now);
      var hours := now / 3600;
      if hours / freq >= loop_uptime_event {
        var updated := UpdateHistoryFile(Some(UptimeEntry(again, key, time)), again);
        loop_uptime_event := hours / freq + 1;
      }
      res := 0;
    }

    /** The header of the file is rewritten in place. */
    method StampFile(now: nat)
      requires Valid() && ClockOk(now) && file.Some?
      modifies this`file, this`saved
      ensures Valid() && State() == Stamp(old(State()), now)
    {
      StampWellFormed(State(), now, maxrecords);
      var firstline := Header(Uptime(now));
      UptimeFits(now);
      HeaderIsHeader(Uptime(now));
      TextStamp(file.value, firstline);
      saved := Some(Uptime(now));
      file := Some(DeleteCommand.Overwrite(file.value, 0, firstline));
    }

    /** update_history_on_cmd_delete: the file is edited, the cache is not. */
    method UpdateHistoryOnCmdDelete(events: Option<string>) returns (res: int, dirs: seq<string>)
      requires Valid() && |DeleteCommand.Patterns(events)| <= DeleteCommand.MAXPATTERNS
      modifies this`file
      ensures Valid()
      ensures res == 0 <==> file.Some? && DeleteCommand.Patterns(events) != []
      ensures res != 0 ==> res == -1 && file == old(file) && dirs == []
      ensures res == 0 ==>
        && State() == Delete(old(State()), DeleteCommand.Patterns(events))
        && dirs == DeleteCommand.Dirs(old(file).value, DeleteCommand.Patterns(events))
    {
      if file.Some? {
        TextFits(file.value);
        TextMark(file.value, DeleteCommand.Patterns(events));
      }
      res, file, dirs := DeleteCommand.UpdateOnDelete(file, events);
    }
  }

  function UptimeEntry(seconds: nat, key: string, time: string): Entry {
    Entry("UPTIME", Some(""), None, Some(Uptime(seconds)), Some(key), Some(time))
  }

  /** The line of an uptime event. */
  lemma {:induction false} UptimeLine(seconds: nat, key: string, time: string)
    requires |key| <= 22 && |time| <= 20 && ClockOk(seconds)
    ensures HistoryLine(UptimeEntry(seconds, key, time)) ==
            "UPTIME  " + key + Spaces(22 - |key|) + time + Spaces(20 - |time|) + Uptime(seconds) + "\n"
  {
    UptimeFits(seconds);
    assert PadRight("UPTIME", 8) == "UPTIME  ";
  }

  lemma {:induction false} TextFits(text: string)
    requires AllGood(Lines(text))
    ensures LinesFit(text)
  {
  }

  /** Marking keeps the file one that the history can use. */
  lemma {:induction false} TextMark(text: string, patterns: seq<string>)
    requires TextOk(text) && AllGood(Lines(text)) && |Lines(text)| >= 2 && IsHeader(Lines(text)[0])
    ensures var t := DeleteCommand.Mark(text, patterns);
            && TextOk(t) && AllGood(Lines(t)) && |Lines(t)| >= 2 && IsHeader(Lines(t)[0])
            && Lines(t) == MarkAll(Lines(text), patterns)
  {
    var t := DeleteCommand.Mark(text, patterns);
    DeleteCommand.MarkIsLineWise(text, patterns);
    forall i | 0 <= i < |Lines(t)| ensures GoodLine(Lines(t)[i]) {
      MarkedIsGood(Lines(text)[i], patterns);
    }
    LinesConcat(t);
    TextOfLines(Lines(t));
  }

  lemma {:induction false} AppendedText(text: string, line: string)
    ensures text + line == Concat(Lines(text) + [line])
  {
    LinesConcat(text);
    ConcatSnoc(Lines(text), line);
  }

  lemma {:induction false} UpdateOfReady(log: Log, line: string, now: nat, n: nat)
    ensures Update(Ready(log, now, n), line, now, n) == Update(log, line, now, n)
  {
  }

  /** What the file holds once `k` lines of the cache are written after its first lines. */
  function Written(top: seq<string>, lines: seq<string>, k: int): string
    requires 0 <= k <= |lines|
  {
    Concat(top + lines[..k])
  }

  lemma {:induction false} WrittenEnds(top: seq<string>, lines: seq<string>)
    ensures Written(top, lines, 0) == Concat(top)
    ensures Written(top, lines, |lines|) == Concat(top + lines)
  {
    assert top + lines[..0] == top;
    assert lines[..|lines|] == lines;
  }

  lemma {:induction false} WrittenNext(top: seq<string>, lines: seq<string>, k: int)
    requires 0 <= k < |lines|
    ensures Written(top, lines, k + 1) == Written(top, lines, k) + lines[k]
  {
    ConcatSnoc(top + lines[..k], lines[k]);
    assert top + lines[..k] + [lines[k]] == top + lines[..k + 1];
  }
}
