/**
 clean_crashlog_in_sd (crashlog/crashutils.c): removes log directories that the history does
 not mention, a few at a time.
 */
module LegacyCleaner {
  import opened Text
  import opened HistoryEntry
  import opened HistoryModel
  import HistoryLog

  const KINDS := ["/mnt/sdcard/logs/crashlog", "/mnt/sdcard/logs/stats", "/mnt/sdcard/logs/aplogs"]

  predicate IsLogDir(path: string) {
    Contains(path, KINDS[0]) || Contains(path, KINDS[1]) || Contains(path, KINDS[2])
  }

  const ROOT := "/mnt/sdcard/logs/"

  /** The slashes of a path under the root. */
  lemma {:induction false} Slashes(name: string, i: nat)
    requires '/' !in name && i < |ROOT + name| && (ROOT + name)[i] == '/'
    ensures i == 0 || i == 4 || i == 11 || i == 16
  {
    assert forall j :: 17 <= j < |ROOT + name| ==> (ROOT + name)[j] == name[j - 17];
  }

  lemma {:induction false} LeafAtStart(name: string, leaf: string)
    requires '/' !in name
    ensures Contains(ROOT + name, ROOT + leaf) <==> leaf <= name
  {
    ContainsExactly(ROOT + name, ROOT + leaf);
    hide Contains;
    if leaf <= name {
      assert OccursAt(ROOT + name, ROOT + leaf, 0);
    }
    forall at: nat | OccursAt(ROOT + name, ROOT + leaf, at)
      ensures leaf <= name
    {
      var here := (ROOT + name)[at..at + |ROOT + leaf|];
      assert here == ROOT + leaf && (ROOT + leaf)[0] == ROOT[0] == '/' && (ROOT + leaf)[4] == ROOT[4] == '/';
      assert here[0] == '/' && here[4] == '/';
      Slashes(name, at);
      Slashes(name, at + 4);
      assert at == 0;
      assert (ROOT + name)[..|ROOT + leaf|][17..] == leaf;
    }
  }

  /** An entry of the log directory of the SD card is a log directory exactly when its name starts
      with that of a kind. */
  lemma {:induction false} LogDirNames(name: string)
    requires '/' !in name
    ensures IsLogDir("/mnt/sdcard/logs" + "/" + name) <==> "crashlog" <= name || "stats" <= name || "aplogs" <= name
  {
    assert "/mnt/sdcard/logs" + "/" + name == ROOT + name;
    LeafAtStart(name, "crashlog");
    LeafAtStart(name, "stats");
    LeafAtStart(name, "aplogs");
    assert KINDS[0] == ROOT + "crashlog" && KINDS[1] == ROOT + "stats" && KINDS[2] == ROOT + "aplogs";
  }

  /** The path, if it is a log directory that no line mentions. */
  ghost function LegacyPath(path: string, lines: seq<string>): (r: seq<string>)
    ensures |r| <= 1 && (r != [] ==> IsLogDir(path))
  {
    if IsLogDir(path) && !Mentions(lines, path) then [path] else []
  }

  /** The log directories that some lines do not mention, in the order of the listing. */
  ghost function Legacy(dir: string, names: seq<string>, lines: seq<string>): (r: seq<string>)
    ensures forall p :: p in r ==> IsLogDir(p) && !Mentions(lines, p)
  {
    if names == [] then [] else LegacyPath(dir + "/" + names[0], lines) + Legacy(dir, names[1..], lines)
  }

  /** They are exactly the log directories of the listing that no line mentions. */
  lemma {:induction false} LegacyExactly(dir: string, names: seq<string>, lines: seq<string>, p: string)
    ensures p in Legacy(dir, names, lines) <==>
            IsLogDir(p) && !Mentions(lines, p) && exists name :: name in names && p == dir + "/" + name
  {
    hide IsLogDir, Mentions;
    if names != [] {
      LegacyExactly(dir, names[1..], lines, p);
      assert forall name :: name in names <==> name == names[0] || name in names[1..];
    }
  }

  /** They are in the order of the listing. */
  lemma {:induction false} LegacyConcat(dir: string, a: seq<string>, b: seq<string>, lines: seq<string>)
    ensures Legacy(dir, a + b, lines) == Legacy(dir, a, lines) + Legacy(dir, b, lines)
  {
    hide IsLogDir, Mentions;
    if a == [] {
      assert a + b == b;
    } else {
      assert (a + b)[1..] == a[1..] + b;
      LegacyConcat(dir, a[1..], b, lines);
      Assoc(LegacyPath(dir + "/" + a[0], lines), Legacy(dir, a[1..], lines), Legacy(dir, b, lines));
    }
  }

  /** The lines that the cleaner asks: those of the cache, loaded if it was not. */
  function Asked(log: Log, now: nat, n: nat): seq<string> {
    Cached(log, now, n).ring.value
  }

  /** A directory mentioned in one of the last n events of the file survives. */
  lemma {:induction false} LoggedDirsSurvive(log: Log, now: nat, n: nat, dir: string, names: seq<string>, path: string)
    requires InSync(log, n) && log.file.Some? && Mentions(View(log, n), path)
    ensures path !in Legacy(dir, names, Asked(log, now, n))
  {
    QueryView(log, now, n, path);
  }

  /** The listing has a directory that the cleaner asks the history about. */
  ghost predicate AsksAny(dir: string, names: seq<string>) {
    exists name :: name in names && IsLogDir(dir + "/" + name)
  }

  /** One more name of the listing. */
  lemma {:induction false} CleanTurn(dir: string, names: seq<string>, k: nat, lines: seq<string>, removed: seq<string>)
    requires k < |names|
    ensures removed + Legacy(dir, names[k..], lines) ==
            removed + LegacyPath(dir + "/" + names[k], lines) + Legacy(dir, names[k + 1..], lines)
    ensures AsksAny(dir, names[..k + 1]) <==> AsksAny(dir, names[..k]) || IsLogDir(dir + "/" + names[k])
  {
    hide IsLogDir, Mentions;
    assert names[k..][1..] == names[k + 1..];
    assert names[..k + 1] == names[..k] + [names[k]];
    assert forall x :: x in names[..k + 1] <==> x in names[..k] || x == names[k];
    Assoc(removed, LegacyPath(dir + "/" + names[k], lines), Legacy(dir, names[k + 1..], lines));
  }

  /** Where the listing ends, or the first `max` directories are removed. */
  lemma {:induction false} CleanEnd(dir: string, names: seq<string>, k: nat, lines: seq<string>, removed: seq<string>,
          max: nat)
    requires k <= |names| && |removed| <= max && (k == |names| || |removed| == max > 0)
    requires removed != [] ==> AsksAny(dir, names[..k])
    ensures var legacy := removed + Legacy(dir, names[k..], lines);
            && removed == legacy[..Min(|legacy|, max)] && (|removed| < max <==> |legacy| < max)
    ensures AsksAny(dir, names[..k]) <==> AsksAny(dir, names)
  {
    hide IsLogDir;
    if k == |names| {
      assert names[..k] == names && names[k..] == [];
    } else {
      assert forall x :: x in names[..k] ==> x in names;
    }
  }

  /** The history after the cleaner: the first question loads the cache. */
  function AfterAsking(log: Log, asked: bool, now: nat, n: nat): Log {
    if asked then Cached(log, now, n) else log
  }

  lemma {:induction false} NotAsked(log: Log, dir: string, now: nat, n: nat)
    ensures AfterAsking(log, AsksAny(dir, []), now, n) == log
  {
  }

  /** One name of the listing. */
  method CleanPath(history: HistoryLog.History, path: string, now: nat, ghost before: Log, ghost asked: bool)
    returns (removed: seq<string>)
    requires history.Valid() && history.State() == AfterAsking(before, asked, now, history.maxrecords) && ClockOk(now)
    modifies history, history.cache
    ensures history.Valid()
    ensures history.State() == AfterAsking(before, asked || IsLogDir(path), now, history.maxrecords)
    ensures removed == LegacyPath(path, Asked(before, now, history.maxrecords))
    ensures history.loop_uptime_event == old(history.loop_uptime_event)
  {
    removed := [];
    if IsLogDir(path) {
      var logged := history.HistoryHasEvent(Some(path), now);
      if logged == 0 {
        removed := [path];
      }
    }
  }

  /** clean_crashlog_in_sd: what is removed, and the value given to gabortcleansd. */
  method CleanCrashlogInSd(history: HistoryLog.History, dir: string, listing: Option<seq<string>>, max: nat, now: nat)
    returns (removed: seq<string>, abort: bool)
    requires history.Valid() && ClockOk(now) && max > 0
    modifies history, history.cache
    ensures history.Valid() && history.loop_uptime_event == old(history.loop_uptime_event)
    ensures var names, n := if listing.None? then [] else listing.value, history.maxrecords;
            var legacy := Legacy(dir, names, Asked(old(history.State()), now, n));
            && history.State() == (if AsksAny(dir, names) then Cached(old(history.State()), now, n)
                                   else old(history.State()))
            && removed == legacy[..Min(|legacy|, max)] && abort == (|legacy| < max)
  {
    ghost var n: nat, before := history.maxrecords, history.State();
    ghost var lines := Asked(before, now, n);
    var names := if listing.None? then [] else listing.value;
    NotAsked(before, dir, now, n);
    assert names[..0] == [] && names[0..] == names && [] + Legacy(dir, names, lines) == Legacy(dir, names, lines);
    assert AfterAsking(before, true, now, n) == Cached(before, now, n) && AfterAsking(before, false, now, n) == before;
    hide AfterAsking, AsksAny, IsLogDir, Mentions, Legacy, LegacyPath;
    var k := 0;
    removed := [];
    while k < |names| && |removed| < max
      invariant history.Valid() && history.loop_uptime_event == old(history.loop_uptime_event)
      invariant 0 <= k <= |names| && |removed| <= max
      invariant history.State() == AfterAsking(before, AsksAny(dir, names[..k]), now, n)
      invariant removed != [] ==> AsksAny(dir, names[..k])
      invariant removed + Legacy(dir, names[k..], lines) == Legacy(dir, names, lines)
    {
      CleanTurn(dir, names, k, lines, removed);
      var one := CleanPath(history, dir + "/" + names[k], now, before, AsksAny(dir, names[..k]));
      removed := removed + one;
      k := k + 1;
    }
    CleanEnd(dir, names, k, lines, removed, max);
    abort := |removed| < max;
  }

  const LOGS_DIR := "/mnt/sdcard/logs"

  /** add_uptime_event, which cleans up after it has read the uptime and before it writes the
      header, unless an earlier clean-up has said that nothing is left. `clean` is
      gabortcleansd. */
  method AddUptimeEvent(history: HistoryLog.History, clean: bool, listing: Option<seq<string>>, now: nat, freq: nat,
                        again: nat, key: string, time: string)
    returns (res: int, removed: seq<string>, clean': bool)
    requires history.Valid() && ClockOk(now) && ClockOk(again) && freq > 0
    requires GoodLine(HistoryLine(HistoryLog.UptimeEntry(again, key, time)))
    modifies history, history.cache
    ensures history.Valid()
    ensures old(history.file).None? ==>
              && res == -2 && removed == [] && clean' == clean
              && history.State() == old(history.State())
              && history.loop_uptime_event == old(history.loop_uptime_event)
    ensures old(history.file).Some? ==>
              var names, n := if listing.None? then [] else listing.value, history.maxrecords;
              var legacy := Legacy("/mnt/sdcard/logs", names, Asked(old(history.State()), now, n));
              var log := if !clean && AsksAny("/mnt/sdcard/logs", names) then Cached(old(history.State()), now, n)
                         else old(history.State());
              && res == 0
              && removed == (if clean then [] else legacy[..Min(|legacy|, 10)])
              && clean' == (clean || |legacy| < 10)
              && history.loop_uptime_event == NextLoop(now / 3600, freq, old(history.loop_uptime_event))
              && history.State() ==
                 if now / 3600 / freq >= old(history.loop_uptime_event)
                 then Update(Stamp(log, now), HistoryLine(HistoryLog.UptimeEntry(again, key, time)), again, n)
                 else Stamp(log, now)
  {
    removed, clean' := [], clean;
    if history.file.None? {
      return -HistoryLog.ENOENT, removed, clean';
    }
    if !clean {
      removed, clean' := CleanCrashlogInSd(history, LOGS_DIR, listing, 10, now);
    }
    res := history.StampAndRaise(now, freq, again, key, time);
  }
}
