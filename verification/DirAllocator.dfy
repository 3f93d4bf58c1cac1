/**
 The rotating log directories of crashlog/fsutils.c: a counter kept in a file as "%4u",
 read_file, update_file, reset_file and find_new_crashlog_dir.
 */
module DirAllocator {
  import opened Text
  import opened Decimal
  import opened Scan
  import Modulo

  const UINT_MOD := 0x1_0000_0000

  // ----- the counter file -----

  /** "%4u": right-justified, never truncated. */
  function Print4(n: nat): string {
    Spaces(Max(4 - |Dec(n)|, 0)) + Dec(n)
  }

  /** fscanf("%4u"): blanks, then at most four characters, sign included; a minus sign
      negates modulo the size of the type. None when no number is there. */
  function Scan4(s: string): Option<nat> {
    var t := SkipBlanks(s);
    var signed := t != "" && (t[0] == '-' || t[0] == '+');
    var digits := if signed then DigitRun(t[1..], 3) else DigitRun(t, 4);
    if digits == "" then None
    else if signed && t[0] == '-' && Value(digits) > 0 then
      ValueBound(digits);
      assert Pow10(|digits|) <= 10000 by { Pow10Mono(|digits|, 4); assert Pow10(4) == 10000; }
      Some(UINT_MOD - Value(digits))
    else Some(Value(digits))
  }

  lemma {:induction false} Pow10Mono(a: nat, b: nat)
    requires a <= b
    ensures Pow10(a) <= Pow10(b)
    decreases b
  {
    if a < b {
      Pow10Mono(a, b - 1);
    }
  }

  /** The value read from a counter file: 0 when it holds no number. */
  function Current(file: string): nat {
    if Scan4(file).Some? then Scan4(file).value else 0
  }

  /** What writing `text` at the start of a file leaves. */
  function WriteOver(file: string, text: string): string {
    text + if |file| > |text| then file[|text|..] else ""
  }

  /** The file once its counter has been written. */
  function Written(file: string, n: nat): string {
    WriteOver(file, Print4(n))
  }

  lemma {:induction false} DigitRunCons(c: char, s: string, width: nat)
    requires IsDigit(c) && width > 0
    ensures DigitRun([c] + s, width) == [c] + DigitRun(s, width - 1)
  {
    assert ([c] + s)[1..] == s;
  }

  lemma {:induction false} DigitRunOver(d: string, s: string, width: nat)
    requires AllDigits(d) && |d| <= width
    ensures DigitRun(d + s, width) == d + DigitRun(s, width - |d|)
  {
    if d == "" {
      assert d + s == s;
    } else {
      var c, tail := d[0], d[1..];
      assert d == [c] + tail;
      Assoc([c], tail, s);
      DigitRunCons(c, tail + s, width);
      DigitRunOver(tail, s, width - 1);
      Assoc([c], tail, DigitRun(s, width - |d|));
    }
  }

  lemma {:induction false} ScanNumber(k: nat, d: string, rest: string)
    requires k + |d| == 4 && AllDigits(d) && d != ""
    ensures AllDigits(d + DigitRun(rest, k))
    ensures Current(Spaces(k) + (d + rest)) == Value(d + DigitRun(rest, k))
  {
    var t, digits := d + rest, d + DigitRun(rest, k);
    assert t[0] == d[0] && IsDigit(d[0]);
    assert SkipBlanks(Spaces(k) + t) == t by {
      SkipBlanksOver(k, t);
    }
    assert DigitRun(t, 4) == digits by {
      DigitRunOver(d, rest, 4);
    }
    ScanUnsigned(Spaces(k) + t, t, digits);
  }

  lemma {:induction false} ScanUnsigned(s: string, t: string, digits: string)
    requires SkipBlanks(s) == t && t != "" && IsDigit(t[0])
    requires DigitRun(t, 4) == digits
    ensures AllDigits(digits) && Current(s) == Value(digits)
  {
    assert digits != "";
  }

  /** A sign takes one of the four characters, and a minus sign negates modulo 2^32. */
  lemma {:induction false} ScanSigned(k: nat, sign: char, d: string, rest: string)
    requires sign in {'-', '+'} && AllDigits(d) && 0 < |d| <= 3 && (rest == "" || !IsDigit(rest[0]))
    ensures Current(Spaces(k) + ([sign] + d + rest)) ==
            if sign == '-' && Value(d) > 0 then 0x1_0000_0000 - Value(d) else Value(d)
  {
    var t := [sign] + d + rest;
    SkipBlanksOver(k, t);
    assert t[1..] == d + rest;
    DigitRunOver(d, rest, 3);
    assert d + "" == d;
  }

  /** Without digits there is no number, and the counter counts as 0. */
  lemma {:induction false} ScanNothing(k: nat, s: string)
    requires s == "" || !(IsSpace(s[0]) || IsDigit(s[0]) || s[0] in {'-', '+'}) ||
             (s[0] in {'-', '+'} && (|s| == 1 || !IsDigit(s[1])))
    ensures Current(Spaces(k) + s) == 0
  {
    SkipBlanksOver(k, s);
  }

  lemma {:induction false} WrittenShape(file: string, n: nat)
    requires n < 10000
    ensures |Dec(n)| <= 4 == |Print4(n)|
    ensures Written(file, n) == Spaces(4 - |Dec(n)|) + (Dec(n) + file[Min(4, |file|)..])
  {
    assert Pow10(4) == 10000;
    DecLength(n, 4);
    Assoc(Spaces(4 - |Dec(n)|), Dec(n), file[Min(4, |file|)..]);
  }

  /** Reading back the counter sees its digits and those that happen to follow them. */
  lemma {:induction false} ScanWritten(file: string, n: nat)
    requires n < 10000
    ensures |Dec(n)| <= 4 == |Print4(n)|
    ensures AllDigits(Dec(n) + DigitRun(file[Min(4, |file|)..], 4 - |Dec(n)|))
    ensures Current(Written(file, n)) == Value(Dec(n) + DigitRun(file[Min(4, |file|)..], 4 - |Dec(n)|))
  {
    WrittenShape(file, n);
    ScanNumber(4 - |Dec(n)|, Dec(n), file[Min(4, |file|)..]);
  }

  /** No digit follows the four characters of the counter. */
  predicate Clean(file: string) {
    |file| > 4 ==> !IsDigit(file[4])
  }

  /** The counter that update_file writes is the one that read_file reads back, for every
      number of at most three digits, if and only if no digit follows the counter. */
  lemma {:induction false} CounterRoundTrip(file: string)
    ensures (forall n :: 0 <= n < 1000 ==> Current(Written(file, n)) == n) <==> Clean(file)
  {
    if Clean(file) {
      forall n | 0 <= n < 1000 ensures Current(Written(file, n)) == n {
        CleanRoundTrip(file, n);
      }
    } else {
      ScanWritten(file, 1);
      var tail := DigitRun(file[4..], 3);
      assert Dec(1) == [Digit(1)] && tail != "";
      ValueOfDec(1);
      ValueOfConcat(Dec(1), tail);
      Pow10Mono(1, |tail|);
      assert Pow10(1) == 10;
      assert Current(Written(file, 1)) != 1;
    }
  }

  lemma {:induction false} CleanRoundTrip(file: string, n: nat)
    requires n < 10000 && Clean(file)
    ensures Current(Written(file, n)) == n
    ensures Clean(Written(file, n))
  {
    ScanWritten(file, n);
    ValueOfDec(n);
    assert DigitRun(file[Min(4, |file|)..], 4 - |Dec(n)|) == "";
    assert Dec(n) + "" == Dec(n);
  }

  /** A number of five digits is cut to its first four. */
  lemma {:induction false} FiveDigitsLost(file: string)
    ensures Current(Written(file, 10000)) == 1000
  {
    TenThousand();
    var s := Written(file, 10000);
    assert s[..4] == "1000" && s == s[..4] + s[4..];
    hide Current, Written, Dec;
    DigitRunOver("1000", s[4..], 4);
    assert "1000" + DigitRun(s[4..], 0) == "1000";
    assert SkipBlanks(s) == s;
    ScanUnsigned(s, s, "1000");
    ValueOfDec(1000);
  }

  lemma {:induction false} TenThousand()
    ensures Dec(10000) == "10000" && Dec(1000) == "1000"
  {
    assert Dec(1) == "1" && Dec(10) == "10" && Dec(100) == "100";
  }

  // ----- one allocation -----

  /** The value written after the index `current` has been handed out. */
  function Successor(current: nat, gmaxfiles: int): (n: nat)
    requires gmaxfiles > 0
    ensures n < gmaxfiles
  {
    (current + 1) % UINT_MOD % gmaxfiles
  }

  /** The counter file that read_file works on: it creates a missing one. */
  function Opened(file: Option<string>): string {
    if file.None? then Print4(0) else file.value
  }

  function AfterAllocation(file: Option<string>, gmaxfiles: int): string
    requires gmaxfiles > 0
  {
    Written(Opened(file), Successor(Current(Opened(file)), gmaxfiles))
  }

  lemma {:induction false} OpenedMissing()
    ensures Clean(Opened(None)) && Current(Opened(None)) == 0
  {
    CleanRoundTrip("", 0);
    assert Written("", 0) == Print4(0);
  }

  /** From every clean counter file the next index is the successor of the last one if and
      only if the number of directories is at most 10000. */
  lemma {:induction false} StepExact(gmaxfiles: int)
    requires gmaxfiles > 0
    ensures (forall file :: Clean(file) ==>
              Current(AfterAllocation(Some(file), gmaxfiles)) == Successor(Current(file), gmaxfiles))
            <==> gmaxfiles <= 10000
  {
    if gmaxfiles <= 10000 {
      forall file | Clean(file)
        ensures Current(AfterAllocation(Some(file), gmaxfiles)) == Successor(Current(file), gmaxfiles)
      {
        CleanRoundTrip(file, Successor(Current(file), gmaxfiles));
      }
    } else {
      StepFails(gmaxfiles);
      assert Clean(Written("", 9999));
    }
  }

  lemma {:induction false} StepFails(gmaxfiles: int)
    requires gmaxfiles > 10000
    ensures Clean(Written("", 9999))
    ensures Current(AfterAllocation(Some(Written("", 9999)), gmaxfiles)) == 1000
    ensures Successor(Current(Written("", 9999)), gmaxfiles) == 10000
  {
    CleanRoundTrip("", 9999);
    SuccessorOfLast(gmaxfiles);
    FiveDigitsLost(Written("", 9999));
  }

  lemma {:induction false} SuccessorOfLast(gmaxfiles: int)
    requires gmaxfiles > 10000
    ensures Successor(9999, gmaxfiles) == 10000
  {
    Modulo.ModOnce(10000, gmaxfiles);
  }

  // ----- directories -----

  datatype Mode = Crash | CrashNoSd | Stats | Aplogs | Bz | Kdump | Invalid

  datatype Counter = CrashCounter | StatsCounter | AplogsCounter | BzCounter

  datatype Kind = CrashDirs | StatsDirs | AplogsDirs | BzDirs | KdumpDirs

  /** A directory: its kind, whether it is on the SD card, its index. */
  datatype Dir = Dir(kind: Kind, sdcard: bool, index: int)

  function CounterOf(mode: Mode): Counter
    requires !mode.Invalid?
  {
    match mode
    case Crash | CrashNoSd | Kdump => CrashCounter
    case Stats => StatsCounter
    case Aplogs => AplogsCounter
    case Bz => BzCounter
  }

  /** `sdcard` says whether the SD card is mounted and allowed. */
  function DirOf(mode: Mode, sdcard: bool, index: int): Dir
    requires !mode.Invalid?
  {
    match mode
    case Crash => Dir(CrashDirs, sdcard, index)
    case CrashNoSd => Dir(CrashDirs, false, index)
    case Stats => Dir(StatsDirs, sdcard, index)
    case Aplogs => Dir(AplogsDirs, sdcard, index)
    case Bz => Dir(BzDirs, sdcard, index)
    case Kdump => Dir(KdumpDirs, false, index)
  }

  /** The counter file of a counter. */
  function CounterPath(counter: Counter): string {
    match counter
    case CrashCounter => "/logs/currentcrashlog"
    case StatsCounter => "/logs/currentstatslog"
    case AplogsCounter => "/logs/currentaplogslog"
    case BzCounter => "/logs/currentbzlog"
  }

  /** The path of a directory, without its index. */
  function Base(dir: Dir): string {
    match dir.kind
    case CrashDirs => if dir.sdcard then "/mnt/sdcard/logs/crashlog" else "/logs/crashlog"
    case StatsDirs => if dir.sdcard then "/mnt/sdcard/logs/stats" else "/logs/stats"
    case AplogsDirs => if dir.sdcard then "/mnt/sdcard/logs/aplogs" else "/logs/aplogs"
    case BzDirs => if dir.sdcard then "/mnt/sdcard/logs/bz" else "/logs/bz"
    case KdumpDirs => "/data/media/logs/crashlog"
  }

  /** Where the requests of each mode go: the file of its counter, and the path of the directory
      that gets an index. */
  lemma {:induction false} PathsOf(sdcard: bool, index: int)
    ensures CounterPath(CounterOf(Crash)) == CounterPath(CounterOf(CrashNoSd)) == CounterPath(CounterOf(Kdump)) ==
            "/logs/currentcrashlog"
    ensures CounterPath(CounterOf(Stats)) == "/logs/currentstatslog"
    ensures CounterPath(CounterOf(Aplogs)) == "/logs/currentaplogslog"
    ensures CounterPath(CounterOf(Bz)) == "/logs/currentbzlog"
    ensures Base(DirOf(Crash, sdcard, index)) == if sdcard then "/mnt/sdcard/logs/crashlog" else "/logs/crashlog"
    ensures Base(DirOf(Stats, sdcard, index)) == if sdcard then "/mnt/sdcard/logs/stats" else "/logs/stats"
    ensures Base(DirOf(Aplogs, sdcard, index)) == if sdcard then "/mnt/sdcard/logs/aplogs" else "/logs/aplogs"
    ensures Base(DirOf(Bz, sdcard, index)) == if sdcard then "/mnt/sdcard/logs/bz" else "/logs/bz"
    ensures Base(DirOf(CrashNoSd, sdcard, index)) == "/logs/crashlog"
    ensures Base(DirOf(Kdump, sdcard, index)) == "/data/media/logs/crashlog"
  {
  }

  /** Two requests get one directory exactly when they have one index, and are of one mode on one
      medium, crashes being kept off the SD card in two ways. */
  lemma {:induction false} SharedDir(a: Request, i: int, b: Request, j: int)
    requires !a.mode.Invalid? && !b.mode.Invalid?
    ensures DirOf(a.mode, a.sdcard, i) == DirOf(b.mode, b.sdcard, j) <==>
            && i == j
            && (a.mode == b.mode || (a.mode in {Crash, CrashNoSd} && b.mode in {Crash, CrashNoSd}))
            && (a.mode == Kdump || (a.sdcard && a.mode != CrashNoSd) == (b.sdcard && b.mode != CrashNoSd))
    ensures DirOf(a.mode, a.sdcard, i) == DirOf(b.mode, b.sdcard, j) ==> CounterOf(a.mode) == CounterOf(b.mode)
  {
  }

  /** An unsigned value returned as an int. */
  function ToInt(n: nat): int {
    if n < UINT_MOD / 2 then n else n - UINT_MOD
  }

  /** It is the int with the same remainder modulo 2^32. */
  lemma {:induction false} ToIntIs(n: nat, i: int)
    requires n < 0x1_0000_0000 && -0x8000_0000 <= i < 0x8000_0000
    ensures ToInt(n) == i <==> i % 0x1_0000_0000 == n
  {
  }

  datatype Disk = Disk(counters: map<Counter, string>, dirs: map<Dir, seq<string>>)

  function CounterFile(disk: Disk, counter: Counter): Option<string> {
    if counter in disk.counters then Some(disk.counters[counter]) else None
  }

  /** The index that the next allocation on a counter hands out. */
  function NextIndex(disk: Disk, counter: Counter): nat {
    Current(Opened(CounterFile(disk, counter)))
  }

  datatype Request = Request(mode: Mode, sdcard: bool)

  function Allocated(disk: Disk, r: Request): Dir
    requires !r.mode.Invalid?
  {
    DirOf(r.mode, r.sdcard, ToInt(NextIndex(disk, CounterOf(r.mode))))
  }

  /** find_new_crashlog_dir: step the counter, then remove and recreate the directory. */
  function Allocate(disk: Disk, r: Request, gmaxfiles: int): Disk
    requires gmaxfiles > 0
  {
    if r.mode.Invalid? then disk else
      var counter := CounterOf(r.mode);
      Disk(disk.counters[counter := AfterAllocation(CounterFile(disk, counter), gmaxfiles)],
           disk.dirs[Allocated(disk, r) := []])
  }

  /** reset_after_swupdate: three of the four counters start again, the directories stay. */
  function ResetCounters(disk: Disk): Disk {
    Disk(disk.counters[CrashCounter := Print4(0)][StatsCounter := Print4(0)][AplogsCounter := Print4(0)], disk.dirs)
  }

  class Allocator {
    const gmaxfiles: int
    var counters: map<Counter, string>
    var dirs: map<Dir, seq<string>>

    ghost function State(): Disk
      reads this
    {
      Disk(counters, dirs)
    }

    constructor (gmaxfiles: int, counters: map<Counter, string>, dirs: map<Dir, seq<string>>)
      ensures this.gmaxfiles == gmaxfiles && State() == Disk(counters, dirs)
    {
      this.gmaxfiles, this.counters, this.dirs := gmaxfiles, counters, dirs;
    }

    method ReadFile(counter: Counter) returns (current: nat)
      modifies this`counters
      ensures counters == old(counters)[counter := Opened(CounterFile(old(State()), counter))]
      ensures current == Current(counters[counter])
    {
      if counter in counters {
        var res := Scan4(counters[counter]);
        current := if res.Some? then res.value else 0;
        assert counters == counters[counter := counters[counter]];
      } else {
        OpenedMissing();
        counters := counters[counter := Print4(0)];
        current := 0;
      }
    }

    method UpdateFile(counter: Counter, current: nat)
      requires counter in counters && gmaxfiles > 0
      modifies this`counters
      ensures counters == old(counters)[counter := Written(old(counters)[counter], Successor(current, gmaxfiles))]
    {
      counters := counters[counter := Written(counters[counter], (current + 1) % UINT_MOD % gmaxfiles)];
    }

    method FindNewCrashlogDir(r: Request) returns (res: int)
      requires gmaxfiles > 0
      modifies this
      ensures State() == Allocate(old(State()), r, gmaxfiles)
      ensures res == if r.mode.Invalid? then -1 else old(Allocated(State(), r)).index
    {
      if r.mode.Invalid? {
        return -1;
      }
      var counter := CounterOf(r.mode);
      var current := ReadFile(counter);
      UpdateFile(counter, current);
      var dir := DirOf(r.mode, r.sdcard, ToInt(current));
      dirs := dirs - {dir};
      dirs := dirs[dir := []];
      res := ToInt(current);
      assert dirs == old(dirs)[dir := []];
      assert counters == old(counters)[counter := AfterAllocation(CounterFile(old(State()), counter), gmaxfiles)];
    }

    method ResetFile(counter: Counter)
      modifies this`counters
      ensures counters == old(counters)[counter := Print4(0)]
    {
      counters := counters[counter := Print4(0)];
    }

    /** The part of reset_after_swupdate that resets counters. */
    method ResetAfterSwupdate()
      modifies this`counters
      ensures State() == ResetCounters(old(State()))
    {
      ResetFile(CrashCounter);
      ResetFile(StatsCounter);
      ResetFile(AplogsCounter);
    }
  }

  // ----- runs -----

  predicate CleanDisk(disk: Disk) {
    forall c :: c in disk.counters ==> Clean(disk.counters[c])
  }

  datatype Event = Allocation(request: Request) | SoftwareUpdate

  function Happen(disk: Disk, e: Event, gmaxfiles: int): Disk
    requires gmaxfiles > 0
  {
    if e.Allocation? then Allocate(disk, e.request, gmaxfiles) else ResetCounters(disk)
  }

  function RunAll(disk: Disk, events: seq<Event>, gmaxfiles: int): Disk
    requires gmaxfiles > 0
  {
    if events == [] then disk
    else Happen(RunAll(disk, events[..|events| - 1], gmaxfiles), events[|events| - 1], gmaxfiles)
  }

  predicate UsesOnce(r: Request, counter: Counter) {
    !r.mode.Invalid? && CounterOf(r.mode) == counter
  }

  /** How many of the events are allocations on a counter. */
  function Uses(events: seq<Event>, counter: Counter): nat {
    if events == [] then 0
    else
      var e := events[|events| - 1];
      Uses(events[..|events| - 1], counter) + if e.Allocation? && UsesOnce(e.request, counter) then 1 else 0
  }

  predicate Resets(e: Event, counter: Counter) {
    e.SoftwareUpdate? && counter != BzCounter
  }

  /** Where a counter that stands at `i` stands after an event, and after many. */
  function StandOnce(i: nat, e: Event, counter: Counter, gmaxfiles: int): nat
    requires gmaxfiles > 0
  {
    if Resets(e, counter) then 0
    else if e.Allocation? && UsesOnce(e.request, counter) then Successor(i, gmaxfiles)
    else i
  }

  function Stand(i: nat, events: seq<Event>, counter: Counter, gmaxfiles: int): nat
    requires gmaxfiles > 0
  {
    if events == [] then i
    else StandOnce(Stand(i, events[..|events| - 1], counter, gmaxfiles), events[|events| - 1], counter, gmaxfiles)
  }

  lemma {:induction false} AllocateSteps(disk: Disk, r: Request, gmaxfiles: int, counter: Counter)
    requires 0 < gmaxfiles <= 10000 && CleanDisk(disk)
    ensures CleanDisk(Allocate(disk, r, gmaxfiles))
    ensures NextIndex(Allocate(disk, r, gmaxfiles), counter) ==
            if UsesOnce(r, counter) then Successor(NextIndex(disk, counter), gmaxfiles)
            else NextIndex(disk, counter)
  {
    if !r.mode.Invalid? {
      var c := CounterOf(r.mode);
      OpenedMissing();
      CleanRoundTrip(Opened(CounterFile(disk, c)), Successor(NextIndex(disk, c), gmaxfiles));
    }
  }

  lemma {:induction false} SuccessorInRange(x: nat, gmaxfiles: int)
    requires 0 < gmaxfiles <= 10000
    ensures Successor(x % gmaxfiles, gmaxfiles) == (x + 1) % gmaxfiles
  {
    var i := x % gmaxfiles;
    Modulo.NextRemainder(x, gmaxfiles);
    Modulo.ModOnce(i + 1, gmaxfiles);
  }

  /** The index that follows `i` after `k` allocations. */
  function Advance(i: nat, k: nat, gmaxfiles: int): nat
    requires gmaxfiles > 0
  {
    if k == 0 then i else Successor(Advance(i, k - 1, gmaxfiles), gmaxfiles)
  }

  /** From an index in range, allocations step through the indices one by one, and wrap. */
  lemma {:induction false} AdvanceIsRotation(i: nat, k: nat, gmaxfiles: int)
    requires 0 < gmaxfiles <= 10000 && i < gmaxfiles
    ensures Advance(i, k, gmaxfiles) == (i + k) % gmaxfiles
  {
    if k == 0 {
      Modulo.ModOnce(i, gmaxfiles);
    } else {
      AdvanceIsRotation(i, k - 1, gmaxfiles);
      SuccessorInRange(i + k - 1, gmaxfiles);
    }
  }

  lemma {:induction false} ResetSteps(disk: Disk, counter: Counter)
    requires CleanDisk(disk)
    ensures CleanDisk(ResetCounters(disk))
    ensures NextIndex(ResetCounters(disk), counter) == if counter == BzCounter then NextIndex(disk, counter) else 0
  {
    OpenedMissing();
  }

  lemma {:induction false} EventSteps(disk: Disk, e: Event, gmaxfiles: int, counter: Counter)
    requires 0 < gmaxfiles <= 10000 && CleanDisk(disk)
    ensures CleanDisk(Happen(disk, e, gmaxfiles))
    ensures NextIndex(Happen(disk, e, gmaxfiles), counter) ==
            StandOnce(NextIndex(disk, counter), e, counter, gmaxfiles)
  {
    hide NextIndex;
    if e.Allocation? {
      AllocateSteps(disk, e.request, gmaxfiles, counter);
    } else {
      ResetSteps(disk, counter);
    }
  }

  /** Over every run, updates included, the index of a counter is where its own events alone
      bring it. */
  lemma {:induction false} RunIndex(disk: Disk, events: seq<Event>, gmaxfiles: int, counter: Counter)
    requires 0 < gmaxfiles <= 10000 && CleanDisk(disk)
    ensures CleanDisk(RunAll(disk, events, gmaxfiles))
    ensures NextIndex(RunAll(disk, events, gmaxfiles), counter) ==
            Stand(NextIndex(disk, counter), events, counter, gmaxfiles)
  {
    hide NextIndex, Happen, StandOnce;
    if events != [] {
      RunIndex(disk, events[..|events| - 1], gmaxfiles, counter);
      EventSteps(RunAll(disk, events[..|events| - 1], gmaxfiles), events[|events| - 1], gmaxfiles, counter);
    }
  }

  /** Without a reset, that is one step for each allocation. */
  lemma {:induction false} StandAdvances(i: nat, events: seq<Event>, counter: Counter, gmaxfiles: int)
    requires gmaxfiles > 0 && forall k :: 0 <= k < |events| ==> !Resets(events[k], counter)
    ensures Stand(i, events, counter, gmaxfiles) == Advance(i, Uses(events, counter), gmaxfiles)
  {
    if events != [] {
      StandAdvances(i, events[..|events| - 1], counter, gmaxfiles);
    }
  }

  lemma {:induction false} StandConcat(i: nat, a: seq<Event>, b: seq<Event>, counter: Counter, gmaxfiles: int)
    requires gmaxfiles > 0
    ensures Stand(i, a + b, counter, gmaxfiles) == Stand(Stand(i, a, counter, gmaxfiles), b, counter, gmaxfiles)
  {
    if b == [] {
      assert a + b == a;
    } else {
      var n := |b| - 1;
      assert (a + b)[..|a + b| - 1] == a + b[..n];
      StandConcat(i, a, b[..n], counter, gmaxfiles);
    }
  }

  /** After an update only the events since then matter. */
  lemma {:induction false} StandAfterUpdate(i: nat, a: seq<Event>, b: seq<Event>, counter: Counter, gmaxfiles: int)
    requires gmaxfiles > 0 && counter != BzCounter
    ensures Stand(i, a + [SoftwareUpdate] + b, counter, gmaxfiles) == Stand(0, b, counter, gmaxfiles)
  {
    var c := a + [SoftwareUpdate];
    StandConcat(i, c, b, counter, gmaxfiles);
    assert c[..|c| - 1] == a;
  }

  /** An index handed out, in range or not, is not the one of the next gmaxfiles - 1
      allocations on its counter. */
  lemma {:induction false} IndexNotReused(i: nat, k: nat, gmaxfiles: int)
    requires 0 < gmaxfiles <= 10000 && i < UINT_MOD && 0 < k < gmaxfiles
    ensures Advance(i, k, gmaxfiles) < gmaxfiles
    ensures Advance(i, k, gmaxfiles) != i
  {
    if i < gmaxfiles {
      AdvanceIsRotation(i, k, gmaxfiles);
      Modulo.ModOnce(i + k, gmaxfiles);
    }
  }

  lemma {:induction false} NextIndexIsUint(disk: Disk, counter: Counter)
    ensures NextIndex(disk, counter) < UINT_MOD
  {
    ScanIsUint(Opened(CounterFile(disk, counter)));
  }

  lemma {:induction false} ScanIsUint(s: string)
    ensures Current(s) < UINT_MOD
  {
    var t := SkipBlanks(s);
    ValueBound(DigitRun(t, 4));
    Pow10Mono(|DigitRun(t, 4)|, 4);
    assert Pow10(4) == 10000;
    if t != "" {
      ValueBound(DigitRun(t[1..], 3));
      Pow10Mono(|DigitRun(t[1..], 3)|, 4);
    }
  }

  /** Something is put in a directory. */
  function Fill(disk: Disk, dir: Dir, content: seq<string>): Disk {
    Disk(disk.counters, disk.dirs[dir := content])
  }

  /** Event `k` allocates the directory that `r` got when its counter stood at `i`. */
  predicate Retakes(r: Request, i: nat, events: seq<Event>, k: nat, gmaxfiles: int)
    requires gmaxfiles > 0 && !r.mode.Invalid? && k < |events|
  {
    && events[k].Allocation? && !events[k].request.mode.Invalid?
    && DirOf(events[k].request.mode, events[k].request.sdcard, 0) == DirOf(r.mode, r.sdcard, 0)
    && Stand(Successor(i, gmaxfiles), events[..k], CounterOf(r.mode), gmaxfiles) == i
  }

  predicate Retaken(r: Request, i: nat, events: seq<Event>, gmaxfiles: int)
    requires gmaxfiles > 0 && !r.mode.Invalid?
  {
    exists k :: 0 <= k < |events| && Retakes(r, i, events, k, gmaxfiles)
  }

  lemma {:induction false} RetakenSnoc(r: Request, i: nat, events: seq<Event>, gmaxfiles: int)
    requires gmaxfiles > 0 && !r.mode.Invalid? && events != []
    ensures Retaken(r, i, events, gmaxfiles) <==>
            Retaken(r, i, events[..|events| - 1], gmaxfiles) || Retakes(r, i, events, |events| - 1, gmaxfiles)
  {
    hide Stand;
    var before := events[..|events| - 1];
    forall k | 0 <= k < |before|
      ensures Retakes(r, i, before, k, gmaxfiles) <==> Retakes(r, i, events, k, gmaxfiles)
    {
      assert before[..k] == events[..k];
    }
  }

  /** The next allocation of a request hands out a directory when the counter stands there. */
  lemma {:induction false} SameDir(disk: Disk, q: Request, r: Request, i: nat)
    requires !q.mode.Invalid? && !r.mode.Invalid? && i < UINT_MOD
    ensures Allocated(disk, q) == DirOf(r.mode, r.sdcard, ToInt(i)) <==>
            DirOf(q.mode, q.sdcard, 0) == DirOf(r.mode, r.sdcard, 0) && NextIndex(disk, CounterOf(r.mode)) == i
  {
    NextIndexIsUint(disk, CounterOf(q.mode));
    hide NextIndex;
    if NextIndex(disk, CounterOf(q.mode)) != i {
      ToIntInjective(NextIndex(disk, CounterOf(q.mode)), i);
    }
  }

  lemma {:induction false} EventKeeps(disk: Disk, e: Event, gmaxfiles: int, dir: Dir)
    requires gmaxfiles > 0 && dir in disk.dirs
    ensures var after := Happen(disk, e, gmaxfiles);
            dir in after.dirs && after.dirs[dir] ==
            if e.Allocation? && !e.request.mode.Invalid? && Allocated(disk, e.request) == dir then []
            else disk.dirs[dir]
  {
    hide NextIndex;
  }

  lemma {:induction false} FilledStands(disk: Disk, r: Request, content: seq<string>, gmaxfiles: int)
    requires 0 < gmaxfiles <= 10000 && CleanDisk(disk) && !r.mode.Invalid?
    ensures var filled := Fill(Allocate(disk, r, gmaxfiles), Allocated(disk, r), content);
            CleanDisk(filled) && NextIndex(filled, CounterOf(r.mode)) ==
                                 Successor(NextIndex(disk, CounterOf(r.mode)), gmaxfiles)
  {
    AllocateSteps(disk, r, gmaxfiles, CounterOf(r.mode));
    SameIndex(Fill(Allocate(disk, r, gmaxfiles), Allocated(disk, r), content), Allocate(disk, r, gmaxfiles),
              CounterOf(r.mode));
  }

  lemma {:induction false} SameIndex(a: Disk, b: Disk, counter: Counter)
    requires a.counters == b.counters
    ensures NextIndex(a, counter) == NextIndex(b, counter)
  {
  }

  /** What is put in a directory just allocated, whatever it is, stays there through every run
      until an allocation for such a directory finds the counter at its index again, and is
      lost then. */
  lemma {:induction false} DirKeptExactly(disk: Disk, r: Request, content: seq<string>, events: seq<Event>,
          gmaxfiles: int)
    requires 0 < gmaxfiles <= 10000 && CleanDisk(disk) && !r.mode.Invalid?
    ensures var dir := Allocated(disk, r);
            var last := RunAll(Fill(Allocate(disk, r, gmaxfiles), dir, content), events, gmaxfiles);
            dir in last.dirs && last.dirs[dir] ==
            if Retaken(r, NextIndex(disk, CounterOf(r.mode)), events, gmaxfiles) then [] else content
  {
    hide NextIndex, CleanDisk, Happen, Retaken;
    var counter, dir := CounterOf(r.mode), Allocated(disk, r);
    var i, filled := NextIndex(disk, counter), Fill(Allocate(disk, r, gmaxfiles), dir, content);
    if events == [] {
      NotRetaken(r, i, gmaxfiles);
    } else {
      var before, e := events[..|events| - 1], events[|events| - 1];
      var mid := RunAll(filled, before, gmaxfiles);
      DirKeptExactly(disk, r, content, before, gmaxfiles);
      FilledStands(disk, r, content, gmaxfiles);
      RunIndex(filled, before, gmaxfiles, counter);
      EventKeeps(mid, e, gmaxfiles, dir);
      NextIndexIsUint(disk, counter);
      if e.Allocation? && !e.request.mode.Invalid? {
        SameDir(mid, e.request, r, i);
      }
      RetakenSnoc(r, i, events, gmaxfiles);
    }
  }

  lemma {:induction false} NotRetaken(r: Request, i: nat, gmaxfiles: int)
    requires gmaxfiles > 0 && !r.mode.Invalid?
    ensures !Retaken(r, i, [], gmaxfiles)
  {
  }

  lemma {:induction false} UsesPrefix(events: seq<Event>, counter: Counter, k: nat)
    requires k < |events| && events[k].Allocation? && UsesOnce(events[k].request, counter)
    ensures Uses(events[..k], counter) + 1 <= Uses(events, counter)
  {
    var before := events[..|events| - 1];
    if k < |before| {
      UsesPrefix(before, counter, k);
      assert before[..k] == events[..k];
    }
  }

  lemma {:induction false} AdvanceFromSuccessor(i: nat, k: nat, gmaxfiles: int)
    requires gmaxfiles > 0
    ensures Advance(Successor(i, gmaxfiles), k, gmaxfiles) == Advance(i, k + 1, gmaxfiles)
  {
    if k == 0 {
      assert Advance(i, 0, gmaxfiles) == i;
    } else {
      AdvanceFromSuccessor(i, k - 1, gmaxfiles);
    }
  }

  /** Without a reset of the counter, a directory is not retaken by fewer than gmaxfiles
      allocations on it. */
  lemma {:induction false} NotRetakenSoon(r: Request, i: nat, events: seq<Event>, gmaxfiles: int)
    requires 0 < gmaxfiles <= 10000 && i < UINT_MOD && !r.mode.Invalid?
    requires Uses(events, CounterOf(r.mode)) < gmaxfiles
    requires forall k :: 0 <= k < |events| ==> !Resets(events[k], CounterOf(r.mode))
    ensures !Retaken(r, i, events, gmaxfiles)
  {
    var counter := CounterOf(r.mode);
    forall k | 0 <= k < |events| && events[k].Allocation? && UsesOnce(events[k].request, counter)
      ensures Stand(Successor(i, gmaxfiles), events[..k], counter, gmaxfiles) != i
    {
      UsesPrefix(events, counter, k);
      StandAdvances(Successor(i, gmaxfiles), events[..k], counter, gmaxfiles);
      AdvanceFromSuccessor(i, Uses(events[..k], counter), gmaxfiles);
      IndexNotReused(i, Uses(events[..k], counter) + 1, gmaxfiles);
    }
  }

  /** A directory just allocated keeps what is put in it through every run with fewer than
      gmaxfiles allocations on its counter and no reset of it. */
  lemma {:induction false} DirSurvives(disk: Disk, r: Request, content: seq<string>, events: seq<Event>,
          gmaxfiles: int)
    requires 0 < gmaxfiles <= 10000 && CleanDisk(disk) && !r.mode.Invalid?
    requires Uses(events, CounterOf(r.mode)) < gmaxfiles
    requires forall k :: 0 <= k < |events| ==> !Resets(events[k], CounterOf(r.mode))
    ensures var dir := Allocated(disk, r);
            var last := RunAll(Fill(Allocate(disk, r, gmaxfiles), dir, content), events, gmaxfiles);
            dir in last.dirs && last.dirs[dir] == content
  {
    DirKeptExactly(disk, r, content, events, gmaxfiles);
    NextIndexIsUint(disk, CounterOf(r.mode));
    NotRetakenSoon(r, NextIndex(disk, CounterOf(r.mode)), events, gmaxfiles);
  }

  lemma {:induction false} RetakenByLast(r: Request, i: nat, events: seq<Event>, gmaxfiles: int)
    requires gmaxfiles > 0 && !r.mode.Invalid?
    requires Stand(Successor(i, gmaxfiles), events, CounterOf(r.mode), gmaxfiles) == i
    ensures Retaken(r, i, events + [Allocation(r)], gmaxfiles)
  {
    hide Stand, Successor;
    assert (events + [Allocation(r)])[..|events|] == events;
    assert Retakes(r, i, events + [Allocation(r)], |events|, gmaxfiles);
  }

  lemma {:induction false} FullTurn(i: nat, gmaxfiles: int)
    requires 0 < gmaxfiles <= 10000 && i < gmaxfiles
    ensures Advance(Successor(i, gmaxfiles), gmaxfiles - 1, gmaxfiles) == i
  {
    AdvanceFromSuccessor(i, gmaxfiles - 1, gmaxfiles);
    AdvanceIsRotation(i, gmaxfiles, gmaxfiles);
    Modulo.ModOnce(i + gmaxfiles, gmaxfiles);
  }

  /** And no further: the gmaxfiles-th allocation on the counter, made for the same kind of
      directory, empties it. */
  lemma {:induction false} DirRecycled(disk: Disk, r: Request, content: seq<string>, events: seq<Event>,
          gmaxfiles: int)
    requires 0 < gmaxfiles <= 10000 && CleanDisk(disk) && !r.mode.Invalid?
    requires NextIndex(disk, CounterOf(r.mode)) < gmaxfiles
    requires Uses(events, CounterOf(r.mode)) == gmaxfiles - 1
    requires forall k :: 0 <= k < |events| ==> !Resets(events[k], CounterOf(r.mode))
    ensures var dir := Allocated(disk, r);
            var filled := Fill(Allocate(disk, r, gmaxfiles), dir, content);
            var last := RunAll(filled, events + [Allocation(r)], gmaxfiles);
            dir in last.dirs && last.dirs[dir] == []
  {
    hide NextIndex, CleanDisk, RunAll, Retaken, Stand, Advance, Successor, Allocate, Fill;
    var counter := CounterOf(r.mode);
    var i := NextIndex(disk, counter);
    DirKeptExactly(disk, r, content, events + [Allocation(r)], gmaxfiles);
    StandAdvances(Successor(i, gmaxfiles), events, counter, gmaxfiles);
    FullTurn(i, gmaxfiles);
    RetakenByLast(r, i, events, gmaxfiles);
  }

  /** The events since the last update. */
  lemma {:induction false} StandSinceUpdate(i: nat, a: seq<Event>, b: seq<Event>, counter: Counter,
          gmaxfiles: int)
    requires 0 < gmaxfiles <= 10000 && counter != BzCounter && Uses(b, counter) < gmaxfiles
    requires forall m :: 0 <= m < |b| ==> !Resets(b[m], counter)
    ensures Stand(i, a + [SoftwareUpdate] + b, counter, gmaxfiles) == Uses(b, counter)
  {
    StandAfterUpdate(i, a, b, counter, gmaxfiles);
    StandAdvances(0, b, counter, gmaxfiles);
    AdvanceIsRotation(0, Uses(b, counter), gmaxfiles);
    Modulo.ModOnce(Uses(b, counter), gmaxfiles);
  }

  lemma {:induction false} NotRetakenSinceUpdate(r: Request, i: nat, a: seq<Event>, b: seq<Event>, gmaxfiles: int)
    requires 0 < gmaxfiles <= 10000 && i < gmaxfiles && !r.mode.Invalid? && CounterOf(r.mode) != BzCounter
    requires forall k :: 0 <= k < |b| ==> !Resets(b[k], CounterOf(r.mode))
    requires Uses(b, CounterOf(r.mode)) <= i
    requires !Retaken(r, i, a, gmaxfiles)
    ensures !Retaken(r, i, a + [SoftwareUpdate] + b, gmaxfiles)
  {
    hide Stand, Successor;
    var counter, before, events := CounterOf(r.mode), a + [SoftwareUpdate], a + [SoftwareUpdate] + b;
    RetakenSnoc(r, i, before, gmaxfiles);
    assert before[..|a|] == a;
    if b == [] {
      assert events == before;
    } else {
      var n := |b| - 1;
      assert b[..n] + [b[n]] == b;
      assert events[..|events| - 1] == before + b[..n];
      UsesLast(b, counter);
      NotRetakenSinceUpdate(r, i, a, b[..n], gmaxfiles);
      RetakenSnoc(r, i, events, gmaxfiles);
      StandSinceUpdate(Successor(i, gmaxfiles), a, b[..n], counter, gmaxfiles);
    }
  }

  lemma {:induction false} UsesLast(events: seq<Event>, counter: Counter)
    requires events != []
    ensures var e := events[|events| - 1];
            Uses(events, counter) == Uses(events[..|events| - 1], counter) +
                                     if e.Allocation? && UsesOnce(e.request, counter) then 1 else 0
  {
  }

  /** A software update restarts the counter: a directory then survives as many allocations on
      it as its index, since the indices below it are handed out first. */
  lemma {:induction false} DirSurvivesUpdate(disk: Disk, r: Request, content: seq<string>, a: seq<Event>,
          b: seq<Event>, gmaxfiles: int)
    requires 0 < gmaxfiles <= 10000 && CleanDisk(disk) && !r.mode.Invalid? && CounterOf(r.mode) != BzCounter
    requires NextIndex(disk, CounterOf(r.mode)) < gmaxfiles
    requires forall k :: 0 <= k < |a| ==> !Resets(a[k], CounterOf(r.mode))
    requires forall k :: 0 <= k < |b| ==> !Resets(b[k], CounterOf(r.mode))
    requires Uses(a, CounterOf(r.mode)) < gmaxfiles
    requires Uses(b, CounterOf(r.mode)) <= NextIndex(disk, CounterOf(r.mode))
    ensures var dir := Allocated(disk, r);
            var filled := Fill(Allocate(disk, r, gmaxfiles), dir, content);
            var last := RunAll(filled, a + [SoftwareUpdate] + b, gmaxfiles);
            dir in last.dirs && last.dirs[dir] == content
  {
    hide NextIndex, CleanDisk, RunAll, Retaken, Allocate, Fill, Uses, Resets;
    var i := NextIndex(disk, CounterOf(r.mode));
    DirKeptExactly(disk, r, content, a + [SoftwareUpdate] + b, gmaxfiles);
    NextIndexIsUint(disk, CounterOf(r.mode));
    NotRetakenSoon(r, i, a, gmaxfiles);
    NotRetakenSinceUpdate(r, i, a, b, gmaxfiles);
  }

  /** And no more: the next allocation for the same kind of directory empties it, however few
      allocations there were in all. */
  lemma {:induction false} UpdateRecycles(disk: Disk, r: Request, content: seq<string>, a: seq<Event>,
          b: seq<Event>, gmaxfiles: int)
    requires 0 < gmaxfiles <= 10000 && CleanDisk(disk) && !r.mode.Invalid? && CounterOf(r.mode) != BzCounter
    requires NextIndex(disk, CounterOf(r.mode)) < gmaxfiles
    requires forall k :: 0 <= k < |b| ==> !Resets(b[k], CounterOf(r.mode))
    requires Uses(b, CounterOf(r.mode)) == NextIndex(disk, CounterOf(r.mode))
    ensures var dir := Allocated(disk, r);
            var filled := Fill(Allocate(disk, r, gmaxfiles), dir, content);
            var last := RunAll(filled, a + [SoftwareUpdate] + b + [Allocation(r)], gmaxfiles);
            dir in last.dirs && last.dirs[dir] == []
  {
    hide NextIndex, CleanDisk, RunAll, Retaken, Stand, Successor, Allocate, Fill, Uses, Resets;
    var counter, events := CounterOf(r.mode), a + [SoftwareUpdate] + b;
    var i := NextIndex(disk, counter);
    DirKeptExactly(disk, r, content, events + [Allocation(r)], gmaxfiles);
    StandSinceUpdate(Successor(i, gmaxfiles), a, b, counter, gmaxfiles);
    RetakenByLast(r, i, events, gmaxfiles);
  }

  lemma {:induction false} ToIntInjective(a: nat, b: nat)
    requires a < UINT_MOD && b < UINT_MOD && a != b
    ensures ToInt(a) != ToInt(b)
  {
  }
}
