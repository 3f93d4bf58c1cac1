/**
 uptime_history (crashlog/history.c): at boot, the uptime of the previous session is moved
 from the header of the history file to an event of its own.
 */
module HistoryBoot {
  import opened Text
  import opened Scan
  import opened HistoryEntry
  import opened HistoryModel
  import opened Decimal

  /** %<width>s: a word of at most `width` characters, and what follows it. */
  function Word(s: string, width: nat): (string, string) {
    var t := SkipBlanks(s);
    var n := Min(WordLen(t), width);
    (t[..n], t[n..])
  }

  /** fscanf(to, "#V1.0 %16s%24s\n") on the file: the uptime, if the name before it is the one
      of a header. `previous` is the value of lastbootuptime, kept when no word is left. */
  function ScanHeader(text: string, previous: string): Option<string> {
    if !("#V1.0" <= text) then None
    else
      var (name, rest) := Word(text[5..], 16);
      var (uptime, _) := Word(rest, 24);
      if name != "CURRENTUPTIME" then None else Some(if uptime == "" then previous else uptime)
  }

  const BOOT_KEY := "00000000000000000000"

  function BootEntry(uptime: string, date: string): Entry {
    Entry("UPTIME", Some(""), None, Some(uptime), Some(BOOT_KEY), Some(date))
  }

  /** The event that a boot adds: one when there is a file whose header scans, else none. */
  function BootLines(log: Log, date: string, previous: string): seq<string> {
    if log.file.None? then [] else
      var uptime := ScanHeader(Concat(log.file.value), previous);
      if uptime.None? then [] else [HistoryLine(BootEntry(uptime.value, date))]
  }

  /** uptime_history: the header is blanked, the event appended; the cache is not touched. */
  function Boot(log: Log, date: string, previous: string): Log {
    if log.file.None? || log.file.value == [] || BootLines(log, date, previous) == [] then log
    else log.(file := Some(log.file.value[0 := BlankLine1()] + BootLines(log, date, previous)))
  }

  // ----- what the header gives back -----

  lemma {:induction false} WordBack(k: nat, w: string, rest: string, width: nat)
    requires IsWord(w) && |w| <= width && rest != "" && IsSpace(rest[0])
    ensures Word(Spaces(k) + (w + rest), width) == (w, rest)
  {
    SkipBlanksOver(k, w + rest);
    var t := w + rest;
    assert WordLen(w) == |w|;
    WordLenOfConcat(w, rest);
    assert t[..|w|] == w && t[|w|..] == rest;
  }

  /** The header that was written last gives its uptime back, whatever follows it. */
  lemma {:induction false} HeaderScanned(uptime: string, rest: string, previous: string)
    requires IsWord(uptime) && |uptime| <= 24
    ensures ScanHeader(Header(uptime) + rest, previous) == Some(uptime)
  {
    var text := Header(uptime) + rest;
    var after := Spaces(Max(24 - |uptime|, 0)) + "\n" + rest;
    var name := "CURRENTUPTIME";
    assert text == "#V1.0" + (Spaces(1) + (name + (Spaces(3) + (uptime + after))));
    assert text[5..] == Spaces(1) + (name + (Spaces(3) + (uptime + after)));
    WordBack(1, name, Spaces(3) + (uptime + after), 16);
    WordBack(3, uptime, after, 24);
  }

  /** A file that does not start with the tag, or with another name after it, has no uptime. */
  lemma {:induction false} HeaderRefused(name: string, rest: string, previous: string)
    requires IsWord(name) && rest != "" && IsSpace(rest[0]) && name != "CURRENTUPTIME"
    ensures ScanHeader("#V1.0 " + name + rest, previous) == None
  {
    var text := "#V1.0 " + name + rest;
    assert text[5..] == Spaces(1) + (name + rest);
    SkipBlanksOver(1, name + rest);
    assert WordLen(name) == |name|;
    WordLenOfConcat(name, rest);
    assert |"CURRENTUPTIME"| == 13 && (name + rest)[..Min(|name|, 16)] == name[..Min(|name|, 16)];
  }

  /** A header without uptime keeps the value that the variable had. */
  lemma {:induction false} NoUptimeLeft(k: nat, previous: string)
    requires k > 0
    ensures ScanHeader("#V1.0 CURRENTUPTIME" + Spaces(k), previous) == Some(previous)
  {
    var text := "#V1.0 CURRENTUPTIME" + Spaces(k);
    assert text[..5] == "#V1.0" && text[5..] == Spaces(1) + ("CURRENTUPTIME" + Spaces(k));
    WordBack(1, "CURRENTUPTIME", Spaces(k), 16);
    OnlyBlanks(k);
  }

  lemma {:induction false} OnlyBlanks(k: nat)
    ensures Word(Spaces(k), 24).0 == ""
  {
    SkipBlanksOver(k, "");
    assert Spaces(k) + "" == Spaces(k);
  }

  lemma {:induction false} TagRefused(text: string, previous: string)
    requires !("#V1.0" <= text)
    ensures ScanHeader(text, previous) == None
  {
  }

  lemma {:induction false} DigitsNotBlank(s: string, w: nat)
    requires AllDigits(s) && s != ""
    ensures IsWord(PadZeros(s, w))
  {
    var zeros := Repeat('0', Max(w - |s|, 0));
    forall i | 0 <= i < |zeros|
      ensures zeros[i] == '0'
    {
      RepeatHas('0', |zeros|, zeros[i]);
    }
  }

  lemma {:induction false} UptimeIsWord(seconds: nat)
    requires ClockOk(seconds)
    ensures IsWord(Uptime(seconds)) && |Uptime(seconds)| <= 24
  {
    UptimeFits(seconds);
    DigitsNotBlank(Dec(seconds / 3600), 4);
    DigitsNotBlank(Dec(seconds / 60 % 60), 2);
    DigitsNotBlank(Dec(seconds % 60), 2);
  }

  /** After a stamp, the event of the next boot has the uptime of that stamp. */
  lemma {:induction false} BootLogsLastStamp(log: Log, now: nat, date: string, previous: string)
    requires log.file.Some? && log.file.value != [] && ClockOk(now)
    ensures Boot(Stamp(log, now), date, previous).file ==
            Some(log.file.value[0 := BlankLine1()] + [HistoryLine(BootEntry(Uptime(now), date))])
  {
    UptimeIsWord(now);
    BootOfHeader(Stamp(log, now), Uptime(now), date, previous);
    assert log.file.value[0 := Header(Uptime(now))][0 := BlankLine1()] == log.file.value[0 := BlankLine1()];
  }

  /** The event of a second boot in a row has a null uptime. */
  lemma {:induction false} SecondBootLogsZero(log: Log, date: string, previous: string)
    requires log.file.Some? && log.file.value != [] && log.file.value[0] == BlankLine1()
    ensures Boot(log, date, previous).file == Some(log.file.value + [HistoryLine(BootEntry("0000:00:00", date))])
  {
    BootOfHeader(log, "0000:00:00", date, previous);
    assert log.file.value[0 := BlankLine1()] == log.file.value;
  }

  lemma {:induction false} BootOfHeader(log: Log, uptime: string, date: string, previous: string)
    requires IsWord(uptime) && |uptime| <= 24
    requires log.file.Some? && log.file.value != [] && log.file.value[0] == Header(uptime)
    ensures Boot(log, date, previous).file ==
            Some(log.file.value[0 := BlankLine1()] + [HistoryLine(BootEntry(uptime, date))])
  {
    HeaderScanned(uptime, Concat(log.file.value[1..]), previous);
  }

  // ----- what the boot keeps -----

  lemma {:induction false} NoNulConcat(lines: seq<string>)
    requires AllGood(lines)
    ensures NoNul(Concat(lines))
  {
    if lines != [] {
      NoNulConcat(lines[1..]);
    }
  }

  predicate DateOk(date: string) {
    OneLine(date) && |date| <= 32
  }

  lemma {:induction false} SkipKeepsNoNul(s: string)
    requires NoNul(s)
    ensures NoNul(SkipBlanks(s))
  {
    if s != "" && IsSpace(s[0]) {
      SkipKeepsNoNul(s[1..]);
    }
  }

  lemma {:induction false} WordNoNul(s: string, width: nat)
    requires NoNul(s)
    ensures NoNul(Word(s, width).0) && NoNul(Word(s, width).1)
    ensures '\n' !in Word(s, width).0 && |Word(s, width).0| <= width
  {
    SkipKeepsNoNul(s);
  }

  lemma {:induction false} ScannedUptimeOk(text: string, previous: string)
    requires NoNul(text) && UptimeOk(previous)
    ensures ScanHeader(text, previous).Some? ==> UptimeOk(ScanHeader(text, previous).value)
  {
    if "#V1.0" <= text {
      WordNoNul(text[5..], 16);
      WordNoNul(Word(text[5..], 16).1, 24);
    }
  }

  lemma {:induction false} BootLineGood(uptime: string, date: string)
    requires UptimeOk(uptime) && DateOk(date)
    ensures GoodLine(HistoryLine(BootEntry(uptime, date)))
    ensures HistoryLine(BootEntry(uptime, date)) ==
            PadRight("UPTIME", 8) + "00000000000000000000" + "  " + PadRight(date, 20) + uptime + "\n"
  {
    var e := BootEntry(uptime, date);
    assert FieldsAreOneLine(e) && |FullLine(e)| <= 100;
    HistoryLineGood(e);
    assert PadRight(BOOT_KEY, 22) == BOOT_KEY + "  ";
  }

  lemma {:induction false} BootFile(lines: seq<string>, line: string)
    requires |lines| >= 2 && AllGood(lines) && GoodLine(line)
    ensures var after := lines[0 := BlankLine1()] + [line];
            && AllGood(after) && IsHeader(after[0])
            && Events(after) == Events(lines) + [line]
  {
    BlankLinesAreGood();
  }

  lemma {:induction false} BootWellFormed(log: Log, date: string, previous: string, n: nat)
    requires WellFormed(log, n) && DateOk(date) && UptimeOk(previous)
    ensures WellFormed(Boot(log, date, previous), n)
  {
    if log.file.Some? {
      var lines := log.file.value;
      NoNulConcat(lines);
      ScannedUptimeOk(Concat(lines), previous);
      var uptime := ScanHeader(Concat(lines), previous);
      if uptime.Some? {
        BootLineGood(uptime.value, date);
        BootFile(lines, HistoryLine(BootEntry(uptime.value, date)));
      }
    }
  }

  /** A boot adds its event to what a reader sees, cached or not. */
  lemma {:induction false} BootView(log: Log, date: string, previous: string, n: nat)
    requires WellFormed(log, n) && DateOk(date) && UptimeOk(previous) && n > 0
    ensures var after := Boot(log, date, previous);
            WellFormed(after, n) && View(after, n) == LastN(View(log, n) + BootLines(log, date, previous), n)
  {
    BootWellFormed(log, date, previous, n);
    if BootLines(log, date, previous) != [] {
      var lines := log.file.value;
      assert Events(Boot(log, date, previous).file.value) == Events(lines) + BootLines(log, date, previous);
      LastNAppend(Events(lines), BootLines(log, date, previous), n);
    } else {
      assert View(log, n) + [] == View(log, n);
    }
  }

  lemma {:induction false} SameAfterShift(s: seq<string>, line: string, i: nat)
    requires s != [] && s[1..] + [line] == s && i < |s|
    ensures s[i] == line
    decreases |s| - i
  {
    if i + 1 < |s| {
      SameAfterShift(s, line, i + 1);
      assert (s[1..] + [line])[i] == s[i + 1];
    } else {
      assert (s[1..] + [line])[i] == line;
    }
  }

  lemma {:induction false} ShiftSame(s: seq<string>, line: string)
    requires s != []
    ensures s[1..] + [line] == s <==> forall i :: 0 <= i < |s| ==> s[i] == line
  {
    if s[1..] + [line] == s {
      forall i | 0 <= i < |s|
        ensures s[i] == line
      {
        SameAfterShift(s, line, i);
      }
    }
  }

  /** With the cache loaded, a boot that adds its event leaves file and cache in agreement if
      and only if the cache is full of that very line; without a cache it always does. */
  lemma {:induction false} BootInSync(log: Log, date: string, previous: string, n: nat)
    requires WellFormed(log, n) && InSync(log, n) && n > 0 && BootLines(log, date, previous) != []
    ensures var ring, line := log.ring, BootLines(log, date, previous)[0];
            InSync(Boot(log, date, previous), n) <==>
            ring.None? || (|ring.value| == n && forall i :: 0 <= i < n ==> ring.value[i] == line)
  {
    if log.ring.Some? {
      var lines, line, ring := log.file.value, BootLines(log, date, previous)[0], log.ring.value;
      assert Events(Boot(log, date, previous).file.value) == Events(lines) + [line];
      LastNAppend(Events(lines), [line], n);
      assert |ring| == n ==> LastN(ring + [line], n) == ring[1..] + [line];
      if |ring| == n {
        ShiftSame(ring, line);
      }
    }
  }
}
