/**
 One line of the history file: how entry_to_history_line prints it and how the delete
 command scans it (crashlog/history.c).
 */
module HistoryEntry {
  import opened Text
  import opened LineReader
  import opened Scan

  /** struct history_entry; an absent field is a null pointer. */
  datatype Entry = Entry(event: string, type_: Option<string>, log: Option<string>,
                         lastuptime: Option<string>, key: Option<string>, eventtime: Option<string>)

  predicate Complete(e: Entry) {
    e.key.Some? && e.eventtime.Some?
  }

  /** What printf shows for %s. */
  function Shown(s: Option<string>): string {
    if s.None? then "(null)" else s.value
  }

  /** A log path without its trailing slash. */
  function TrimSlash(log: string): string {
    if log != "" && log[|log| - 1] == '/' then log[..|log| - 1] else log
  }

  lemma {:induction false} TrimSlashIs(path: string)
    ensures TrimSlash(path + "/") == path
    ensures path == "" || path[|path| - 1] != '/' ==> TrimSlash(path) == path
  {
  }

  function Columns(e: Entry): string
    requires Complete(e)
  {
    PadRight(e.event, 8) + PadRight(e.key.value, 22) + PadRight(e.eventtime.value, 20)
  }

  /** The line, however long. */
  function FullLine(e: Entry): string
    requires Complete(e)
  {
    if e.log.Some? then
      Columns(e) + Shown(e.type_) + " " + TrimSlash(e.log.value) + "\n"
    else if e.type_.Some? && e.type_.value != "" then
      if e.lastuptime.Some? then
        Columns(e) + PadRight(e.type_.value, 16) + " " + e.lastuptime.value + "\n"
      else
        Columns(e) + PadRight(e.type_.value, 16) + "\n"
    else
      Columns(e) + Shown(e.lastuptime) + "\n"
  }

  /** entry_to_history_line: snprintf cuts the line at the size of the buffer. */
  function HistoryLine(e: Entry): string
    requires Complete(e)
  {
    var line := FullLine(e);
    if |line| <= MAXLINESIZE - 1 then line else line[..MAXLINESIZE - 1]
  }

  /** At most 4095 characters of it are kept. */
  lemma {:induction false} HistoryLineIs(e: Entry)
    requires Complete(e)
    ensures HistoryLine(e) <= FullLine(e) && |HistoryLine(e)| == Min(|FullLine(e)|, 4095)
  {
  }

  /** A line that the file and the ring can hold: complete, and short enough to be read back. */
  predicate GoodLine(l: string) {
    IsLine(l) && |l| <= MAXLINESIZE - 1 && NoNul(l)
  }

  predicate OneLine(s: string) {
    '\n' !in s && NoNul(s)
  }

  predicate FieldsAreOneLine(e: Entry) {
    && OneLine(e.event)
    && OneLine(Shown(e.key)) && OneLine(Shown(e.eventtime)) && OneLine(Shown(e.type_))
    && OneLine(Shown(e.log)) && OneLine(Shown(e.lastuptime))
  }

  lemma {:induction false} ColumnsOneLine(e: Entry)
    requires Complete(e) && FieldsAreOneLine(e)
    ensures OneLine(Columns(e))
  {
  }

  lemma {:induction false} FullLineShape(e: Entry)
    requires Complete(e) && FieldsAreOneLine(e)
    ensures IsLine(FullLine(e)) && NoNul(FullLine(e))
  {
    ColumnsOneLine(e);
    var line := FullLine(e);
    assert OneLine(TrimSlash(Shown(e.log)));
    assert OneLine(line[..|line| - 1]);
  }

  /** The entry yields a line of its own if and only if it fits: a cut line has no newline. */
  lemma {:induction false} HistoryLineGood(e: Entry)
    requires Complete(e) && FieldsAreOneLine(e)
    ensures GoodLine(HistoryLine(e)) <==> |FullLine(e)| <= 4095
  {
    FullLineShape(e);
    var line := FullLine(e);
    if |line| > MAXLINESIZE - 1 {
      assert HistoryLine(e)[MAXLINESIZE - 2] == line[..|line| - 1][MAXLINESIZE - 2];
    }
  }

  /** What a cut line does to the file: the next line is glued to it. */
  lemma {:induction false} CutLineSwallowsNext(text: string, cut: string, next: string)
    requires Terminated(text) && cut != "" && '\n' !in cut && IsLine(next)
    ensures Lines(text + cut + next) == Lines(text) + [cut + next]
  {
    assert (cut + next)[..|cut + next| - 1] == cut + next[..|next| - 1];
    LinesAppend(text, cut + next);
    assert text + cut + next == text + (cut + next);
  }

  // ----- scanning -----

  /** What the delete command reads from the line of a crash. */
  datatype Crash = Crash(id: string, dir: string)

  /** sscanf(line, "CRASH %s %*s %*s %s\n", ...) assigning both of its fields. */
  function ScanCrash(line: string): Option<Crash> {
    if "CRASH" <= line then
      var f := Fields(line[5..]);
      if |f| >= 4 then Some(Crash(f[0], f[3])) else None
    else None
  }

  lemma {:induction false} ScannedIsLong(line: string)
    requires ScanCrash(line).Some?
    ensures |line| >= 9
  {
    FieldsBound(line[5..]);
  }

  /** A crash entry whose columns stay apart once printed. */
  predicate Scannable(e: Entry) {
    && Complete(e) && e.event == "CRASH" && e.log.Some? && e.type_.Some?
    && IsWord(e.key.value) && |e.key.value| < 22
    && |Fields(e.eventtime.value)| == 1
    && (|e.eventtime.value| < 20 || IsSpace(e.eventtime.value[|e.eventtime.value| - 1]))
    && IsWord(e.type_.value)
    && IsWord(TrimSlash(e.log.value))
  }

  lemma {:induction false} FieldsOfEnd(typ: string, log: string)
    requires IsWord(typ) && IsWord(log)
    ensures Fields(typ + (" " + (log + "\n"))) == [typ, log]
  {
    FieldsOfWord(log);
    FieldsOfBlanks("\n");
    FieldsConcat(log, "\n");
    FieldsOfBlanks(" ");
    FieldsConcat(" ", log + "\n");
    FieldsOfWord(typ);
    FieldsConcat(typ, " " + (log + "\n"));
  }

  lemma {:induction false} FieldsOfColumns(key: string, time: string, end: string)
    requires IsWord(key) && |key| < 22
    requires time != "" && (|time| < 20 || IsSpace(time[|time| - 1]))
    ensures Fields("   " + (PadRight(key, 22) + (PadRight(time, 20) + end))) == [key] + (Fields(time) + Fields(end))
  {
    FieldsOfPadded(time, 20);
    FieldsConcat(PadRight(time, 20), end);
    FieldsOfWord(key);
    FieldsOfPadded(key, 22);
    FieldsConcat(PadRight(key, 22), PadRight(time, 20) + end);
    FieldsOfBlanks("   ");
    FieldsConcat("   ", PadRight(key, 22) + (PadRight(time, 20) + end));
  }

  lemma {:induction false} CrashLineShape(e: Entry)
    requires Complete(e) && |e.event| <= 8 && e.log.Some? && e.type_.Some?
    ensures FullLine(e) == e.event + (Spaces(8 - |e.event|) +
      (PadRight(e.key.value, 22) + (PadRight(e.eventtime.value, 20) +
        (e.type_.value + (" " + (TrimSlash(e.log.value) + "\n"))))))
  {
  }

  lemma {:induction false} FieldsAfter(w: string, width: nat, rest: string)
    requires IsWord(w) && |w| < width
    ensures Fields(PadRight(w, width) + rest) == [w] + Fields(rest)
  {
    FieldsOfWord(w);
    FieldsOfPadded(w, width);
    FieldsConcat(PadRight(w, width), rest);
  }

  lemma {:induction false} LastField(w: string)
    requires IsWord(w)
    ensures Fields(w + "\n") == [w]
  {
    FieldsOfWord(w);
    FieldsOfBlanks("\n");
    FieldsConcat(w, "\n");
  }

  /** An entry whose columns stay apart, whatever its event. */
  predicate Separable(e: Entry) {
    && Complete(e) && IsWord(e.event) && |e.event| < 8 && IsWord(e.key.value) && |e.key.value| < 22
    && e.eventtime.value != ""
    && (|e.eventtime.value| < 20 || IsSpace(e.eventtime.value[|e.eventtime.value| - 1]))
    && (e.type_.Some? && e.type_.value != "" ==> IsWord(e.type_.value))
    && (e.lastuptime.Some? ==> IsWord(e.lastuptime.value))
    && (e.log.Some? ==> IsWord(TrimSlash(e.log.value)) && (e.type_.Some? ==> e.type_.value != ""))
  }

  /** What stands after the columns: type and path of an entry with a log; else the type and the
      uptime that it has, and without a type the uptime. A null pointer prints as (null). */
  function EndFields(e: Entry): seq<string> {
    match (e.log, e.type_, e.lastuptime)
    case (Some(log), Some(t), _) => [t, TrimSlash(log)]
    case (Some(log), None, _) => ["(null)", TrimSlash(log)]
    case (None, None, None) => ["(null)"]
    case (None, None, Some(u)) => [u]
    case (None, Some(t), None) => if t == "" then ["(null)"] else [t]
    case (None, Some(t), Some(u)) => if t == "" then [u] else [t, u]
  }

  lemma {:induction false} FieldsOfTail(e: Entry, tail: string)
    requires Separable(e) && FullLine(e) == Columns(e) + tail
    ensures Fields(tail) == EndFields(e)
  {
    assert tail == FullLine(e)[|Columns(e)|..];
    assert IsWord("(null)");
    if e.log.Some? {
      var typ, log := Shown(e.type_), TrimSlash(e.log.value);
      assert FullLine(e) == Columns(e) + (typ + (" " + (log + "\n")));
      FieldsOfEnd(typ, log);
    } else if e.type_.Some? && e.type_.value != "" {
      FieldsOfWord(e.type_.value);
      FieldsOfPadded(e.type_.value, 16);
      if e.lastuptime.Some? {
        var end := " " + (e.lastuptime.value + "\n");
        assert FullLine(e) == Columns(e) + (PadRight(e.type_.value, 16) + end);
        LastField(e.lastuptime.value);
        FieldsOfBlanks(" ");
        FieldsConcat(" ", e.lastuptime.value + "\n");
        FieldsConcat(PadRight(e.type_.value, 16), end);
      } else {
        assert FullLine(e) == Columns(e) + (PadRight(e.type_.value, 16) + "\n");
        FieldsOfBlanks("\n");
        FieldsConcat(PadRight(e.type_.value, 16), "\n");
      }
    } else {
      assert FullLine(e) == Columns(e) + (Shown(e.lastuptime) + "\n");
      LastField(Shown(e.lastuptime));
    }
  }

  lemma {:induction false} PaddedApart(s: string, w: nat)
    requires s != "" && (|s| < w || IsSpace(s[|s| - 1]))
    ensures IsSpace(PadRight(s, w)[|PadRight(s, w)| - 1])
  {
  }

  lemma {:induction false} TwoFirst(a: string, b: string, c: seq<string>, d: seq<string>)
    ensures [a] + ([b] + (c + d)) == [a, b] + c + d
  {
  }

  lemma {:induction false} ColumnsThen(e: Entry, tail: string)
    requires Complete(e)
    ensures Columns(e) + tail ==
            PadRight(e.event, 8) + (PadRight(e.key.value, 22) + (PadRight(e.eventtime.value, 20) + tail))
  {
  }

  /** The fields of a printed line are those of the entry, in the order event, key, date, and
      what stands after them. */
  lemma {:induction false} FieldsOfLine(e: Entry)
    requires Separable(e)
    ensures Fields(FullLine(e)) == [e.event, e.key.value] + Fields(e.eventtime.value) + EndFields(e)
  {
    hide Fields, PadRight;
    var tail := FullLine(e)[|Columns(e)|..];
    assert FullLine(e) == Columns(e) + tail;
    hide Columns;
    FieldsOfTail(e, tail);
    var time := PadRight(e.eventtime.value, 20);
    ColumnsThen(e, tail);
    FieldsOfPadded(e.eventtime.value, 20);
    PaddedApart(e.eventtime.value, 20);
    FieldsConcat(time, tail);
    FieldsAfter(e.key.value, 22, time + tail);
    FieldsAfter(e.event, 8, PadRight(e.key.value, 22) + (time + tail));
    TwoFirst(e.event, e.key.value, Fields(time), Fields(tail));
  }

  /** Printing then scanning gives the key and the log path back. */
  lemma {:induction false} PrintScan(e: Entry)
    requires Scannable(e) && |FullLine(e)| <= MAXLINESIZE - 1
    ensures ScanCrash(HistoryLine(e)) == Some(Crash(e.key.value, TrimSlash(e.log.value)))
  {
    var time, typ, log := e.eventtime.value, e.type_.value, TrimSlash(e.log.value);
    var end := typ + (" " + (log + "\n"));
    CrashLineShape(e);
    assert Spaces(3) == "   ";
    FieldsOfEnd(typ, log);
    FieldsOfColumns(e.key.value, time, end);
    assert HistoryLine(e)[5..] == "   " + (PadRight(e.key.value, 22) + (PadRight(time, 20) + end));
  }
}
