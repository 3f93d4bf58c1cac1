/**
 Files moved in the dropbox directory (crashlog/dropbox.c, lines 135-274): a log that is only
 renamed is not reported a second time.
 */
module DropboxMoves {
  import opened Text
  import opened Decimal

  const TIMESTAMP_MAX_SIZE := 10

  // ----- the time in a file name -----

  /** The value of a text without its last three characters, if it is a number that is short
      enough and at most `longMax`, the LONG_MAX of the platform. */
  function Seconds(text: string, longMax: nat): int {
    if |text| < 3 || |text| - 3 > TIMESTAMP_MAX_SIZE then -1
    else
      var digits := text[..|text| - 3];
      if AllDigits(digits) && Value(digits) <= longMax then Value(digits) else -1
  }

  /** What extract_dropbox_timestamp finds between the first '@' and the '.' that follows. */
  function Timestamp(filename: string, longMax: nat): int {
    var at := IndexOf(filename, '@');
    if at == |filename| then -1
    else
      var tail := filename[at + 1..];
      var dot := IndexOf(tail, '.');
      if dot == |tail| then -1 else Seconds(tail[..dot], longMax)
  }

  method ExtractDropboxTimestamp(filename: string, longMax: nat) returns (res: int)
    ensures res == Timestamp(filename, longMax)
  {
    var start := IndexOf(filename, '@');
    if start < |filename| {
      var tail := filename[start + 1..];
      var end := IndexOf(tail, '.');
      if end < |tail| {
        if end - 3 <= TIMESTAMP_MAX_SIZE && end - 3 >= 0 {
          var timestamp := tail[..end - 3];
          assert tail[..end][..end - 3] == timestamp;
          var i := 0;
          while i < |timestamp|
            invariant 0 <= i <= |timestamp| && AllDigits(timestamp[..i])
          {
            if !IsDigit(timestamp[i]) {
              return -1;
            }
            i := i + 1;
          }
          assert timestamp[..i] == timestamp;
          if Value(timestamp) > longMax {
            return -1;
          }
          return Value(timestamp);
        }
      }
    }
    return -1;
  }

  /** The name of a dropbox log file written at a time in milliseconds. */
  function LogName(kind: string, ms: nat, suffix: string): string {
    kind + "@" + Dec(ms) + "." + suffix
  }

  lemma {:induction false} DropDigit(n: nat)
    requires n >= 10
    ensures |Dec(n)| == |Dec(n / 10)| + 1 && Dec(n)[..|Dec(n)| - 1] == Dec(n / 10)
  {
  }

  /** The digits that remain without the milliseconds. */
  lemma {:induction false} SecondsOfDec(ms: nat)
    ensures ms < 100 <==> |Dec(ms)| < 3
    ensures ms >= 100 ==> Value(Dec(ms)[..|Dec(ms)| - 3]) == ms / 1000
  {
    if ms >= 10 {
      DropDigit(ms);
    }
    if ms >= 100 {
      DropDigit(ms / 10);
      assert ms / 10 / 10 == ms / 100;
    }
    if ms >= 1000 {
      DropDigit(ms / 100);
      assert ms / 100 / 10 == ms / 1000;
      ValueOfDec(ms / 1000);
      assert Dec(ms)[..|Dec(ms)| - 3] == Dec(ms / 1000);
    }
  }

  lemma {:induction false} SecondsBack(ms: nat, longMax: nat)
    ensures Seconds(Dec(ms), longMax) == if 100 <= ms < Pow10(13) && ms / 1000 <= longMax then ms / 1000 else -1
  {
    SecondsOfDec(ms);
    if ms >= Pow10(13) {
      DecLengthLow(ms, 14);
    } else {
      DecLength(ms, 13);
    }
  }

  lemma {:induction false} NameParts(kind: string, digits: string, suffix: string)
    requires '@' !in kind && AllDigits(digits)
    ensures var name := kind + "@" + digits + "." + suffix;
            && IndexOf(name, '@') == |kind| < |name|
            && var tail := name[|kind| + 1..];
               IndexOf(tail, '.') == |digits| < |tail| && tail[..|digits|] == digits
  {
    var name := kind + "@" + digits + "." + suffix;
    assert name[..|kind|] == kind && name[|kind|] == '@';
    IndexOfIs(name, '@', |kind|);
    var tail := name[|kind| + 1..];
    assert tail[..|digits|] == digits && tail[|digits|] == '.';
    IndexOfIs(tail, '.', |digits|);
  }

  /** The time is found back, in seconds, exactly when it has between three and thirteen digits
      and fits a long. */
  lemma {:induction false} TimestampRoundTrip(kind: string, ms: nat, suffix: string, longMax: nat)
    requires '@' !in kind
    ensures Timestamp(LogName(kind, ms, suffix), longMax) ==
            if 100 <= ms < Pow10(13) && ms / 1000 <= longMax then ms / 1000 else -1
  {
    NameParts(kind, Dec(ms), suffix);
    SecondsBack(ms, longMax);
  }

  /** A name without an '@', or without a '.' after it, has no time. */
  lemma {:induction false} NoTimestamp(a: string, b: string, longMax: nat)
    requires '@' !in a && '.' !in b
    ensures Timestamp(a, longMax) == Timestamp(a + "@" + b, longMax) == -1
  {
    IndexOfIs(a, '@', |a|);
    var name := a + "@" + b;
    assert name[..|a|] == a && name[|a|] == '@' && name[|a| + 1..] == b;
    IndexOfIs(name, '@', |a|);
    assert b[..|b|] == b;
    IndexOfIs(b, '.', |b|);
  }

  // ----- moves -----

  datatype Kind = MovedFrom | MovedTo | Other

  /** The part of an inotify event that is used; `named` says that it carries a file name. */
  datatype Event = Event(kind: Kind, cookie: nat, named: bool, name: string)

  /** An INFO event: its type, the file's previous name and new name, the time found. */
  datatype Info = Info(subject: string, previous: string, name: string, timestamp: int)

  /** previous_event_cookie and previous_filename */
  datatype Memo = Memo(cookie: nat, filename: string)

  /** The event is the second half of the move that is remembered. */
  predicate Duplicate(m: Memo, e: Event) {
    e.kind.MovedTo? && m.cookie != 0 && m.cookie == e.cookie && e.named
  }

  function Subject(name: string): string {
    if Contains(name, "anr") then "anr_duplicate_infoevent"
    else if Contains(name, "system_server_watchdog") then "uiwdt_duplicate_infoevent"
    else "javacrash_duplicate_infoevent"
  }

  lemma {:induction false} ContainsInside(a: string, word: string, b: string)
    ensures Contains(a + word + b, word)
  {
    assert (a + word + b)[|a|..] == word + b;
  }

  /** The type of the event follows the name of the file: a trace of an application that did not
      respond, whatever else the name has; a watchdog of the system server; anything else. */
  lemma {:induction false} SubjectOf(a: string, b: string)
    ensures Subject(a + "anr" + b) == "anr_duplicate_infoevent"
    ensures !Contains(a + "system_server_watchdog" + b, "anr") ==>
              Subject(a + "system_server_watchdog" + b) == "uiwdt_duplicate_infoevent"
    ensures !Contains(a, "anr") && !Contains(a, "system_server_watchdog") ==>
              Subject(a) == "javacrash_duplicate_infoevent"
  {
    ContainsInside(a, "anr", b);
    ContainsInside(a, "system_server_watchdog", b);
  }

  function InfoOf(previous: string, name: string, longMax: nat): Info {
    Info(Subject(name), previous, name, Timestamp(previous, longMax))
  }

  function Remember(m: Memo, e: Event): Memo {
    if e.kind.MovedFrom? then Memo(e.cookie, if e.named then e.name else m.filename)
    else if Duplicate(m, e) then Memo(0, "")
    else m
  }

  /** What is remembered after a run of events. */
  function After(events: seq<Event>): Memo {
    if events == [] then Memo(0, "") else Remember(After(events[..|events| - 1]), events[|events| - 1])
  }

  /** Event `j` of a run is kept from being processed. */
  predicate Suppressed(events: seq<Event>, j: nat)
    requires j < |events|
  {
    events[j].kind.MovedFrom? || Duplicate(After(events[..j]), events[j])
  }

  function Infos(events: seq<Event>, longMax: nat): seq<Info> {
    if events == [] then [] else
      var e, m := events[|events| - 1], After(events[..|events| - 1]);
      Infos(events[..|events| - 1], longMax) +
      if Duplicate(m, e) then [InfoOf(m.filename, e.name, longMax)] else []
  }

  // ----- runs -----

  /** The kernel gives each rename a cookie of its own, and both its events a name. */
  predicate KernelRun(events: seq<Event>) {
    && (forall i :: 0 <= i < |events| && !events[i].kind.Other? ==> events[i].cookie != 0 && events[i].named)
    && (forall i, j :: 0 <= i < j < |events| && events[i].kind == events[j].kind != Other ==>
          events[i].cookie != events[j].cookie)
  }

  /** Event `i` is the first half of the move that event `j` ends, and no other first half
      comes between them. */
  predicate Partner(events: seq<Event>, i: nat, j: nat)
    requires i < j < |events|
  {
    && events[i].kind.MovedFrom? && events[j].kind.MovedTo? && events[i].cookie == events[j].cookie
    && forall k :: i < k < j ==> !events[k].kind.MovedFrom?
  }

  /** Index of the last first half of a move before `n`. */
  function LastFrom(events: seq<Event>, n: nat): (r: Option<nat>)
    requires n <= |events|
    ensures r.Some? ==> r.value < n && events[r.value].kind.MovedFrom?
    ensures forall k :: (if r.Some? then r.value + 1 else 0) <= k < n ==> !events[k].kind.MovedFrom?
  {
    if n == 0 then None else if events[n - 1].kind.MovedFrom? then Some(n - 1) else LastFrom(events, n - 1)
  }

  /** What is remembered is the last first half, unless its second half was met. */
  lemma {:induction false} Remembered(events: seq<Event>, n: nat)
    requires n <= |events| && KernelRun(events)
    ensures var m, from := After(events[..n]), LastFrom(events, n);
            if from.None? then m.cookie == 0
            else if exists k :: from.value < k < n && Partner(events, from.value, k) then m.cookie == 0
            else m == Memo(events[from.value].cookie, events[from.value].name)
  {
    if n > 0 {
      Remembered(events, n - 1);
      assert events[..n][..n - 1] == events[..n - 1];
      var from := LastFrom(events, n - 1);
      if from.Some? && events[n - 1].kind.MovedTo? && events[n - 1].cookie == events[from.value].cookie {
        assert Partner(events, from.value, n - 1);
      }
    }
  }

  /** The second half of a rename is suppressed, and reported with both its names, if and only
      if its first half was seen and no other file has been moved out meanwhile. */
  lemma {:induction false} RenameSuppressed(events: seq<Event>, j: nat, longMax: nat)
    requires j < |events| && KernelRun(events) && events[j].kind.MovedTo?
    ensures Suppressed(events, j) <==> exists i :: 0 <= i < j && Partner(events, i, j)
    ensures Suppressed(events, j) || Infos(events[..j + 1], longMax) == Infos(events[..j], longMax)
    ensures forall i :: 0 <= i < j && Partner(events, i, j) ==>
              Infos(events[..j + 1], longMax) ==
              Infos(events[..j], longMax) + [InfoOf(events[i].name, events[j].name, longMax)]
  {
    Remembered(events, j);
    assert events[..j + 1][..j] == events[..j];
    var from := LastFrom(events, j);
    if from.Some? && events[from.value].cookie == events[j].cookie {
      assert Partner(events, from.value, j);
    }
    forall i | 0 <= i < j && Partner(events, i, j)
      ensures from == Some(i)
    {
    }
  }

  /** Renames as the code expects them: the two halves of a move follow each other. */
  predicate Contiguous(events: seq<Event>) {
    forall i, j ::
      (0 <= i < j < |events| && events[i].kind.MovedFrom? && events[j].kind.MovedTo?
       && events[i].cookie == events[j].cookie) ==> j == i + 1
  }

  /** Then no renamed file is processed, and no other. */
  lemma {:induction false} ContiguousRenames(events: seq<Event>, j: nat)
    requires j < |events| && KernelRun(events) && Contiguous(events) && events[j].kind.MovedTo?
    ensures Suppressed(events, j) <==>
            exists i :: 0 <= i < j && events[i].kind.MovedFrom? && events[i].cookie == events[j].cookie
  {
    RenameSuppressed(events, j, 0);
    forall i | 0 <= i < j && events[i].kind.MovedFrom? && events[i].cookie == events[j].cookie
      ensures Partner(events, i, j)
    {
    }
  }

  /** Two interleaved renames: the first file that arrives is taken for a new one. */
  lemma {:induction false} InterleavedRenames(a: string, b: string)
    ensures var events := [Event(MovedFrom, 1, true, a), Event(MovedFrom, 2, true, b),
                           Event(MovedTo, 1, true, a), Event(MovedTo, 2, true, b)];
            KernelRun(events) && !Suppressed(events, 2) && Suppressed(events, 3)
  {
    var events := [Event(MovedFrom, 1, true, a), Event(MovedFrom, 2, true, b),
                   Event(MovedTo, 1, true, a), Event(MovedTo, 2, true, b)];
    RenameSuppressed(events, 2, 0);
    RenameSuppressed(events, 3, 0);
    assert Partner(events, 1, 3);
  }

  // ----- the code -----

  class Duplicates {
    var previous_event_cookie: nat
    var previous_filename: string
    var infos: seq<Info>
    ghost var events: seq<Event>
    const longMax: nat

    ghost predicate Valid()
      reads this
    {
      Memo(previous_event_cookie, previous_filename) == After(events) && infos == Infos(events, longMax)
    }

    constructor (longMax: nat)
      ensures Valid() && events == [] && this.longMax == longMax
      ensures previous_event_cookie == 0 && previous_filename == "" && infos == []
    {
      previous_event_cookie, previous_filename, infos, events := 0, "", [], [];
      this.longMax := longMax;
    }

    /** manage_duplicate_dropbox_events; the copy of the log file is not modelled. */
    method ManageDuplicateDropboxEvents(event: Event) returns (res: int)
      requires Valid()
      modifies this
      ensures Valid() && events == old(events) + [event]
      ensures res == if Suppressed(events, |old(events)|) then -1 else 0
      ensures res == -1 <==>
              || event.kind.MovedFrom?
              || (event.kind.MovedTo? && event.named && event.cookie == old(previous_event_cookie) != 0)
      ensures event.kind.MovedFrom? ==>
                && previous_event_cookie == event.cookie && infos == old(infos)
                && previous_filename == if event.named then event.name else old(previous_filename)
      ensures event.kind.MovedTo? && res == -1 ==>
                && previous_event_cookie == 0 && previous_filename == ""
                && infos == old(infos) + [InfoOf(old(previous_filename), event.name, longMax)]
      ensures res == 0 ==>
                && previous_event_cookie == old(previous_event_cookie)
                && previous_filename == old(previous_filename) && infos == old(infos)
    {
      ghost var before := events;
      events := events + [event];
      assert events[..|before|] == before;
      if event.kind.MovedFrom? {
        previous_event_cookie := event.cookie;
        if event.named {
          previous_filename := event.name;
        }
        return -1;
      }
      if event.kind.MovedTo? && previous_event_cookie != 0 && previous_event_cookie == event.cookie && event.named {
        var info_filename;
        if Contains(event.name, "anr") {
          info_filename := "anr_duplicate_infoevent";
        } else if Contains(event.name, "system_server_watchdog") {
          info_filename := "uiwdt_duplicate_infoevent";
        } else {
          info_filename := "javacrash_duplicate_infoevent";
        }
        var timestamp_value := ExtractDropboxTimestamp(previous_filename, longMax);
        infos := infos + [Info(info_filename, previous_filename, event.name, timestamp_value)];
        previous_event_cookie := 0;
        previous_filename := "";
        return -1;
      }
      return 0;
    }
  }
}
