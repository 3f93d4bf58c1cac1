/**
 cache_file (crashlog/fsutils.c): loads the first or the last lines of a file into an
 array of records. Tail mode writes the records as a ring and un-rotates it at the end.
 */
module CacheFile {
  import opened Text
  import opened LineReader
  import Ring
  import QuickSort

  const CACHE_TAIL := 0
  const CACHE_START := 1

  const EINVAL := 22
  const ENOENT := 2

  /** What the file name given to the loader designates. */
  datatype Source = NullName | Missing | Present(text: string)

  function CStrings(ls: seq<string>): (r: seq<string>)
    ensures |r| == |ls|
  {
    seq(|ls|, i requires 0 <= i < |ls| => CString(ls[i]))
  }

  /** What the reader delivers after the first `offset` lines, as C strings. */
  function Body(text: string, offset: nat): (r: seq<string>)
    ensures |r| == Max(|Chunks(text)| - offset, 0)
  {
    CStrings(if offset <= |Chunks(text)| then Chunks(text)[offset..] else [])
  }

  /** The records array holds `lines` from its start, and nulls up to `size`. */
  ghost predicate Holds(records: array<Ring.Slot>, size: nat, lines: seq<string>)
    requires size <= records.Length
    reads records
  {
    && |lines| <= size
    && (forall i :: 0 <= i < |lines| ==> records[i] == Some(lines[i]))
    && (forall i :: |lines| <= i < size ==> records[i].None?)
  }

  method Load(source: Source, records: array<Ring.Slot>, maxrecords: int, cachemode: int, offset: int)
    returns (res: int)
    requires maxrecords <= records.Length
    modifies records
    ensures
      if (cachemode != 0 && cachemode != 1) || source.NullName? || offset < 0 || offset >= maxrecords then
        res == -22 && records[..] == old(records[..])
      else if source.Missing? then
        res == -2 && records[..] == old(records[..])
      else
        var body := Body(source.text, offset);
        && records[maxrecords..] == old(records[maxrecords..])
        && if cachemode == 0 then
             Holds(records, maxrecords, LastN(body, maxrecords)) && res == |LastN(body, maxrecords)|
           else
             && Holds(records, maxrecords, body[..Min(|body|, maxrecords - offset)])
             && res == if |Chunks(source.text)| < maxrecords then |body| else maxrecords
  {
    if cachemode != CACHE_START && cachemode != CACHE_TAIL {
      return -EINVAL;
    }
    if source.NullName? || offset < 0 || offset >= maxrecords {
      return -EINVAL;
    }
    if source.Missing? {
      return -ENOENT;
    }
    for index := 0 to maxrecords
      invariant forall i :: 0 <= i < index ==> records[i].None?
      invariant records[maxrecords..] == old(records[maxrecords..])
    {
      records[index] := None;
    }
    if cachemode == CACHE_START {
      res := LoadStart(source.text, records, maxrecords, offset);
    } else {
      res := LoadTail(source.text, records, maxrecords, offset);
    }
  }

  lemma {:induction false} BodyStep(s: string, skip: nat)
    requires s != ""
    ensures var rest := s[Consumed(s)..];
            Body(s, skip) == if skip > 0 then Body(rest, skip - 1)
                             else [CString(s[..ChunkLen(s)])] + Body(rest, 0)
  {
    var chunk, rest := s[..ChunkLen(s)], Chunks(s[Consumed(s)..]);
    assert Chunks(s) == [chunk] + rest;
    assert CStrings([chunk] + rest) == [CString(chunk)] + CStrings(rest);
    assert 0 < skip <= |rest| + 1 ==> ([chunk] + rest)[skip..] == rest[skip - 1..];
    assert ([chunk] + rest)[0..] == [chunk] + rest && rest[0..] == rest;
  }

  lemma {:induction false} BodyOfEmpty(skip: nat)
    ensures Body("", skip) == []
  {
  }

  lemma {:induction false} BufferHolds(buffer: string, size: nat, line: string)
    requires size < |buffer| && buffer[..size] == line && buffer[size] == NUL
    ensures CString(buffer) == CString(line)
  {
    assert buffer == line + [NUL] + buffer[size + 1..];
    CStringStops(line, buffer[size + 1..]);
  }

  /** readline and strdup: the next line of the file as a C string. */
  method ReadRecord(text: string, pos: nat, curline: array<char>) returns (size: nat, next: nat, line: string)
    requires curline.Length == MAXLINESIZE && pos <= |text|
    modifies curline
    ensures pos <= next <= |text|
    ensures size == 0 <==> text[pos..] == ""
    ensures next == pos + Consumed(text[pos..])
    ensures text[next..] == text[pos..][Consumed(text[pos..])..]
    ensures size > 0 ==> next > pos
    ensures line == CString(text[pos..][..ChunkLen(text[pos..])])
  {
    size, next := Readline(text, pos, curline);
    BufferHolds(curline[..], size, text[pos..][..size]);
    line := CString(curline[..]);
  }

  /** What tail mode ends with when the ring holds `kept` and `s` is still to be read. */
  function Outcome(s: string, kept: seq<string>, skip: nat, n: nat): seq<string> {
    LastN(kept + Body(s, skip), n)
  }

  lemma {:induction false} OutcomeSkip(s: string, kept: seq<string>, skip: nat, n: nat)
    requires s != "" && skip > 0
    ensures Outcome(s[Consumed(s)..], kept, skip - 1, n) == Outcome(s, kept, skip, n)
  {
    BodyStep(s, skip);
  }

  lemma {:induction false} LastNMiddle(kept: seq<string>, line: string, rest: seq<string>, n: nat)
    ensures LastN(LastN(kept + [line], n) + rest, n) == LastN(kept + ([line] + rest), n)
  {
    LastNAppend(kept + [line], rest, n);
    assert kept + [line] + rest == kept + ([line] + rest);
  }

  lemma {:induction false} OutcomeKeep(s: string, kept: seq<string>, n: nat)
    requires s != ""
    ensures Outcome(s[Consumed(s)..], LastN(kept + [CString(s[..ChunkLen(s)])], n), 0, n) == Outcome(s, kept, 0, n)
  {
    BodyStep(s, 0);
    LastNMiddle(kept, CString(s[..ChunkLen(s)]), Body(s[Consumed(s)..], 0), n);
  }

  lemma {:induction false} OutcomeEnd(kept: seq<string>, skip: nat, n: nat)
    requires |kept| <= n
    ensures Outcome("", kept, skip, n) == kept
  {
    BodyOfEmpty(skip);
    assert kept + [] == kept;
  }

  lemma {:induction false} OutcomeStart(text: string, offset: nat, n: nat)
    ensures Outcome(text, [], offset, n) == LastN(Body(text, offset), n)
  {
    assert [] + Body(text, offset) == Body(text, offset);
  }

  method LoadTail(text: string, records: array<Ring.Slot>, maxrecords: int, offset: int) returns (count: int)
    requires 0 <= offset < maxrecords <= records.Length
    requires forall i :: 0 <= i < maxrecords ==> records[i].None?
    modifies records
    ensures Holds(records, maxrecords, LastN(Body(text, offset), maxrecords))
    ensures count == |LastN(Body(text, offset), maxrecords)|
    ensures records[maxrecords..] == old(records[maxrecords..])
  {
    var curline := new char[MAXLINESIZE];
    var curindex, pos, line_idx := 0, 0, 0;
    count := 0;
    Ring.EmptyRing(records[..maxrecords]);
    ghost var kept: seq<string>, s := [], text;
    OutcomeStart(text, offset, maxrecords);
    while true
      invariant 0 <= pos <= |text| && 0 <= line_idx && s == text[pos..]
      invariant Ring.View(records[..maxrecords], curindex) == Some(kept)
      invariant Outcome(s, kept, Max(offset - line_idx, 0), maxrecords) == LastN(Body(text, offset), maxrecords)
      invariant count == |kept| <= maxrecords
      invariant records[maxrecords..] == old(records[maxrecords..])
      decreases |text| - pos
    {
      var res, next, line := ReadRecord(text, pos, curline);
      if res == 0 {
        break;
      }
      if line_idx >= offset {
        OutcomeKeep(s, kept, maxrecords);
        curindex := Ring.Write(records, maxrecords, curindex, line, kept);
        kept := LastN(kept + [line], maxrecords);
        if count < maxrecords {
          count := count + 1;
        }
      } else {
        OutcomeSkip(s, kept, offset - line_idx, maxrecords);
      }
      line_idx, pos, s := line_idx + 1, next, s[Consumed(s)..];
    }
    OutcomeEnd(kept, Max(offset - line_idx, 0), maxrecords);
    Reorder(records, maxrecords, count, curindex, kept);
  }

  /** Puts the ring in chronological order from the start of the array. */
  method Reorder(records: array<Ring.Slot>, maxrecords: int, count: int, curindex: int, ghost lines: seq<string>)
    requires 0 < maxrecords <= records.Length
    requires Ring.View(records[..maxrecords], curindex) == Some(lines) && count == |lines|
    modifies records
    ensures Holds(records, maxrecords, lines)
    ensures records[maxrecords..] == old(records[maxrecords..])
  {
    ghost var slots := records[..maxrecords];
    if count == maxrecords && curindex != 0 {
      Ring.Rotated(slots, curindex);
      var res := QuickSort.Quicksort(records, count, curindex);
      ghost var sorted := slots[curindex..] + slots[..curindex];
      assert records[..maxrecords] == sorted;
      assert forall i :: 0 <= i < maxrecords ==> records[i] == sorted[i];
    } else {
      Ring.InOrder(slots, curindex);
      assert forall i :: 0 <= i < maxrecords ==> records[i] == slots[i];
    }
  }

  /** records[|kept|] = line */
  method AddRecord(records: array<Ring.Slot>, size: int, ghost kept: seq<string>, k: int, line: string)
    requires 0 <= k == |kept| < size <= records.Length && Holds(records, size, kept)
    modifies records
    ensures Holds(records, size, kept + [line])
    ensures records[size..] == old(records[size..])
  {
    records[k] := Some(line);
  }

  /** After `index` reads in start mode: `kept` is stored and `s` is still to be read. */
  predicate StartState(text: string, s: string, kept: seq<string>, index: nat, offset: nat) {
    && |kept| == Max(index - offset, 0)
    && kept + Body(s, Max(offset - index, 0)) == Body(text, offset)
    && |Chunks(s)| == Max(|Chunks(text)| - index, 0)
    && (index > offset ==> index <= |Chunks(text)|)
  }

  lemma {:induction false} StartFirst(text: string, offset: nat)
    ensures StartState(text, text, [], 0, offset)
  {
  }

  lemma {:induction false} StartSkip(text: string, s: string, kept: seq<string>, index: nat, offset: nat)
    requires StartState(text, s, kept, index, offset) && index < offset
    ensures StartState(text, s[Consumed(s)..], kept, index + 1, offset)
  {
    if s != "" {
      BodyStep(s, offset - index);
      assert |Chunks(s)| == 1 + |Chunks(s[Consumed(s)..])|;
    } else {
      assert s[Consumed(s)..] == "";
      BodyOfEmpty(offset - index);
      BodyOfEmpty(Max(offset - index - 1, 0));
    }
  }

  lemma {:induction false} StartKeep(text: string, s: string, kept: seq<string>, index: nat, offset: nat)
    requires StartState(text, s, kept, index, offset) && index >= offset && s != ""
    ensures StartState(text, s[Consumed(s)..], kept + [CString(s[..ChunkLen(s)])], index + 1, offset)
  {
    BodyStep(s, 0);
    var line, rest := CString(s[..ChunkLen(s)]), Body(s[Consumed(s)..], 0);
    assert kept + ([line] + rest) == kept + [line] + rest;
    assert |Chunks(s)| == 1 + |Chunks(s[Consumed(s)..])|;
  }

  lemma {:induction false} StartEnd(text: string, s: string, kept: seq<string>, index: nat, offset: nat)
    requires StartState(text, s, kept, index, offset) && index >= offset
    ensures |kept| == index - offset && (index > offset ==> index <= |Chunks(text)|)
    ensures s == "" ==> kept == Body(text, offset) && |Chunks(text)| <= index
    ensures kept <= Body(text, offset)
  {
    if s == "" {
      BodyOfEmpty(0);
    }
  }

  method LoadStart(text: string, records: array<Ring.Slot>, maxrecords: int, offset: int) returns (res: int)
    requires 0 <= offset < maxrecords <= records.Length
    requires forall i :: 0 <= i < maxrecords ==> records[i].None?
    modifies records
    ensures Holds(records, maxrecords,
                  Body(text, offset)[..Min(|Body(text, offset)|, maxrecords - offset)])
    ensures res == if |Chunks(text)| < maxrecords then |Body(text, offset)| else maxrecords
    ensures records[maxrecords..] == old(records[maxrecords..])
  {
    var curline := new char[MAXLINESIZE];
    var pos := 0;
    ghost var kept: seq<string>, s := [], text;
    hide StartState, Body, Chunks, Consumed, ChunkLen;
    StartFirst(text, offset);
    for index := 0 to maxrecords
      invariant 0 <= pos <= |text| && s == text[pos..]
      invariant StartState(text, s, kept, index, offset)
      invariant Holds(records, maxrecords, kept)
      invariant records[maxrecords..] == old(records[maxrecords..])
    {
      var size, next, line := ReadRecord(text, pos, curline);
      if index >= offset {
        StartEnd(text, s, kept, index, offset);
        if size == 0 {
          return index - offset;
        }
        StartKeep(text, s, kept, index, offset);
        AddRecord(records, maxrecords, kept, index - offset, line);
        kept := kept + [line];
      } else {
        StartSkip(text, s, kept, index, offset);
      }
      pos, s := next, s[Consumed(s)..];
    }
    StartEnd(text, s, kept, maxrecords, offset);
    res := maxrecords;
  }

  // ----- what the loader promises -----

  /** On a text file whose lines fit in the buffer, the body is the file's own lines. */
  lemma {:induction false} BodyOfText(text: string, offset: nat)
    requires LinesFit(text) && NoNul(text)
    ensures Body(text, offset) == if offset <= |Lines(text)| then Lines(text)[offset..] else []
  {
    ChunksOfFit(text);
    forall i | 0 <= i < |Lines(text)| ensures CString(Lines(text)[i]) == Lines(text)[i] {
      LinesNoNul(text, i);
      CStringStops(Lines(text)[i], "");
    }
  }

  lemma {:induction false} LinesNoNul(text: string, i: nat)
    requires NoNul(text) && i < |Lines(text)|
    ensures NoNul(Lines(text)[i])
  {
    if i > 0 {
      LinesNoNul(text[LineLen(text)..], i - 1);
    }
  }

  /** The result of start mode is the number of records stored if and only if no line is
      skipped or the file has fewer than `maxrecords` lines. */
  lemma {:induction false} StartCountExact(text: string, maxrecords: nat, offset: nat)
    requires offset < maxrecords
    ensures var stored := Min(|Body(text, offset)|, maxrecords - offset);
            var result := if |Chunks(text)| < maxrecords then |Body(text, offset)| else maxrecords;
            result == stored <==> offset == 0 || |Chunks(text)| < maxrecords
  {
  }
}
